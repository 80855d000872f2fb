/**
 `dfs` of python/n_way_cache.py and the loop of `control` that finds the path to every leaf.

 In contracts, `P(x) == true` instead of `P(x)` keeps the verifier from unfolding P where it is only passed on.
 */
module NWayPaths {
  import opened Arithmetic
  import opened NWayGenerator

  // ---- dfs ----

  ghost function Values(t: BTree): set<Label> {
    if t.Nil? then {} else {t.value} + Values(t.left) + Values(t.right)
  }

  ghost predicate Distinct(t: BTree) {
    t.BNode? ==>
      && t.value !in Values(t.left) && t.value !in Values(t.right)
      && Values(t.left) !! Values(t.right)
      && Distinct(t.left) && Distinct(t.right)
  }

  ghost function Size(t: BTree): nat {
    if t.Nil? then 0 else 1 + Size(t.left) + Size(t.right)
  }

  ghost function StackValues(stack: seq<BTree>): set<Label> {
    if stack == [] then {} else StackValues(stack[..|stack| - 1]) + Values(stack[|stack| - 1])
  }

  ghost predicate StackDistinct(stack: seq<BTree>) {
    stack != [] ==>
      var rest, top := stack[..|stack| - 1], stack[|stack| - 1];
      StackDistinct(rest) && Distinct(top) && Values(top) !! StackValues(rest)
  }

  ghost function StackSize(stack: seq<BTree>): nat {
    if stack == [] then 0 else StackSize(stack[..|stack| - 1]) + Size(stack[|stack| - 1])
  }

  function PushUnseen(stack: seq<BTree>, t: BTree, visited: set<Label>): seq<BTree> {
    if t.BNode? && t.value !in visited then stack + [t] else stack
  }

  /** What the search has seen and still has on its stack. */
  ghost predicate Searching(root: BTree, stack: seq<BTree>, visited: set<Label>) {
    && visited <= Values(root) && StackValues(stack) <= Values(root)
    && (forall i :: 0 <= i < |stack| ==> stack[i].BNode?)
    && (Distinct(root) ==>
          StackDistinct(stack) && visited !! StackValues(stack) && visited + StackValues(stack) == Values(root))
  }

  lemma SearchStarts(root: BTree)
    requires root.BNode?
    ensures Searching(root, [root], {})
  {
  }

  /** The search never leaves the tree, and the stack shrinks in size. */
  lemma ExploredInside(root: BTree, rest: seq<BTree>, s: BTree, visited: set<Label>)
    requires s.BNode? && visited <= Values(root) && StackValues(rest + [s]) <= Values(root)
    ensures var seen := visited + {s.value};
            var stack := PushUnseen(PushUnseen(rest, s.right, seen), s.left, seen);
            && seen <= Values(root) && StackValues(stack) <= Values(root)
            && StackSize(stack) < StackSize(rest + [s])
  {
  }

  /** With distinct values nothing reachable is dropped. */
  lemma ExploredDistinct(rest: seq<BTree>, s: BTree, visited: set<Label>)
    requires s.BNode? && StackDistinct(rest + [s]) && visited !! StackValues(rest + [s])
    ensures var seen := visited + {s.value};
            var stack := PushUnseen(PushUnseen(rest, s.right, seen), s.left, seen);
            && StackDistinct(stack) && seen !! StackValues(stack)
            && seen + StackValues(stack) == visited + StackValues(rest + [s])
  {
  }

  lemma Explored(root: BTree, rest: seq<BTree>, s: BTree, visited: set<Label>)
    requires s.BNode? && Searching(root, rest + [s], visited)
    ensures var seen := visited + {s.value};
            var stack := PushUnseen(PushUnseen(rest, s.right, seen), s.left, seen);
            Searching(root, stack, seen) && StackSize(stack) < StackSize(rest + [s])
  {
    assert forall i :: 0 <= i < |rest| ==> (rest + [s])[i] == rest[i];
    ExploredInside(root, rest, s, visited);
    if Distinct(root) {
      ExploredDistinct(rest, s, visited);
    }
  }

  /** Iterative search by value.  It never invents a hit, and with distinct values it misses none. */
  method Dfs(root: BTree, location: Label) returns (found: bool)
    ensures found ==> location in Values(root)
    ensures Distinct(root) && location in Values(root) ==> found
  {
    if root == Nil {
      return false;
    }
    var stack := [root];
    var visited := {};
    SearchStarts(root);
    while |stack| > 0
      invariant location !in visited && Searching(root, stack, visited)
      decreases StackSize(stack)
    {
      var s := stack[|stack| - 1];
      assert stack == stack[..|stack| - 1] + [s];
      Explored(root, stack[..|stack| - 1], s, visited);
      stack := stack[..|stack| - 1];
      if s.value !in visited {
        visited := visited + {s.value};
      }
      if s.right != Nil {
        var right := s.right;
        if right.value !in visited {
          stack := stack + [right];
        }
      }
      if s.left != Nil {
        var left := s.left;
        if left.value !in visited {
          stack := stack + [left];
        }
      }
      if location in visited {
        return true;
      }
    }
    assert Distinct(root) ==> visited == Values(root);
    return false;
  }

  // ---- leaf paths ----

  /** One entry of path[i]: the bit's index and the direction taken there, true for right. */
  datatype Turn = Turn(bit: nat, right: bool)

  /** The turns down the tree over ways lo .. lo + 2^h - 1 to the way lo + w. */
  function Path(h: nat, lo: nat, w: nat): seq<Turn>
    requires w < Pow2(h)
  {
    if h == 0 then []
    else
      var half := Pow2(h - 1);
      if w < half then [Turn(lo + half - 1, false)] + Path(h - 1, lo, w)
      else [Turn(lo + half - 1, true)] + Path(h - 1, lo + half, w - half)
  }

  function AllPaths(k: nat): seq<seq<Turn>> {
    seq(Pow2(k), i requires 0 <= i < Pow2(k) => Path(k, 0, i))
  }

  lemma {:induction false} SplitValues(h: nat, lo: nat)
    ensures Distinct(Split(h, lo))
    ensures forall x: nat :: Way(x) in Values(Split(h, lo)) <==> lo <= x < lo + Pow2(h)
    ensures forall x: nat :: Bit(x) in Values(Split(h, lo)) <==> lo <= x < lo + Pow2(h) - 1
  {
    if h > 0 {
      var half := Pow2(h - 1);
      var l, r := Values(Split(h - 1, lo)), Values(Split(h - 1, lo + half));
      SplitValues(h - 1, lo);
      SplitValues(h - 1, lo + half);
      forall v | v in l
        ensures v !in r
      {
        match v { case Way(x) => case Bit(x) => }
      }
    }
  }

  lemma WholeTree(k: nat)
    ensures Build(Nodes(k), 0) == Split(k, 0)
  {
    BuildIsSplit(k, 0, 0);
  }

  /** The path loop of `control`: search left, else right, for every way and level. */
  method FindPaths(k: nat) returns (path: seq<seq<Turn>>)
    ensures path == AllPaths(k)
  {
    var nodes := NodeLabels(k);
    var tree := Build(nodes, 0);
    WholeTree(k);
    var height := Height(tree);
    SplitHeight(k, 0);
    path := [];
    for i := 0 to Pow2(k)
      invariant |path| == i && forall n :: 0 <= n < i ==> path[n] == Path(k, 0, n)
    {
      var turns := WalkTo(k, tree, height, i);
      path := path + [turns];
    }
  }

  /** The root of Split(h, lo), and the side on which way i lies. */
  lemma SplitSides(h: nat, lo: nat, i: nat)
    requires h > 0 && lo <= i < lo + Pow2(h)
    ensures var half := Pow2(h - 1);
            var t := Split(h, lo);
            && t == BNode(Bit(lo + half - 1), Split(h - 1, lo), Split(h - 1, lo + half))
            && Distinct(t.left) && Distinct(t.right)
            && (Way(i) in Values(t.left) <==> i < lo + half)
            && (Way(i) in Values(t.right) <==> i >= lo + half)
  {
    SplitValues(h - 1, lo);
    SplitValues(h - 1, lo + Pow2(h - 1));
  }

  /** Being at `temp`, with `turns` taken, on the way to way i. */
  ghost predicate OnTheWay(k: nat, i: nat, h: nat, lo: nat, temp: BTree, turns: seq<Turn>) {
    && lo <= i < lo + Pow2(h) && i < Pow2(k)
    && temp == Split(h, lo)
    && turns + Path(h, lo, i - lo) == Path(k, 0, i)
  }

  lemma Reassociate(turns: seq<Turn>, t: Turn, rest: seq<Turn>)
    ensures turns + ([t] + rest) == turns + [t] + rest
  {
  }

  lemma PathNode(h: nat, lo: nat, w: nat)
    requires h > 0 && w < Pow2(h)
    ensures var half := Pow2(h - 1);
            Path(h, lo, w) ==
              if w < half then [Turn(lo + half - 1, false)] + Path(h - 1, lo, w)
              else [Turn(lo + half - 1, true)] + Path(h - 1, lo + half, w - half)
  {
  }

  lemma OneLevelLeft(k: nat, i: nat, h: nat, lo: nat, temp: BTree, turns: seq<Turn>)
    requires h > 0 && OnTheWay(k, i, h, lo, temp, turns) && i < lo + Pow2(h - 1)
    ensures OnTheWay(k, i, h - 1, lo, temp.left, turns + [Turn(temp.value.n, false)])
  {
    SplitNode(h, lo);
    PathNode(h, lo, i - lo);
    Reassociate(turns, Turn(lo + Pow2(h - 1) - 1, false), Path(h - 1, lo, i - lo));
  }

  lemma OneLevelRight(k: nat, i: nat, h: nat, lo: nat, temp: BTree, turns: seq<Turn>)
    requires h > 0 && OnTheWay(k, i, h, lo, temp, turns) && i >= lo + Pow2(h - 1)
    ensures OnTheWay(k, i, h - 1, lo + Pow2(h - 1), temp.right, turns + [Turn(temp.value.n, true)])
  {
    var half := Pow2(h - 1);
    SplitNode(h, lo);
    PathNode(h, lo, i - lo);
    Reassociate(turns, Turn(lo + half - 1, true), Path(h - 1, lo + half, i - lo - half));
  }

  lemma OneLevelDown(k: nat, i: nat, h: nat, lo: nat, temp: BTree, turns: seq<Turn>)
    requires h > 0 && OnTheWay(k, i, h, lo, temp, turns)
    ensures temp.BNode? && Distinct(temp.left) && Distinct(temp.right)
    ensures Way(i) in Values(temp.left) ==>
              OnTheWay(k, i, h - 1, lo, temp.left, turns + [Turn(temp.value.n, false)]) == true
    ensures Way(i) !in Values(temp.left) ==> Way(i) in Values(temp.right)
    ensures Way(i) !in Values(temp.left) ==>
              OnTheWay(k, i, h - 1, lo + Pow2(h - 1), temp.right, turns + [Turn(temp.value.n, true)]) == true
  {
    SplitSides(h, lo, i);
    if i < lo + Pow2(h - 1) {
      OneLevelLeft(k, i, h, lo, temp, turns);
    } else {
      OneLevelRight(k, i, h, lo, temp, turns);
    }
  }

  method WalkTo(k: nat, tree: BTree, height: nat, i: nat) returns (turns: seq<Turn>)
    requires tree == Split(k, 0) && height == k && i < Pow2(k)
    ensures turns == Path(k, 0, i)
  {
    var temp := tree;
    turns := [];
    ghost var lo: nat := 0;
    for j := 0 to height
      invariant OnTheWay(k, i, k - j, lo, temp, turns) == true
    {
      OneLevelDown(k, i, k - j, lo, temp, turns);
      var inLeft := Dfs(temp.left, Way(i));
      if inLeft {
        turns := turns + [Turn(temp.value.n, false)];
        temp := temp.left;
      } else {
        var inRight := Dfs(temp.right, Way(i));
        if inRight {
          turns := turns + [Turn(temp.value.n, true)];
          temp := temp.right;
          lo := lo + Pow2(k - j - 1);
        }
      }
    }
  }

  /** Binary digit j of w < 2^h, the most significant first. */
  predicate Digit(h: nat, w: nat, j: nat)
    requires j < h
  {
    (w / Pow2(h - 1 - j)) % 2 == 1
  }

  lemma TopDigit(h: nat, w: nat)
    requires h > 0 && w < Pow2(h)
    ensures Digit(h, w, 0) <==> w >= Pow2(h - 1)
  {
    var half := Pow2(h - 1);
    QuotientIs(w, half, if w < half then 0 else 1, if w < half then w else w - half);
  }

  lemma LowerDigit(h: nat, w: nat, j: nat)
    requires 0 < j < h && w < Pow2(h)
    ensures Digit(h, w, j) == Digit(h - 1, if w < Pow2(h - 1) then w else w - Pow2(h - 1), j - 1)
  {
    if w >= Pow2(h - 1) {
      DropTopBit(h - 1, j, w - Pow2(h - 1));
    }
  }

  /** The path of way w has one turn a level, and the directions spell w in binary. */
  lemma {:induction false} PathSpellsWay(h: nat, lo: nat, w: nat, j: nat)
    requires w < Pow2(h) && j < h
    ensures |Path(h, lo, w)| == h
    ensures Path(h, lo, w)[j].right <==> Digit(h, w, j)
  {
    PathLength(h, lo, w);
    PathNode(h, lo, w);
    if j == 0 {
      TopDigit(h, w);
    } else {
      LowerDigit(h, w, j);
      if w < Pow2(h - 1) {
        PathSpellsWay(h - 1, lo, w, j - 1);
      } else {
        PathSpellsWay(h - 1, lo + Pow2(h - 1), w - Pow2(h - 1), j - 1);
      }
    }
  }

  lemma {:induction false} PathLength(h: nat, lo: nat, w: nat)
    requires w < Pow2(h)
    ensures |Path(h, lo, w)| == h
  {
    if h > 0 {
      var half := Pow2(h - 1);
      if w < half {
        PathLength(h - 1, lo, w);
      } else {
        PathLength(h - 1, lo + half, w - half);
      }
    }
  }

  lemma DropTopBit(h: nat, j: nat, w: nat)
    requires 0 < j <= h
    ensures ((w + Pow2(h)) / Pow2(h - j)) % 2 == (w / Pow2(h - j)) % 2
  {
    Pow2Sum(h - j, j);
    AddEvenMultiple(w, Pow2(h - j), Pow2(j - 1));
  }

  lemma AddEvenMultiple(w: nat, p: nat, q: nat)
    requires p > 0
    ensures ((w + p * (2 * q)) / p) % 2 == (w / p) % 2
  {
    var d, r := w / p, w % p;
    assert p * (d + 2 * q) == p * d + p * (2 * q);
    QuotientIs(w + p * (2 * q), p, d + 2 * q, r);
  }
}
