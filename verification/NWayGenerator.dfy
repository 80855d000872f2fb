/**
 The first half of `control` in python/n_way_cache.py for ways = 2^k: the node labels and the level-order
 tree built from them.  Bit(n) stands for the label str(n), Way(i) for "way" + str(i + 1).
 */
module NWayGenerator {
  import opened Arithmetic

  datatype Label = Bit(n: nat) | Way(n: nat)

  // ---- node labels ----

  /** Label of position m on level d, counted from the root. */
  function LabelAt(k: nat, d: nat, m: nat): nat
    requires d < k
  {
    Pow2(k - d - 1) * (2 * m + 1) - 1
  }

  function Level(k: nat, d: nat): seq<Label>
    requires d < k
  {
    seq(Pow2(d), m requires 0 <= m < Pow2(d) => Bit(LabelAt(k, d, m)))
  }

  function LevelOrder(k: nat, d: nat): (s: seq<Label>)
    requires d <= k
    ensures |s| == Pow2(d) - 1
  {
    if d == 0 then [] else LevelOrder(k, d - 1) + Level(k, d - 1)
  }

  function Leaves(n: nat): seq<Label> { seq(n, i requires 0 <= i < n => Way(i)) }

  function Nodes(k: nat): seq<Label> { LevelOrder(k, k) + Leaves(Pow2(k)) }

  lemma Pow2Below(k: nat, d: nat)
    ensures Pow2(d + 1) <= Pow2(k) ==> d < k
  {
    if d >= k {
      Pow2Grows(k, d);
    }
  }

  /** The quotient written as a label is exact, so int() truncates nothing. */
  lemma LabelQuotient(k: nat, d: nat, m: nat)
    requires d < k
    ensures Pow2(k) * (2 * m + 1) % Pow2(d + 1) == 0
    ensures Pow2(k) * (2 * m + 1) / Pow2(d + 1) - 1 == LabelAt(k, d, m)
  {
    var a, b, n := Pow2(k - d - 1), Pow2(d + 1), 2 * m + 1;
    Pow2Sum(k - d - 1, d + 1);
    assert a * b * n == b * (a * n);
    DivideOut(b, a * n);
  }

  lemma LevelPrefix(k: nat, d: nat, m: nat)
    requires d < k && m < Pow2(d)
    ensures LevelOrder(k, d) + Level(k, d)[..m + 1] == LevelOrder(k, d) + Level(k, d)[..m] + [Bit(LabelAt(k, d, m))]
  {
    assert Level(k, d)[..m + 1] == Level(k, d)[..m] + [Bit(LabelAt(k, d, m))];
  }

  lemma LevelEnds(k: nat, d: nat, m: nat)
    requires d < k && m == Pow2(d)
    ensures LevelOrder(k, d) + Level(k, d)[..m] == LevelOrder(k, d + 1)
  {
    assert Level(k, d)[..m] == Level(k, d);
  }

  /** The two label loops of `control`, then the leaves. */
  method NodeLabels(k: nat) returns (nodes: seq<Label>)
    ensures nodes == Nodes(k)
  {
    var ways := Pow2(k);
    var numerator, denominator := 1, 2;
    nodes := [];
    ghost var d := 0;
    while denominator <= ways
      invariant d <= k && denominator == Pow2(d + 1) && numerator == 1
      invariant nodes == LevelOrder(k, d)
      decreases k - d
    {
      assert d < k by { Pow2Below(k, d); }
      ghost var m := 0;
      while numerator < denominator
        invariant 0 <= m <= Pow2(d) && numerator == 2 * m + 1
        invariant nodes == LevelOrder(k, d) + Level(k, d)[..m]
      {
        LabelQuotient(k, d, m);
        LevelPrefix(k, d, m);
        var number := ways * numerator / denominator - 1;
        assert number == LabelAt(k, d, m);
        nodes := nodes + [Bit(number)];
        numerator := numerator + 2;
        m := m + 1;
      }
      LevelEnds(k, d, m);
      numerator := 1;
      denominator := denominator * 2;
      d := d + 1;
    }
    if d < k { Pow2Grows(d + 1, k); }
    for i := 0 to ways
      invariant nodes == LevelOrder(k, k) + Leaves(i)
    {
      nodes := nodes + [Way(i)];
    }
  }

  /** Level and position of label v. */
  function Where(k: nat, v: nat): (nat, nat)
    requires v < Pow2(k) - 1
  {
    if v % 2 == 0 then (k - 1, v / 2) else Where(k - 1, v / 2)
  }

  /** Labels of the last level are even, the others odd. */
  lemma LabelParity(k: nat, d: nat, m: nat)
    requires d < k
    ensures d == k - 1 ==> LabelAt(k, d, m) == 2 * m
    ensures d < k - 1 ==> LabelAt(k, d, m) == 2 * LabelAt(k - 1, d, m) + 1
  {
  }

  /** The labels are a permutation of 0 .. 2^k - 2: each number labels exactly one position. */
  lemma {:induction false} LabelsArePermutation(k: nat, v: nat, d: nat, m: nat)
    requires v < Pow2(k) - 1
    ensures Where(k, v).0 < k && Where(k, v).1 < Pow2(Where(k, v).0)
    ensures d < k && m < Pow2(d) ==> (LabelAt(k, d, m) == v <==> Where(k, v) == (d, m))
  {
    if d < k {
      LabelParity(k, d, m);
    }
    if v % 2 == 1 {
      LabelsArePermutation(k - 1, v / 2, d, m);
    }
  }

  // ---- the level-order tree ----

  datatype BTree = Nil | BNode(value: Label, left: BTree, right: BTree)

  /** binarytree.build on a list without holes: children of entry i are entries 2i+1 and 2i+2. */
  function Build(nodes: seq<Label>, i: nat): BTree
    decreases |nodes| - i
  {
    if i >= |nodes| then Nil else BNode(nodes[i], Build(nodes, 2 * i + 1), Build(nodes, 2 * i + 2))
  }

  /** The tree over ways lo .. lo + 2^h - 1. */
  function Split(h: nat, lo: nat): BTree {
    if h == 0 then BNode(Way(lo), Nil, Nil)
    else BNode(Bit(lo + Pow2(h - 1) - 1), Split(h - 1, lo), Split(h - 1, lo + Pow2(h - 1)))
  }

  lemma {:induction false} LevelOrderEntry(k: nat, e: nat, d: nat, m: nat)
    requires d < e <= k && m < Pow2(d)
    ensures Pow2(d) - 1 + m < Pow2(e) - 1
    ensures LevelOrder(k, e)[Pow2(d) - 1 + m] == Bit(LabelAt(k, d, m))
  {
    if d < e - 1 {
      LevelOrderEntry(k, e - 1, d, m);
    }
  }

  lemma SubtreeRoot(k: nat, d: nat, m: nat)
    requires d < k
    ensures LabelAt(k, d, m) == m * Pow2(k - d) + Pow2(k - d - 1) - 1
    ensures (2 * m) * Pow2(k - d - 1) == m * Pow2(k - d)
    ensures (2 * m + 1) * Pow2(k - d - 1) == m * Pow2(k - d) + Pow2(k - d - 1)
  {
  }

  lemma NodeEntry(k: nat, d: nat, m: nat)
    requires d <= k && m < Pow2(d)
    ensures |Nodes(k)| == 2 * Pow2(k) - 1
    ensures Pow2(d) - 1 + m < |Nodes(k)|
    ensures Nodes(k)[Pow2(d) - 1 + m] == if d == k then Way(m) else Bit(LabelAt(k, d, m))
  {
    Pow2Grows(d, k);
    if d < k {
      LevelOrderEntry(k, k, d, m);
    }
  }

  lemma LeafHasNoChildren(k: nat, m: nat)
    requires m < Pow2(k)
    ensures Build(Nodes(k), Pow2(k) - 1 + m) == BNode(Way(m), Nil, Nil)
  {
  }

  lemma {:induction false} BuildAt(k: nat, d: nat, m: nat, i: nat, lo: nat)
    requires d <= k && m < Pow2(d) && i == Pow2(d) - 1 + m && lo == m * Pow2(k - d)
    ensures Build(Nodes(k), i) == Split(k - d, lo)
    decreases k - d
  {
    if d == k {
      LeafHasNoChildren(k, m);
    } else {
      var p := Pow2(k - d - 1);
      SubtreeRoot(k, d, m);
      BuildAt(k, d + 1, 2 * m, 2 * i + 1, lo);
      BuildAt(k, d + 1, 2 * m + 1, 2 * i + 2, lo + p);
      NodeEntry(k, d, m);
      BuildNode(Nodes(k), i, 2 * i + 1, 2 * i + 2);
      SplitNode(k - d, lo);
    }
  }

  /** The entry at level d, position m heads the tree over its 2^(k-d) ways. */
  lemma BuildIsSplit(k: nat, d: nat, m: nat)
    requires d <= k && m < Pow2(d)
    ensures Build(Nodes(k), Pow2(d) - 1 + m) == Split(k - d, m * Pow2(k - d))
  {
    BuildAt(k, d, m, Pow2(d) - 1 + m, m * Pow2(k - d));
  }

  lemma SplitNode(h: nat, lo: nat)
    requires h > 0
    ensures Split(h, lo) == BNode(Bit(lo + Pow2(h - 1) - 1), Split(h - 1, lo), Split(h - 1, lo + Pow2(h - 1)))
  {
  }

  lemma BuildNode(nodes: seq<Label>, i: nat, l: nat, r: nat)
    requires i < |nodes| && l == 2 * i + 1 && r == 2 * i + 2
    ensures Build(nodes, i) == BNode(nodes[i], Build(nodes, l), Build(nodes, r))
  {
  }

  function InOrder(t: BTree): seq<Label> {
    if t.Nil? then [] else InOrder(t.left) + [t.value] + InOrder(t.right)
  }

  /** Read in order the tree is way 0, bit 0, way 1, bit 1, ... : bits sorted between the leaves. */
  lemma {:induction false} InOrderSorted(h: nat, lo: nat)
    ensures |InOrder(Split(h, lo))| == 2 * Pow2(h) - 1
    ensures forall j :: 0 <= j < 2 * Pow2(h) - 1 ==>
              InOrder(Split(h, lo))[j] == if j % 2 == 0 then Way(lo + j / 2) else Bit(lo + j / 2)
  {
    if h > 0 {
      var half := Pow2(h - 1);
      InOrderSorted(h - 1, lo);
      InOrderSorted(h - 1, lo + half);
      forall j | 0 <= j < 2 * Pow2(h) - 1
        ensures InOrder(Split(h, lo))[j] == if j % 2 == 0 then Way(lo + j / 2) else Bit(lo + j / 2)
      {
        if j >= 2 * half {
          assert j / 2 == half + (j - 2 * half) / 2;
        }
      }
    }
  }

  function Height(t: BTree): nat {
    if t.Nil? || (t.left.Nil? && t.right.Nil?) then 0
    else 1 + (if Height(t.left) > Height(t.right) then Height(t.left) else Height(t.right))
  }

  lemma {:induction false} SplitHeight(h: nat, lo: nat)
    ensures Height(Split(h, lo)) == h
  {
    if h > 0 {
      SplitHeight(h - 1, lo);
      SplitHeight(h - 1, lo + Pow2(h - 1));
    }
  }
}
