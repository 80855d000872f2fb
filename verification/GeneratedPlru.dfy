/**
 The functions load_PLRU and which_replace that python/n_way_cache.py writes out from the leaf paths,
 for any number of ways 2^k, and what they guarantee as a replacement policy.  The 4-way functions of
 python/cache_cntrl_4.sv are the instance k = 2.

 In contracts, `P(x) == true` instead of `P(x)` keeps the verifier from unfolding P where it is only passed on.
 */
module GeneratedPlru {
  import opened Arithmetic
  import opened Plru
  import opened NWayPaths
  import CacheSpec

  type Bits = seq<bool>

  /** load_PLRU for one hit: assign the direction to every bit of the path. */
  function ApplyTurns(bits: Bits, turns: seq<Turn>): (r: Bits)
    requires forall i :: 0 <= i < |turns| ==> turns[i].bit < |bits|
    ensures |r| == |bits|
    decreases |turns|
  {
    if turns == [] then bits else ApplyTurns(bits[turns[0].bit := turns[0].right], turns[1..])
  }

  /** The nested conditions of which_replace, on temp_PLRU = ~PLRU. */
  predicate Selected(bits: Bits, turns: seq<Turn>)
    requires forall i :: 0 <= i < |turns| ==> turns[i].bit < |bits|
  {
    forall i :: 0 <= i < |turns| ==> !bits[turns[i].bit] == turns[i].right
  }

  /** Every path stays inside the register. */
  predicate Fits(paths: seq<seq<Turn>>, bits: Bits) {
    forall w, i :: 0 <= w < |paths| && 0 <= i < |paths[w]| ==> paths[w][i].bit < |bits|
  }

  /** The if-chain of which_replace over the first `n` ways; the way register keeps `latch` if none fires. */
  function WhichReplace(paths: seq<seq<Turn>>, bits: Bits, n: nat, latch: nat): nat
    requires n <= |paths| && Fits(paths, bits)
  {
    if n == 0 then latch
    else if Selected(bits, paths[n - 1]) then n - 1
    else WhichReplace(paths, bits, n - 1, latch)
  }

  lemma {:induction false} PathInRange(h: nat, lo: nat, w: nat)
    requires w < Pow2(h)
    ensures forall i :: 0 <= i < |Path(h, lo, w)| ==> lo <= Path(h, lo, w)[i].bit < lo + Pow2(h) - 1
  {
    if h > 0 {
      var half := Pow2(h - 1);
      if w < half {
        PathInRange(h - 1, lo, w);
      } else {
        PathInRange(h - 1, lo + half, w - half);
      }
    }
  }

  lemma PathsFit(k: nat, bits: Bits)
    requires |bits| == Pow2(k) - 1
    ensures Fits(AllPaths(k), bits)
  {
    forall w | 0 <= w < Pow2(k)
      ensures forall i :: 0 <= i < |Path(k, 0, w)| ==> Path(k, 0, w)[i].bit < |bits|
    {
      PathInRange(k, 0, w);
    }
  }

  // ---- flat bits against the tree ----

  /** Where the root bit and the two halves of a subtree sit in a larger register. */
  lemma Around(pre: Bits, l: Bits, b: bool, r: Bits, post: Bits, x: bool)
    ensures var bits := pre + (l + [b] + r) + post;
            && |pre| + |l| < |bits| && bits[|pre| + |l|] == b
            && bits[|pre| + |l| := x] == pre + (l + [x] + r) + post
    ensures pre + (l + [b] + r) + post == pre + l + ([b] + r + post)
    ensures pre + (l + [b] + r) + post == (pre + l + [b]) + r + post
  {
  }

  lemma TurnsCons(bits: Bits, first: Turn, rest: seq<Turn>)
    requires first.bit < |bits| && forall i :: 0 <= i < |rest| ==> rest[i].bit < |bits|
    ensures forall i :: 0 <= i < |[first] + rest| ==> ([first] + rest)[i].bit < |bits|
    ensures ApplyTurns(bits, [first] + rest) == ApplyTurns(bits[first.bit := first.right], rest)
  {
  }

  /** `bits` holds the subtree `t` after `pre`, and the turns of `w` stay inside it. */
  ghost predicate Placed(pre: Bits, t: Tree, post: Bits, h: nat, bits: Bits) {
    Perfect(t, h) && bits == pre + Flatten(t) + post && |Flatten(t)| == Pow2(h) - 1
  }

  /** One level down: the root bit, and how the halves are placed once it is set to `x`. */
  lemma PlacedHalves(pre: Bits, t: Tree, post: Bits, h: nat, bits: Bits, x: bool)
    requires Placed(pre, t, post, h, bits) && t.Node?
    ensures var root := |pre| + Pow2(h - 1) - 1;
            && root < |bits| && bits[root] == t.bit
            && Placed(pre, Node(x, t.left, t.right), post, h, bits[root := x])
            && Placed(pre, t.left, [x] + Flatten(t.right) + post, h - 1, bits[root := x])
            && Placed(pre + Flatten(t.left) + [x], t.right, post, h - 1, bits[root := x])
            && |pre + Flatten(t.left) + [x]| == |pre| + Pow2(h - 1)
  {
    FlattenLength(t.left, h - 1);
    FlattenLength(t.right, h - 1);
    Around(pre, Flatten(t.left), t.bit, Flatten(t.right), post, x);
    Around(pre, Flatten(t.left), x, Flatten(t.right), post, x);
  }

  lemma Rejoin(pre: Bits, b: bool, l: Tree, r: Tree, post: Bits, h: nat, bits: Bits)
    requires h > 0 && Perfect(l, h - 1) && Perfect(r, h - 1)
    requires Placed(pre, l, [b] + Flatten(r) + post, h - 1, bits) || Placed(pre + Flatten(l) + [b], r, post, h - 1, bits)
    ensures Placed(pre, Node(b, l, r), post, h, bits)
  {
    FlattenLength(Node(b, l, r), h);
    Around(pre, Flatten(l), b, Flatten(r), post, b);
  }

  /** Assigning along a path inside a larger register is touching the subtree in place. */
  lemma {:induction false} TurnsTouch(pre: Bits, t: Tree, post: Bits, h: nat, w: nat, bits: Bits)
    requires Placed(pre, t, post, h, bits) && w < Pow2(h)
    ensures forall i :: 0 <= i < |Path(h, |pre|, w)| ==> Path(h, |pre|, w)[i].bit < |bits|
    ensures Placed(pre, Touch(t, h, w), post, h, ApplyTurns(bits, Path(h, |pre|, w)))
    decreases h
  {
    if h > 0 {
      var root, right := |pre| + Pow2(h - 1) - 1, w >= Pow2(h - 1);
      var bits' := bits[root := right];
      PlacedHalves(pre, t, post, h, bits, right);
      if right {
        var rest := Path(h - 1, |pre| + Pow2(h - 1), w - Pow2(h - 1));
        var r' := Touch(t.right, h - 1, w - Pow2(h - 1));
        TurnsTouch(pre + Flatten(t.left) + [true], t.right, post, h - 1, w - Pow2(h - 1), bits');
        assert Path(h, |pre|, w) == [Turn(root, true)] + rest;
        TurnsCons(bits, Turn(root, true), rest);
        Rejoin(pre, true, t.left, r', post, h, ApplyTurns(bits', rest));
      } else {
        var rest := Path(h - 1, |pre|, w);
        var l' := Touch(t.left, h - 1, w);
        TurnsTouch(pre, t.left, [false] + Flatten(t.right) + post, h - 1, w, bits');
        assert Path(h, |pre|, w) == [Turn(root, false)] + rest;
        TurnsCons(bits, Turn(root, false), rest);
        Rejoin(pre, false, l', t.right, post, h, ApplyTurns(bits', rest));
      }
    }
  }

  /** Both halves are placed in the register as it is. */
  lemma HalvesPlaced(pre: Bits, t: Tree, post: Bits, h: nat, bits: Bits) returns (after: Bits, before: Bits)
    requires Placed(pre, t, post, h, bits) && t.Node?
    ensures var root := |pre| + Pow2(h - 1) - 1; root < |bits| && bits[root] == t.bit
    ensures Placed(pre, t.left, after, h - 1, bits) == true
    ensures Placed(before, t.right, post, h - 1, bits) == true && |before| == |pre| + Pow2(h - 1)
  {
    var root := |pre| + Pow2(h - 1) - 1;
    PlacedHalves(pre, t, post, h, bits, t.bit);
    assert bits[root := t.bit] == bits;
    after, before := [t.bit] + Flatten(t.right) + post, pre + Flatten(t.left) + [t.bit];
  }

  predicate InRegister(bits: Bits, turns: seq<Turn>) { forall i :: 0 <= i < |turns| ==> turns[i].bit < |bits| }

  /** The conditions of path `turns` hold exactly if the walk from `t` ends at way `w`. */
  predicate SelectsWay(bits: Bits, turns: seq<Turn>, t: Tree, h: nat, w: nat)
    requires Perfect(t, h)
  {
    InRegister(bits, turns) && (Selected(bits, turns) <==> Victim(t, h) == w)
  }

  lemma SelectsLeaf(bits: Bits, lo: nat, t: Tree, w: nat)
    requires Perfect(t, 0) && w < Pow2(0)
    ensures SelectsWay(bits, Path(0, lo, w), t, 0, w) == true
  {
  }

  lemma SelectsLeft(bits: Bits, lo: nat, t: Tree, h: nat, w: nat)
    requires h > 0 && Perfect(t, h) && w < Pow2(h - 1)
    requires var root := lo + Pow2(h - 1) - 1; root < |bits| && bits[root] == t.bit
    requires SelectsWay(bits, Path(h - 1, lo, w), t.left, h - 1, w)
    ensures SelectsWay(bits, Path(h, lo, w), t, h, w) == true
  {
    PathNode(h, lo, w);
    SelectedCons(bits, Turn(lo + Pow2(h - 1) - 1, false), Path(h - 1, lo, w));
  }

  lemma SelectsRight(bits: Bits, lo: nat, t: Tree, h: nat, w: nat)
    requires h > 0 && Perfect(t, h) && Pow2(h - 1) <= w < Pow2(h)
    requires var root := lo + Pow2(h - 1) - 1; root < |bits| && bits[root] == t.bit
    requires SelectsWay(bits, Path(h - 1, lo + Pow2(h - 1), w - Pow2(h - 1)), t.right, h - 1, w - Pow2(h - 1))
    ensures SelectsWay(bits, Path(h, lo, w), t, h, w) == true
  {
    PathNode(h, lo, w);
    SelectedCons(bits, Turn(lo + Pow2(h - 1) - 1, true), Path(h - 1, lo + Pow2(h - 1), w - Pow2(h - 1)));
  }

  /** A path is selected exactly for the victim. */
  lemma {:induction false} SelectedIsVictim(pre: Bits, t: Tree, post: Bits, h: nat, lo: nat, w: nat, bits: Bits)
    requires Placed(pre, t, post, h, bits) == true && Perfect(t, h) == true && w < Pow2(h) && lo == |pre|
    ensures SelectsWay(bits, Path(h, lo, w), t, h, w) == true
    decreases h
  {
    if h == 0 {
      SelectsLeaf(bits, lo, t, w);
    } else {
      var half := Pow2(h - 1);
      var after, before := HalvesPlaced(pre, t, post, h, bits);
      if w >= half {
        SelectedIsVictim(before, t.right, post, h - 1, lo + half, w - half, bits);
        SelectsRight(bits, lo, t, h, w);
      } else {
        SelectedIsVictim(pre, t.left, after, h - 1, lo, w, bits);
        SelectsLeft(bits, lo, t, h, w);
      }
    }
  }

  lemma WholeRegister(k: nat, t: Tree, w: nat)
    requires Perfect(t, k) && w < Pow2(k)
    ensures forall i :: 0 <= i < |Path(k, 0, w)| ==> Path(k, 0, w)[i].bit < |Flatten(t)|
    ensures Selected(Flatten(t), Path(k, 0, w)) <==> Victim(t, k) == w
    ensures ApplyTurns(Flatten(t), Path(k, 0, w)) == Flatten(Touch(t, k, w))
  {
    var bits, after := Flatten(t), Touch(t, k, w);
    FlattenLength(t, k);
    NothingAround(bits);
    assert Placed([], t, [], k, bits);
    TurnsTouch([], t, [], k, w, bits);
    SelectedIsVictim([], t, [], k, 0, w, bits);
    NothingAround(Flatten(after));
  }

  lemma NothingAround(bits: Bits)
    ensures [] + bits + [] == bits
  {
  }

  lemma SelectedCons(bits: Bits, first: Turn, rest: seq<Turn>)
    requires first.bit < |bits| && forall i :: 0 <= i < |rest| ==> rest[i].bit < |bits|
    ensures forall i :: 0 <= i < |[first] + rest| ==> ([first] + rest)[i].bit < |bits|
    ensures Selected(bits, [first] + rest) <==> !bits[first.bit] == first.right && Selected(bits, rest)
  {
    var all := [first] + rest;
    assert forall i :: 0 <= i < |rest| ==> all[i + 1] == rest[i];
    if Selected(bits, all) {
      forall i | 0 <= i < |rest|
        ensures !bits[rest[i].bit] == rest[i].right
      {
        assert all[i + 1] == rest[i];
      }
      assert all[0] == first;
    }
  }

  // ---- the generated policy ----

  function Replace(k: nat, bits: Bits): (w: nat)
    requires |bits| == Pow2(k) - 1
  {
    PathsFit(k, bits);
    WhichReplace(AllPaths(k), bits, Pow2(k), 0)
  }

  function Load(k: nat, bits: Bits, w: nat): (r: Bits)
    requires |bits| == Pow2(k) - 1 && w < Pow2(k)
    ensures |r| == |bits|
  {
    PathInRange(k, 0, w);
    ApplyTurns(bits, Path(k, 0, w))
  }

  lemma LoadIsTouch(k: nat, t: Tree, w: nat)
    requires Perfect(t, k) && w < Pow2(k) && |Flatten(t)| == Pow2(k) - 1
    ensures Load(k, Flatten(t), w) == Flatten(Touch(t, k, w))
  {
    WholeRegister(k, t, w);
  }

  lemma {:induction false} ReplaceSearch(k: nat, t: Tree, n: nat, latch: nat)
    requires Perfect(t, k) && n <= Pow2(k) && Fits(AllPaths(k), Flatten(t))
    ensures WhichReplace(AllPaths(k), Flatten(t), n, latch) == if Victim(t, k) < n then Victim(t, k) else latch
  {
    if n > 0 {
      assert AllPaths(k)[n - 1] == Path(k, 0, n - 1);
      WholeRegister(k, t, n - 1);
      ReplaceSearch(k, t, n - 1, latch);
    }
  }

  /** Exactly one condition of the chain fires, the victim's, whatever the register held. */
  lemma ReplaceIsVictim(k: nat, t: Tree)
    requires Perfect(t, k) && |Flatten(t)| == Pow2(k) - 1
    ensures Replace(k, Flatten(t)) == Victim(t, k)
  {
    PathsFit(k, Flatten(t));
    ReplaceSearch(k, t, Pow2(k), 0);
  }

  lemma ReplaceInRange(k: nat, bits: Bits)
    requires |bits| == Pow2(k) - 1
    ensures Replace(k, bits) < Pow2(k)
  {
    FlattenUnflatten(bits, k);
    ReplaceIsVictim(k, Unflatten(bits, k));
  }

  /** The register after `n` rounds of replacing the victim. */
  function Rounds(k: nat, bits: Bits, n: nat): (r: Bits)
    requires |bits| == Pow2(k) - 1
    ensures |r| == |bits|
  {
    if n == 0 then bits else
      var r := Rounds(k, bits, n - 1);
      ReplaceInRange(k, r);
      Load(k, r, Replace(k, r))
  }

  lemma {:induction false} RoundsAreAfter(k: nat, t: Tree, n: nat)
    requires Perfect(t, k) && |Flatten(t)| == Pow2(k) - 1
    ensures Rounds(k, Flatten(t), n) == Flatten(After(t, k, n))
  {
    if n > 0 {
      RoundsAreAfter(k, t, n - 1);
      FlattenLength(After(t, k, n - 1), k);
      ReplaceIsVictim(k, After(t, k, n - 1));
      LoadIsTouch(k, After(t, k, n - 1), Victim(After(t, k, n - 1), k));
    }
  }

  /** From any register, 2^k replacements pick each way in exactly one round and restore the register. */
  lemma RoundRobin(k: nat, bits: Bits)
    requires |bits| == Pow2(k) - 1
    ensures forall n: nat, w: nat :: n < Pow2(k) && w < Pow2(k) ==>
              (Replace(k, Rounds(k, bits, n)) == w <==> n == RoundOf(Unflatten(bits, k), k, w))
    ensures Rounds(k, bits, Pow2(k)) == bits
  {
    var t := Unflatten(bits, k);
    FlattenUnflatten(bits, k);
    forall n: nat, w: nat | n < Pow2(k) && w < Pow2(k)
      ensures Replace(k, Rounds(k, bits, n)) == w <==> n == RoundOf(t, k, w)
    {
      RoundsAreAfter(k, t, n);
      FlattenLength(After(t, k, n), k);
      ReplaceIsVictim(k, After(t, k, n));
      EachWayOnce(t, k, n, w);
    }
    RoundsAreAfter(k, t, Pow2(k));
    RoundsReturn(t, k);
  }

  function LoadAll(k: nat, bits: Bits, ws: seq<nat>): (r: Bits)
    requires |bits| == Pow2(k) - 1 && forall i :: 0 <= i < |ws| ==> ws[i] < Pow2(k)
    ensures |r| == |bits|
    decreases |ws|
  {
    if ws == [] then bits else LoadAll(k, Load(k, bits, ws[0]), ws[1..])
  }

  lemma {:induction false} LoadAllIsTouchAll(k: nat, t: Tree, ws: seq<nat>)
    requires Perfect(t, k) && |Flatten(t)| == Pow2(k) - 1 && forall i :: 0 <= i < |ws| ==> ws[i] < Pow2(k)
    ensures LoadAll(k, Flatten(t), ws) == Flatten(TouchAll(t, k, ws))
    decreases |ws|
  {
    if ws != [] {
      LoadIsTouch(k, t, ws[0]);
      LoadAllIsTouchAll(k, Touch(t, k, ws[0]), ws[1..]);
    }
  }

  /** After a hit on `w`, no fewer than k hits on other ways can make `w` the way to replace ... */
  lemma HitProtects(k: nat, bits: Bits, w: nat, ws: seq<nat>)
    requires |bits| == Pow2(k) - 1 && w < Pow2(k) && forall i :: 0 <= i < |ws| ==> ws[i] < Pow2(k)
    requires Replace(k, LoadAll(k, Load(k, bits, w), ws)) == w
    ensures Others(ws, w) >= k
  {
    var t := Unflatten(bits, k);
    FlattenUnflatten(bits, k);
    LoadIsTouch(k, t, w);
    LoadAllIsTouchAll(k, Touch(t, k, w), ws);
    ReplaceIsVictim(k, TouchAll(Touch(t, k, w), k, ws));
    Survives(t, k, w, ws);
  }

  /** ... and k well-chosen ones always do. */
  lemma ProtectionIsTight(k: nat, bits: Bits, w: nat)
    requires |bits| == Pow2(k) - 1 && w < Pow2(k)
    ensures |DeepestFirst(k, w)| == k && w !in DeepestFirst(k, w)
    ensures Replace(k, LoadAll(k, Load(k, bits, w), DeepestFirst(k, w))) == w
  {
    var t := Unflatten(bits, k);
    FlattenUnflatten(bits, k);
    LoadIsTouch(k, t, w);
    LoadAllIsTouchAll(k, Touch(t, k, w), DeepestFirst(k, w));
    ReplaceIsVictim(k, TouchAll(Touch(t, k, w), k, DeepestFirst(k, w)));
    DeepestFirstEvicts(Touch(t, k, w), k, w);
  }

  /** The three bits of a 4-way set as a tree: bit 1 at the root, bits 0 and 2 below. */
  function FourWayTree(p: CacheSpec.PlruBits): (t: Tree)
    ensures Perfect(t, 2)
  {
    var t := Node(p[1], Node(p[0], Leaf, Leaf), Node(p[2], Leaf, Leaf));
    assert Perfect(t.left, 1) && Perfect(t.right, 1);
    t
  }

  lemma FourWayFlat(p: CacheSpec.PlruBits)
    ensures Pow2(1) == 2 && Pow2(2) == 4
    ensures Flatten(FourWayTree(p)) == p
  {
    var t := FourWayTree(p);
    assert Flatten(t.left) == [p[0]] && Flatten(t.right) == [p[2]];
    assert Pow2(1) == 2;
  }

  /** The functions of the 4-way controller are the generated ones. */
  lemma FourWayReplace(p: CacheSpec.PlruBits)
    ensures Pow2(2) == 4 && Replace(2, p) == CacheSpec.Victim(p)
  {
    var t := FourWayTree(p);
    FourWayFlat(p);
    assert Victim(t.left, 1) == (if p[0] then 0 else 1) && Victim(t.right, 1) == (if p[2] then 0 else 1);
    ReplaceIsVictim(2, t);
  }

  lemma FourWayLoad(p: CacheSpec.PlruBits, w: CacheSpec.WayNo)
    ensures Pow2(2) == 4 && Load(2, p, w) == CacheSpec.Touch(p, w)
  {
    var t := FourWayTree(p);
    FourWayFlat(p);
    FourWayFlat(CacheSpec.Touch(p, w));
    assert Touch(t.left, 1, w % 2) == Node(w % 2 == 1, Leaf, Leaf);
    assert Touch(t.right, 1, w % 2) == Node(w % 2 == 1, Leaf, Leaf);
    assert Touch(t, 2, w) == FourWayTree(CacheSpec.Touch(p, w));
    LoadIsTouch(2, t, w);
  }
}
