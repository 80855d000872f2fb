/**
 Tree pseudo-LRU over 2^k ways: the victim is found by walking away from every stored direction,
 an access points the bits on its path at the way accessed.  `false` stands for left, as in the
 generated code; way numbers are relative to the subtree.

 In contracts, `P(x) == true` instead of `P(x)` keeps the verifier from unfolding P where it is only passed on.
 */
module Plru {
  import opened Arithmetic

  datatype Tree = Leaf | Node(bit: bool, left: Tree, right: Tree)

  predicate Perfect(t: Tree, k: nat) {
    match t
    case Leaf => k == 0
    case Node(_, l, r) => k > 0 && Perfect(l, k - 1) && Perfect(r, k - 1)
  }

  function Victim(t: Tree, k: nat): (w: nat)
    requires Perfect(t, k)
    ensures w < Pow2(k)
  {
    match t
    case Leaf => 0
    case Node(b, l, r) => if b then Victim(l, k - 1) else Pow2(k - 1) + Victim(r, k - 1)
  }

  function Touch(t: Tree, k: nat, w: nat): (t': Tree)
    requires Perfect(t, k) && w < Pow2(k)
    ensures Perfect(t', k)
  {
    match t
    case Leaf => Leaf
    case Node(_, l, r) =>
      var half := Pow2(k - 1);
      if w < half then Node(false, Touch(l, k - 1, w), r) else Node(true, l, Touch(r, k - 1, w - half))
  }

  // ---- round robin: replacing the victim over and over ----

  /** The tree after `n` rounds of "choose the victim, then mark it used". */
  function After(t: Tree, k: nat, n: nat): (t': Tree)
    requires Perfect(t, k)
    ensures Perfect(t', k)
  {
    if n == 0 then t else
      var t' := After(t, k, n - 1);
      Touch(t', k, Victim(t', k))
  }

  /** Of the first `n` rounds, how many fall into the half that goes first, and into the other. */
  function FirstShare(n: nat): nat { (n + 1) / 2 }

  function SecondShare(n: nat): nat { n / 2 }

  function LeftShare(b: bool, n: nat): nat { if b then FirstShare(n) else SecondShare(n) }

  lemma ShareStep(b: bool, n: nat)
    requires n > 0
    ensures var left := b == ((n - 1) % 2 == 0);
            && LeftShare(b, n) == LeftShare(b, n - 1) + (if left then 1 else 0)
            && LeftShare(!b, n) == LeftShare(!b, n - 1) + (if left then 0 else 1)
            && left == !(b == (n % 2 == 0))
  {
  }

  /** The halves take turns, so `n` rounds on a tree are about n/2 rounds on each half. */
  lemma {:induction false} AfterHalves(b: bool, l: Tree, r: Tree, k: nat, n: nat)
    requires k > 0 && Perfect(l, k - 1) && Perfect(r, k - 1)
    ensures After(Node(b, l, r), k, n) ==
              Node(b == (n % 2 == 0), After(l, k - 1, LeftShare(b, n)), After(r, k - 1, LeftShare(!b, n)))
  {
    if n > 0 {
      ShareStep(b, n);
      AfterHalves(b, l, r, k, n - 1);
    }
  }

  /** Round `n` belongs to the left half exactly if the root bit then says so, and is its round n/2. */
  lemma RoundOfHalf(b: bool, n: nat)
    ensures b == (n % 2 == 0) ==> LeftShare(b, n) == n / 2
    ensures b != (n % 2 == 0) ==> LeftShare(!b, n) == n / 2
  {
  }

  /** The round in which way `w` is chosen. */
  function RoundOf(t: Tree, k: nat, w: nat): (n: nat)
    requires Perfect(t, k) && w < Pow2(k)
    ensures n < Pow2(k)
  {
    match t
    case Leaf => 0
    case Node(b, l, r) =>
      var half := Pow2(k - 1);
      if w < half then 2 * RoundOf(l, k - 1, w) + (if b then 0 else 1)
      else 2 * RoundOf(r, k - 1, w - half) + (if b then 1 else 0)
  }

  lemma Halve(n: nat, m: nat, b: bool)
    ensures n == 2 * m + (if b then 0 else 1) <==> b == (n % 2 == 0) && n / 2 == m
  {
  }

  /** Round n on a tree is round n/2 on the half whose turn it is. */
  lemma VictimOfHalf(b: bool, l: Tree, r: Tree, k: nat, n: nat)
    requires k > 0 && Perfect(l, k - 1) && Perfect(r, k - 1)
    ensures Victim(After(Node(b, l, r), k, n), k) ==
            if b == (n % 2 == 0) then Victim(After(l, k - 1, n / 2), k - 1)
            else Pow2(k - 1) + Victim(After(r, k - 1, n / 2), k - 1)
  {
    AfterHalves(b, l, r, k, n);
    RoundOfHalf(b, n);
  }

  /** In 2^k rounds every way is chosen in exactly one of them. */
  lemma {:induction false} EachWayOnce(t: Tree, k: nat, n: nat, w: nat)
    requires Perfect(t, k) && n < Pow2(k) && w < Pow2(k)
    ensures Victim(After(t, k, n), k) == w <==> n == RoundOf(t, k, w)
  {
    match t {
      case Leaf =>
      case Node(b, l, r) =>
        var half := Pow2(k - 1);
        VictimOfHalf(b, l, r, k, n);
        assert n / 2 < half;
        if w < half {
          Halve(n, RoundOf(l, k - 1, w), b);
          EachWayOnce(l, k - 1, n / 2, w);
        } else {
          Halve(n, RoundOf(r, k - 1, w - half), !b);
          EachWayOnce(r, k - 1, n / 2, w - half);
        }
    }
  }

  /** After 2^k rounds the bits are back where they started. */
  lemma {:induction false} RoundsReturn(t: Tree, k: nat)
    requires Perfect(t, k)
    ensures After(t, k, Pow2(k)) == t
  {
    match t {
      case Leaf =>
        assert After(t, 0, 1) == Leaf;
      case Node(b, l, r) =>
        AfterHalves(b, l, r, k, Pow2(k));
        RoundsReturn(l, k - 1);
        RoundsReturn(r, k - 1);
    }
  }

  // ---- how long an accessed way is safe ----

  function TouchAll(t: Tree, k: nat, ws: seq<nat>): (t': Tree)
    requires Perfect(t, k) && forall i :: 0 <= i < |ws| ==> ws[i] < Pow2(k)
    ensures Perfect(t', k)
    decreases |ws|
  {
    if ws == [] then t else TouchAll(Touch(t, k, ws[0]), k, ws[1..])
  }

  /** Bits on the path of `w` that would send the victim walk towards it. */
  function Exposure(t: Tree, k: nat, w: nat): (n: nat)
    requires Perfect(t, k) && w < Pow2(k)
    ensures n <= k
  {
    match t
    case Leaf => 0
    case Node(b, l, r) =>
      var half := Pow2(k - 1);
      if w < half then (if b then 1 else 0) + Exposure(l, k - 1, w)
      else (if b then 0 else 1) + Exposure(r, k - 1, w - half)
  }

  lemma {:induction false} VictimIsFullyExposed(t: Tree, k: nat, w: nat)
    requires Perfect(t, k) && w < Pow2(k)
    ensures Victim(t, k) == w <==> Exposure(t, k, w) == k
  {
    match t {
      case Leaf =>
      case Node(b, l, r) =>
        var half := Pow2(k - 1);
        if w < half {
          VictimIsFullyExposed(l, k - 1, w);
        } else {
          VictimIsFullyExposed(r, k - 1, w - half);
        }
    }
  }

  /** An access protects its own way completely and exposes any other by at most one bit. */
  lemma {:induction false} TouchExposes(t: Tree, k: nat, x: nat, w: nat)
    requires Perfect(t, k) && x < Pow2(k) && w < Pow2(k)
    ensures x == w ==> Exposure(Touch(t, k, x), k, w) == 0
    ensures Exposure(Touch(t, k, x), k, w) <= Exposure(t, k, w) + 1
  {
    match t {
      case Leaf =>
      case Node(b, l, r) =>
        var half := Pow2(k - 1);
        if x < half && w < half {
          TouchExposes(l, k - 1, x, w);
        } else if x >= half && w >= half {
          TouchExposes(r, k - 1, x - half, w - half);
        }
    }
  }

  function Others(ws: seq<nat>, w: nat): nat {
    if ws == [] then 0 else (if ws[0] == w then 0 else 1) + Others(ws[1..], w)
  }

  lemma {:induction false} AccessesExpose(t: Tree, k: nat, w: nat, ws: seq<nat>)
    requires Perfect(t, k) && w < Pow2(k)
    requires forall i :: 0 <= i < |ws| ==> ws[i] < Pow2(k)
    ensures Exposure(TouchAll(t, k, ws), k, w) <= Exposure(t, k, w) + Others(ws, w)
    decreases |ws|
  {
    if ws != [] {
      TouchExposes(t, k, ws[0], w);
      AccessesExpose(Touch(t, k, ws[0]), k, w, ws[1..]);
    }
  }

  /** A way just accessed is not the victim before k accesses to other ways. */
  lemma Survives(t: Tree, k: nat, w: nat, ws: seq<nat>)
    requires Perfect(t, k) && w < Pow2(k)
    requires forall i :: 0 <= i < |ws| ==> ws[i] < Pow2(k)
    requires Victim(TouchAll(Touch(t, k, w), k, ws), k) == w
    ensures Others(ws, w) >= k
  {
    TouchExposes(t, k, w, w);
    AccessesExpose(Touch(t, k, w), k, w, ws);
    VictimIsFullyExposed(TouchAll(Touch(t, k, w), k, ws), k, w);
  }

  function Shifted(ws: seq<nat>, d: nat): (r: seq<nat>)
    ensures |r| == |ws| && forall i :: 0 <= i < |ws| ==> r[i] == ws[i] + d
  {
    seq(|ws|, i requires 0 <= i < |ws| => ws[i] + d)
  }

  /** One access beside each branching on the way down to `w`, deepest branching first. */
  function DeepestFirst(k: nat, w: nat): (ws: seq<nat>)
    requires w < Pow2(k)
    ensures |ws| == k && forall i :: 0 <= i < k ==> ws[i] < Pow2(k) && ws[i] != w
  {
    if k == 0 then []
    else
      var half := Pow2(k - 1);
      if w < half then DeepestFirst(k - 1, w) + [half]
      else
        Shifted(DeepestFirst(k - 1, w - half), half) + [0]
  }

  lemma {:induction false} TouchAllAppend(t: Tree, k: nat, ws: seq<nat>, x: nat)
    requires Perfect(t, k) && x < Pow2(k) && forall i :: 0 <= i < |ws| ==> ws[i] < Pow2(k)
    ensures TouchAll(t, k, ws + [x]) == Touch(TouchAll(t, k, ws), k, x)
    decreases |ws|
  {
    if ws == [] {
      assert ([] + [x])[1..] == [];
    } else {
      assert (ws + [x])[1..] == ws[1..] + [x];
      TouchAllAppend(Touch(t, k, ws[0]), k, ws[1..], x);
    }
  }

  /** Accesses that all stay left (right) only touch the left (right) subtree. */
  lemma {:induction false} TouchAllLeft(b: bool, l: Tree, r: Tree, k: nat, ws: seq<nat>)
    requires k > 0 && Perfect(l, k - 1) && Perfect(r, k - 1)
    requires forall i :: 0 <= i < |ws| ==> ws[i] < Pow2(k - 1)
    ensures TouchAll(Node(b, l, r), k, ws) == Node(b && ws == [], TouchAll(l, k - 1, ws), r)
    decreases |ws|
  {
    if ws != [] {
      TouchAllLeft(false, Touch(l, k - 1, ws[0]), r, k, ws[1..]);
    }
  }

  lemma {:induction false} TouchAllRight(b: bool, l: Tree, r: Tree, k: nat, ws: seq<nat>, below: seq<nat>)
    requires k > 0 && Perfect(l, k - 1) && Perfect(r, k - 1) && |ws| == |below|
    requires forall i :: 0 <= i < |ws| ==> below[i] < Pow2(k - 1) && ws[i] == below[i] + Pow2(k - 1)
    ensures TouchAll(Node(b, l, r), k, ws) == Node(b || ws != [], l, TouchAll(r, k - 1, below))
    decreases |ws|
  {
    if ws != [] {
      TouchAllRight(true, l, Touch(r, k - 1, below[0]), k, ws[1..], below[1..]);
    }
  }

  /** The bound of `Survives` is tight: these k other accesses make `w` the victim, whatever the bits were. */
  lemma {:induction false} DeepestFirstEvicts(t: Tree, k: nat, w: nat)
    requires Perfect(t, k) && w < Pow2(k)
    ensures Victim(TouchAll(t, k, DeepestFirst(k, w)), k) == w
  {
    if t.Node? {
      var half := Pow2(k - 1);
      if w < half {
        var ws := DeepestFirst(k - 1, w);
        DeepestFirstEvicts(t.left, k - 1, w);
        EvictsLeft(t, k, ws, w);
        assert DeepestFirst(k, w) == ws + [half];
      } else {
        var ws := DeepestFirst(k - 1, w - half);
        DeepestFirstEvicts(t.right, k - 1, w - half);
        EvictsRight(t, k, ws, w - half);
        assert DeepestFirst(k, w) == Shifted(ws, half) + [0];
      }
    }
  }

  lemma EvictsLeft(t: Tree, k: nat, ws: seq<nat>, w: nat)
    requires Perfect(t, k) && t.Node? && w < Pow2(k - 1)
    requires forall i :: 0 <= i < |ws| ==> ws[i] < Pow2(k - 1)
    requires Victim(TouchAll(t.left, k - 1, ws), k - 1) == w
    ensures Victim(TouchAll(t, k, ws + [Pow2(k - 1)]), k) == w
  {
    assert forall i :: 0 <= i < |ws| ==> ws[i] < Pow2(k);
    TouchAllAppend(t, k, ws, Pow2(k - 1));
    TouchAllLeft(t.bit, t.left, t.right, k, ws);
  }

  lemma EvictsRight(t: Tree, k: nat, ws: seq<nat>, w: nat)
    requires Perfect(t, k) && t.Node? && w < Pow2(k - 1)
    requires forall i :: 0 <= i < |ws| ==> ws[i] < Pow2(k - 1)
    requires Victim(TouchAll(t.right, k - 1, ws), k - 1) == w
    ensures Victim(TouchAll(t, k, Shifted(ws, Pow2(k - 1)) + [0]), k) == Pow2(k - 1) + w
  {
    var above := Shifted(ws, Pow2(k - 1));
    TouchAllAppend(t, k, above, 0);
    TouchAllRight(t.bit, t.left, t.right, k, above, ws);
  }

  // ---- the bits in one register, numbered in order ----

  /** In-order: the root of a subtree of 2^k ways starting at way `lo` is bit lo + 2^(k-1) - 1. */
  function Flatten(t: Tree): seq<bool> {
    match t
    case Leaf => []
    case Node(b, l, r) => Flatten(l) + [b] + Flatten(r)
  }

  function Unflatten(bits: seq<bool>, k: nat): (t: Tree)
    requires |bits| == Pow2(k) - 1
    ensures Perfect(t, k)
  {
    if k == 0 then Leaf
    else
      var half := Pow2(k - 1);
      Node(bits[half - 1], Unflatten(bits[..half - 1], k - 1), Unflatten(bits[half..], k - 1))
  }

  lemma {:induction false} FlattenLength(t: Tree, k: nat)
    requires Perfect(t, k)
    ensures |Flatten(t)| == Pow2(k) - 1
  {
    if t.Node? {
      FlattenLength(t.left, k - 1);
      FlattenLength(t.right, k - 1);
    }
  }

  lemma CutInHalves(bits: seq<bool>, half: nat)
    requires |bits| == 2 * half - 1
    ensures bits == bits[..half - 1] + [bits[half - 1]] + bits[half..]
    ensures |bits[..half - 1]| == half - 1 && |bits[half..]| == half - 1
  {
  }

  lemma UnflattenNode(bits: seq<bool>, k: nat, half: nat)
    requires k > 0 && half == Pow2(k - 1) && |bits| == Pow2(k) - 1
    ensures Unflatten(bits, k) ==
            Node(bits[half - 1], Unflatten(bits[..half - 1], k - 1), Unflatten(bits[half..], k - 1))
  {
  }

  lemma FlattenNode(b: bool, l: Tree, r: Tree)
    ensures Flatten(Node(b, l, r)) == Flatten(l) + [b] + Flatten(r)
  {
  }

  predicate RoundTrip(bits: seq<bool>, k: nat)
    requires |bits| == Pow2(k) - 1
  {
    Flatten(Unflatten(bits, k)) == bits
  }

  lemma RoundTripNode(bits: seq<bool>, k: nat, half: nat)
    requires k > 0 && half == Pow2(k - 1) && |bits| == Pow2(k) - 1
    requires RoundTrip(bits[..half - 1], k - 1) && RoundTrip(bits[half..], k - 1)
    ensures RoundTrip(bits, k) == true
  {
    var l, b, r := bits[..half - 1], bits[half - 1], bits[half..];
    CutInHalves(bits, half);
    UnflattenNode(bits, k, half);
    FlattenNode(b, Unflatten(l, k - 1), Unflatten(r, k - 1));
  }

  lemma {:induction false} FlattenUnflatten(bits: seq<bool>, k: nat)
    requires |bits| == Pow2(k) - 1
    ensures RoundTrip(bits, k)
  {
    if k > 0 {
      var half := Pow2(k - 1);
      FlattenUnflatten(bits[..half - 1], k - 1);
      FlattenUnflatten(bits[half..], k - 1);
      RoundTripNode(bits, k, half);
    }
  }
}
