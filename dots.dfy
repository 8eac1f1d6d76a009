/**
 * The face of a die: which of the nine dot positions, laid out three by
 * three and numbered row by row from the top left, show a dot for a value.
 */
module Dots {
  /** `dotPositions`: position `k` of the face is row `k / 3`, column `k % 3`, as (row, column). */
  const Positions: seq<(int, int)> := [
    (0, 0), (0, 1), (0, 2),
    (1, 0), (1, 1), (1, 2),
    (2, 0), (2, 1), (2, 2)
  ]

  /** The centre of the face. */
  const Centre: int := 4

  /**
   * `getDotPattern(v)`: the positions showing a dot. A value from 1 to 6 shows
   * that many dots, at valid positions listed in increasing order, with the
   * centre dot exactly for the odd values, and the face looks the same turned
   * by half a turn; any other value shows no dot.
   */
  function DotPattern(v: int): (p: seq<int>)
    ensures 1 <= v <= 6 ==> |p| == v
    ensures !(1 <= v <= 6) ==> p == []
    ensures forall i :: 0 <= i < |p| ==> 0 <= p[i] < |Positions|
    ensures forall i, j :: 0 <= i < j < |p| ==> p[i] < p[j]
    ensures 1 <= v <= 6 ==> (Centre in p <==> v % 2 == 1)
    ensures forall i :: 0 <= i < |p| ==> 8 - p[i] in p
  {
    if v == 1 then [4]
    else if v == 2 then [0, 8]
    else if v == 3 then [0, 4, 8]
    else if v == 4 then [0, 2, 6, 8]
    else if v == 5 then [0, 2, 4, 6, 8]
    else if v == 6 then [0, 1, 2, 6, 7, 8]
    else []
  }

  /** Position `8 - k` is position `k` turned by half a turn about the centre. */
  lemma HalfTurn(k: int)
    requires 0 <= k < |Positions|
    ensures Positions[k] == (k / 3, k % 3)
    ensures Positions[8 - k] == (2 - Positions[k].0, 2 - Positions[k].1)
  {
  }

  /** The render: for each of the nine positions, whether it shows a dot. */
  function Lit(v: int): (lit: seq<bool>)
    ensures |lit| == |Positions|
    ensures forall k :: 0 <= k < |lit| ==> (lit[k] <==> k in DotPattern(v))
  {
    LitBelow(DotPattern(v), |Positions|)
  }

  /** For each of the first `n` positions, whether it is in `p`. */
  function LitBelow(p: seq<int>, n: nat): (lit: seq<bool>)
    ensures |lit| == n
    ensures forall k :: 0 <= k < n ==> (lit[k] <==> k in p)
  {
    seq(n, k => k in p)
  }

  /** The number of `true` entries. */
  function Count(bs: seq<bool>): (n: nat)
    ensures n <= |bs|
  {
    if bs == [] then 0 else Count(bs[..|bs| - 1]) + (if bs[|bs| - 1] then 1 else 0)
  }

  /** The entries of `p` in `[from, to)`, in order. */
  function Filtered(p: seq<int>, from: int, to: int): (f: seq<int>)
    ensures |f| <= |p|
    ensures to <= from ==> f == []
    ensures forall x :: x in f <==> x in p && from <= x < to
  {
    if p == [] then []
    else (if from <= p[0] < to then [p[0]] else []) + Filtered(p[1..], from, to)
  }

  /** Widening the range by one position adds one entry exactly when that position is in `p`. */
  lemma {:induction false} FilteredStep(p: seq<int>, n: nat)
    requires forall i, j :: 0 <= i < j < |p| ==> p[i] < p[j]
    ensures |Filtered(p, 0, n + 1)| == |Filtered(p, 0, n)| + (if n in p then 1 else 0)
  {
    if p != [] {
      FilteredStep(p[1..], n);
      assert p[0] != n ==> (n in p <==> n in p[1..]);
      assert p[0] == n ==> n !in p[1..];
    }
  }

  /** Over the first `n` positions, as many are lit as `p` has entries below `n`. */
  lemma {:induction false} CountLit(p: seq<int>, n: nat)
    requires forall i, j :: 0 <= i < j < |p| ==> p[i] < p[j]
    ensures Count(LitBelow(p, n)) == |Filtered(p, 0, n)|
  {
    if n > 0 {
      assert LitBelow(p, n)[..n - 1] == LitBelow(p, n - 1);
      CountLit(p, n - 1);
      FilteredStep(p, n - 1);
    }
  }

  /** Filtering a sequence lying within the bounds keeps all of it. */
  lemma {:induction false} FilteredAll(p: seq<int>, from: int, to: int)
    requires forall i :: 0 <= i < |p| ==> from <= p[i] < to
    ensures Filtered(p, from, to) == p
  {
    if p != [] {
      FilteredAll(p[1..], from, to);
    }
  }

  /** A die showing `v` in `1..6` has exactly `v` dots lit, and any other value none. */
  lemma LitCount(v: int)
    ensures Count(Lit(v)) == if 1 <= v <= 6 then v else 0
  {
    var p := DotPattern(v);
    CountLit(p, 9);
    FilteredAll(p, 0, 9);
  }
}
