/**
 Searching a ring from a cursor for the next position that qualifies, and leaving the cursor behind
 it. Both the GSM triplet database and the background scan probe work this way, in different code.
 */
module RoundRobin {
  import opened Common

  /** The qualifying positions from `lo` up to `hi`, in order. */
  function Positions(m: seq<bool>, lo: nat, hi: nat): seq<nat>
    requires hi <= |m|
    decreases hi - lo
  {
    if lo >= hi then [] else (if m[lo] then [lo] else []) + Positions(m, lo + 1, hi)
  }

  /** The qualifying positions in the order in which a cursor at `c` meets them, going round once. */
  function Ahead(m: seq<bool>, c: nat): seq<nat>
    requires c <= |m|
  {
    Positions(m, c, |m|) + Positions(m, 0, c)
  }

  /** The first of them. */
  function Hit(m: seq<bool>, c: nat): Option<nat>
    requires c <= |m|
  {
    if Ahead(m, c) == [] then None else Some(Ahead(m, c)[0])
  }

  /** The positions found by `k` successive searches. */
  function Visits(m: seq<bool>, c: nat, k: nat): seq<nat>
    requires c <= |m|
    decreases k
  {
    if k == 0 then []
    else
      match Hit(m, c)
      case None => []
      case Some(i) =>
        AheadIn(m, c);
        [i] + Visits(m, i + 1, k - 1)
  }

  lemma {:induction false} PositionsIn(m: seq<bool>, lo: nat, hi: nat)
    requires hi <= |m|
    ensures forall k :: 0 <= k < |Positions(m, lo, hi)| ==>
              lo <= Positions(m, lo, hi)[k] < hi && m[Positions(m, lo, hi)[k]]
    ensures forall j, k :: 0 <= j < k < |Positions(m, lo, hi)| ==> Positions(m, lo, hi)[j] < Positions(m, lo, hi)[k]
    ensures forall i :: lo <= i < hi && m[i] ==> i in Positions(m, lo, hi)
    decreases hi - lo
  {
    if lo < hi { PositionsIn(m, lo + 1, hi); }
  }

  /** The positions ahead are exactly those that qualify, each once. */
  lemma AheadIn(m: seq<bool>, c: nat)
    requires c <= |m|
    ensures forall k :: 0 <= k < |Ahead(m, c)| ==> Ahead(m, c)[k] < |m| && m[Ahead(m, c)[k]]
    ensures forall j, k :: 0 <= j < k < |Ahead(m, c)| ==> Ahead(m, c)[j] != Ahead(m, c)[k]
    ensures forall i :: 0 <= i < |m| && m[i] ==> i in Ahead(m, c)
  {
    PositionsIn(m, c, |m|);
    PositionsIn(m, 0, c);
  }

  lemma {:induction false} PositionsSplit(m: seq<bool>, lo: nat, mid: nat, hi: nat)
    requires lo <= mid <= hi <= |m|
    ensures Positions(m, lo, hi) == Positions(m, lo, mid) + Positions(m, mid, hi)
    decreases mid - lo
  {
    if lo < mid {
      PositionsSplit(m, lo + 1, mid, hi);
      var head := if m[lo] then [lo] else [];
      assert head + (Positions(m, lo + 1, mid) + Positions(m, mid, hi)) ==
             (head + Positions(m, lo + 1, mid)) + Positions(m, mid, hi);
    }
  }

  lemma {:induction false} NonePositions(m: seq<bool>, lo: nat, hi: nat)
    requires hi <= |m| && forall i :: lo <= i < hi ==> !m[i]
    ensures Positions(m, lo, hi) == []
    decreases hi - lo
  {
    if lo < hi { NonePositions(m, lo + 1, hi); }
  }

  lemma FirstPosition(m: seq<bool>, lo: nat, i: nat, hi: nat)
    requires lo <= i < hi <= |m| && m[i] && forall j :: lo <= j < i ==> !m[j]
    ensures Positions(m, lo, i) == [] && Positions(m, lo, hi) == [i] + Positions(m, i + 1, hi)
    ensures Positions(m, lo, i + 1) == [i]
  {
    NonePositions(m, lo, i);
    PositionsSplit(m, lo, i, hi);
    PositionsSplit(m, lo, i, i + 1);
  }

  /** Found without going round. */
  lemma HitAhead(m: seq<bool>, c: nat, i: nat)
    requires c <= i < |m| && m[i] && forall j :: c <= j < i ==> !m[j]
    ensures Hit(m, c) == Some(i)
    ensures Ahead(m, i + 1) == Ahead(m, c)[1..] + [i]
  {
    FirstPosition(m, c, i, |m|);
    FirstPosition(m, c, i, i + 1);
    PositionsSplit(m, 0, c, i + 1);
    var tail, front := Positions(m, i + 1, |m|), Positions(m, 0, c);
    assert Ahead(m, c) == [i] + (tail + front);
    assert Ahead(m, i + 1) == tail + (front + [i]);
  }

  /** Found after going round. */
  lemma HitAround(m: seq<bool>, c: nat, i: nat)
    requires i < c <= |m| && m[i]
    requires (forall j :: c <= j < |m| ==> !m[j]) && forall j :: 0 <= j < i ==> !m[j]
    ensures Hit(m, c) == Some(i)
    ensures Ahead(m, i + 1) == Ahead(m, c)[1..] + [i]
  {
    NonePositions(m, c, |m|);
    FirstPosition(m, 0, i, c);
    FirstPosition(m, 0, i, i + 1);
    PositionsSplit(m, i + 1, c, |m|);
    var rest := Positions(m, i + 1, c);
    assert Ahead(m, c) == [i] + rest;
    assert Ahead(m, i + 1) == rest + [i];
  }

  lemma HitNone(m: seq<bool>, c: nat)
    requires c <= |m| && forall j :: 0 <= j < |m| ==> !m[j]
    ensures Hit(m, c) == None
  {
    NonePositions(m, c, |m|);
    NonePositions(m, 0, c);
  }

  /** A cursor at the end of the ring is one at its start. */
  lemma CursorWraps(m: seq<bool>, k: nat)
    ensures Ahead(m, |m|) == Ahead(m, 0)
    ensures Visits(m, |m|, k) == Visits(m, 0, k)
  {
    assert Ahead(m, |m|) == Ahead(m, 0);
    assert Hit(m, |m|) == Hit(m, 0);
  }

  /** A search finds something exactly if some position qualifies, and moves on by one in the round. */
  lemma HitRotates(m: seq<bool>, c: nat)
    requires c <= |m|
    ensures Hit(m, c).None? <==> forall j :: 0 <= j < |m| ==> !m[j]
    ensures Hit(m, c).Some? ==>
              && Hit(m, c).value < |m|
              && Ahead(m, Hit(m, c).value + 1) == Ahead(m, c)[1..] + [Hit(m, c).value]
  {
    AheadIn(m, c);
    if Hit(m, c).Some? {
      var i := Hit(m, c).value;
      assert i == Ahead(m, c)[0];
      PositionsIn(m, c, |m|);
      PositionsIn(m, 0, c);
      if Positions(m, c, |m|) != [] {
        assert forall j :: c <= j < i && m[j] ==> j in Positions(m, c, |m|);
        HitAhead(m, c, i);
      } else {
        assert forall j :: 0 <= j < i && m[j] ==> j in Positions(m, 0, c);
        HitAround(m, c, i);
      }
    }
  }

  /** Up to as many searches as positions qualify visit them in order. */
  lemma {:induction false} VisitsAreAhead(m: seq<bool>, c: nat, k: nat)
    requires c <= |m| && k <= |Ahead(m, c)|
    ensures Visits(m, c, k) == Ahead(m, c)[..k]
    decreases k
  {
    if k > 0 {
      var i := Hit(m, c).value;
      HitRotates(m, c);
      VisitsAreAhead(m, i + 1, k - 1);
      assert Ahead(m, c)[..k] == [i] + (Ahead(m, c)[1..] + [i])[..k - 1];
    }
  }

  lemma AheadLength(m: seq<bool>, c: nat)
    requires c <= |m|
    ensures |Ahead(m, c)| == |Positions(m, 0, |m|)|
  {
    PositionsSplit(m, 0, c, |m|);
  }

  /**
   Fairness: with n qualifying positions, any n successive searches, from wherever the cursor
   stands, find each of them exactly once.
   */
  lemma EachExactlyOnce(m: seq<bool>, c: nat, i: nat)
    requires c <= |m| && i < |m|
    ensures var n := |Positions(m, 0, |m|)|;
            && |Visits(m, c, n)| == n
            && (m[i] <==> i in Visits(m, c, n))
            && forall j, k :: 0 <= j < k < n ==> Visits(m, c, n)[j] != Visits(m, c, n)[k]
  {
    AheadLength(m, c);
    var n := |Ahead(m, c)|;
    VisitsAreAhead(m, c, n);
    assert Ahead(m, c)[..n] == Ahead(m, c);
    AheadIn(m, c);
  }

  /** As long as some position qualifies, every search finds one. */
  lemma {:induction false} VisitsLength(m: seq<bool>, c: nat, k: nat)
    requires c <= |m|
    ensures |Visits(m, c, k)| == if exists i :: 0 <= i < |m| && m[i] then k else 0
    decreases k
  {
    HitRotates(m, c);
    if k > 0 && Hit(m, c).Some? { VisitsLength(m, Hit(m, c).value + 1, k - 1); }
  }
}
