/** The GSM triplet database of the HLR/AuC gateway: a linked list with a cursor for round-robin use. */
module GsmTriplets {
  import opened Common
  import opened RoundRobin

  class Triplet {
    const next: Triplet?
    const imsi: string
    const kc: string
    const sres: string
    const rand: string

    constructor (next: Triplet?, imsi: string, kc: string, sres: string, rand: string)
      ensures this.next == next && this.imsi == imsi
    {
      this.next, this.imsi, this.kc, this.sres, this.rand := next, imsi, kc, sres, rand;
    }
  }

  /** Which triplets of the list are for this IMSI. */
  ghost function For(s: seq<Triplet>, imsi: string): seq<bool> {
    seq(|s|, i requires 0 <= i < |s| => s[i].imsi == imsi)
  }

  /** The triplet at a position, or null behind the last one. */
  ghost function At(s: seq<Triplet>, i: nat): Triplet? {
    if i < |s| then s[i] else null
  }

  ghost predicate Chained(s: seq<Triplet>) {
    forall i {:trigger s[i]} :: 0 <= i < |s| ==> s[i].next == At(s, i + 1)
  }

  /** A chain that ends does not come back to an earlier triplet. */
  lemma {:induction false} ChainedIsDistinct(s: seq<Triplet>, i: nat, j: nat)
    requires Chained(s) && i < j < |s|
    ensures s[i] != s[j]
    decreases |s| - j
  {
    assert s[i].next == At(s, i + 1) && s[j].next == At(s, j + 1);
    if j + 1 < |s| { ChainedIsDistinct(s, i + 1, j + 1); }
  }

  lemma NextAhead(s: seq<Triplet>, imsi: string, c: nat, i: nat)
    requires c <= i < |s| && s[i].imsi == imsi && forall j :: c <= j < i ==> s[j].imsi != imsi
    ensures Hit(For(s, imsi), c) == Some(i)
  {
    HitAhead(For(s, imsi), c, i);
  }

  lemma NextAround(s: seq<Triplet>, imsi: string, c: nat, i: nat)
    requires i < c <= |s| && s[i].imsi == imsi
    requires forall j :: c <= j < |s| ==> s[j].imsi != imsi
    requires forall j :: 0 <= j < i ==> s[j].imsi != imsi
    ensures Hit(For(s, imsi), c) == Some(i)
  {
    HitAround(For(s, imsi), c, i);
  }

  lemma NextNone(s: seq<Triplet>, imsi: string, c: nat)
    requires c <= |s|
    requires forall j :: c <= j < |s| ==> s[j].imsi != imsi
    requires forall j :: 0 <= j < c ==> s[j].imsi != imsi
    ensures Hit(For(s, imsi), c) == None
  {
    HitNone(For(s, imsi), c);
  }

  class TripletDb {
    var db: Triplet?
    var pos: Triplet?
    ghost var triplets: seq<Triplet>
    ghost var cursor: nat

    ghost predicate Valid()
      reads this
    {
      Linked() && cursor <= |triplets| && pos == At(triplets, cursor)
    }

    /** The triplets are linked in this order. */
    ghost predicate Linked()
      reads this`db, this`triplets
    {
      db == At(triplets, 0) && Chained(triplets)
    }

    /** After loading a chain of triplets the cursor is unset, which counts as behind the last one. */
    constructor (db: Triplet?, ghost loaded: seq<Triplet>)
      requires Chained(loaded) && db == At(loaded, 0)
      ensures Valid() && triplets == loaded && cursor == |loaded|
    {
      this.db, pos, triplets, cursor := db, null, loaded, |loaded|;
    }

    /** The first triplet for this IMSI from `start` on and before `stop`; `lo` and `hi` are their positions. */
    method Scan(start: Triplet?, stop: Triplet?, imsi: string, ghost lo: nat, ghost hi: nat) returns (g: Triplet?, ghost i: nat)
      requires Valid() && lo <= hi <= |triplets| && start == At(triplets, lo) && stop == At(triplets, hi)
      ensures lo <= i <= hi && forall j :: lo <= j < i ==> triplets[j].imsi != imsi
      ensures if i < hi then g == triplets[i] else g == null
      ensures g != null ==> g.imsi == imsi
    {
      g, i := start, lo;
      while g != null && g != stop
        invariant lo <= i <= hi && g == At(triplets, i)
        invariant forall j :: lo <= j < i ==> triplets[j].imsi != imsi
        decreases hi - i
      {
        if hi < |triplets| { ChainedIsDistinct(triplets, i, hi); }
        if g.imsi == imsi { return; }
        assert triplets[i].next == At(triplets, i + 1);
        g := g.next;
        i := i + 1;
      }
      if i < hi < |triplets| { ChainedIsDistinct(triplets, i, hi); }
      g := null;
    }

    /** The next triplet for this IMSI, from the cursor to the end and then from the start to the cursor. */
    method GetTriplet(imsi: string) returns (g: Triplet?)
      requires Valid()
      modifies this`pos, this`cursor
      ensures Valid()
      ensures match Hit(For(triplets, imsi), old(cursor))
              case None => g == null && cursor == old(cursor)
              case Some(i) => i < |triplets| && g == triplets[i] && g.imsi == imsi && cursor == i + 1
    {
      ghost var i;
      g, i := Scan(pos, null, imsi, cursor, |triplets|);
      if g != null {
        NextAhead(triplets, imsi, cursor, i);
        pos := g.next;
        cursor := i + 1;
        return;
      }
      g, i := Scan(db, pos, imsi, 0, cursor);
      if g != null {
        NextAround(triplets, imsi, cursor, i);
        pos := g.next;
        cursor := i + 1;
        return;
      }
      NextNone(triplets, imsi, cursor);
    }

    /** The triplets used so far stand at the first visits of `all`, and the rest of the visits lies ahead. */
    ghost predicate Underway(imsi: string, used: seq<Triplet>, all: seq<nat>, left: nat)
      reads this
    {
      && Valid() && |used| <= |all| <= |used| + left
      && (forall k :: 0 <= k < |used| ==> all[k] < |triplets| && used[k] == triplets[all[k]])
      && all[|used|..] == Visits(For(triplets, imsi), cursor, left)
    }

    /** One turn of the challenge loop. */
    method Draw(imsi: string, used: seq<Triplet>, ghost all: seq<nat>, ghost left: nat) returns (g: Triplet?)
      requires Underway(imsi, used, all, left) && left > 0
      modifies this`pos, this`cursor
      ensures if g == null then Valid() && |all| == |used| && Underway(imsi, used, all, 0)
              else Underway(imsi, used + [g], all, left - 1)
    {
      VisitsStep(all, For(triplets, imsi), cursor, |used|, left);
      g := GetTriplet(imsi);
    }

    lemma Start(imsi: string, maxChal: nat)
      requires Valid()
      ensures Underway(imsi, [], Visits(For(triplets, imsi), cursor, maxChal), maxChal)
    {
      var all := Visits(For(triplets, imsi), cursor, maxChal);
      assert all[0..] == all;
      VisitsLength(For(triplets, imsi), cursor, maxChal);
    }

    /** The challenge loop: up to `maxChal` triplets, or as long as there are any. */
    method Challenges(imsi: string, maxChal: nat) returns (used: seq<Triplet>)
      requires Valid()
      modifies this`pos, this`cursor
      ensures Underway(imsi, used, Visits(For(triplets, imsi), old(cursor), maxChal), 0)
    {
      ghost var all := Visits(For(triplets, imsi), cursor, maxChal);
      Start(imsi, maxChal);
      used := Fill(imsi, maxChal, all);
    }

    method Fill(imsi: string, maxChal: nat, ghost all: seq<nat>) returns (used: seq<Triplet>)
      requires Underway(imsi, [], all, maxChal)
      modifies this`pos, this`cursor
      ensures Underway(imsi, used, all, 0)
    {
      used := [];
      var count := 0;
      while count < maxChal
        invariant count <= maxChal && Underway(imsi, used, all, maxChal - count)
      {
        var g := Draw(imsi, used, all, maxChal - count);
        if g == null { return; }
        used := used + [g];
        count := count + 1;
      }
    }
  }

  lemma VisitsStep(all: seq<nat>, m: seq<bool>, c: nat, count: nat, k: nat)
    requires c <= |m| && k > 0 && count <= |all| && all[count..] == Visits(m, c, k)
    ensures match Hit(m, c)
            case None => |all| == count
            case Some(i) => i < |m| && count < |all| && all[count] == i && all[count + 1..] == Visits(m, i + 1, k - 1)
  {
    HitRotates(m, c);
    if Hit(m, c).Some? {
      assert all[count] == all[count..][0];
      assert all[count + 1..] == all[count..][1..];
    }
  }

  /** A request comes back empty exactly when no triplet is for this IMSI; otherwise the loop fills up. */
  lemma ChallengesAreFilled(s: seq<Triplet>, imsi: string, c: nat, maxChal: nat)
    requires c <= |s|
    ensures Hit(For(s, imsi), c).None? <==> forall i :: 0 <= i < |s| ==> s[i].imsi != imsi
    ensures |Visits(For(s, imsi), c, maxChal)| ==
              if exists i :: 0 <= i < |s| && s[i].imsi == imsi then maxChal else 0
  {
    var m := For(s, imsi);
    assert forall i :: 0 <= i < |s| ==> m[i] == (s[i].imsi == imsi);
    HitRotates(m, c);
    VisitsLength(m, c, maxChal);
  }

  /** For an IMSI with n triplets, any n successive requests use each of them exactly once. */
  lemma TripletFairness(s: seq<Triplet>, imsi: string, c: nat, i: nat)
    requires c <= |s| && i < |s|
    ensures var n := |Positions(For(s, imsi), 0, |s|)|;
            var v := Visits(For(s, imsi), c, n);
            && |v| == n && (s[i].imsi == imsi <==> i in v)
            && forall j, k :: 0 <= j < k < n ==> v[j] != v[k]
  {
    EachExactlyOnce(For(s, imsi), c, i);
  }
}
