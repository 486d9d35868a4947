/**
 The list of temporarily ignored BSSIDs: the lazily purged list against an eager per-BSSID record.

 Every call that looks an entry up first drops the entries that ran out over an hour ago, and no
 other call does. The reference below knows nothing of lists or purges: it derives the record of one
 BSSID from the calls that concern it, and forgets it once it is older than its limit.
 */
module IgnoreModel {
  import opened Common

  type Bssid = nat
  type Network = nat

  const SECOND := 1_000_000     // times are in microseconds
  const KEEP := 3600            // seconds for which an expired entry is remembered

  datatype Rec = Rec(bssid: Bssid, count: nat, start: int, timeout: int)

  /** The back-off in seconds for the n-th failure. */
  function BackOff(count: nat): int {
    if count > 5 then 1800
    else if count == 5 then 600
    else if count == 4 then 120
    else if count == 3 then 60
    else 10
  }

  predicate Expired(now: int, start: int, seconds: int) {
    now - start > seconds * SECOND
  }

  predicate Old(r: Rec, now: int) {
    Expired(now, r.start, r.timeout + KEEP)
  }

  // ---------- the list ----------

  /** The records, the network in use, and the networks that were reconfigured without a lookup since. */
  datatype List = List(recs: seq<Rec>, current: Option<Network>, reconfigured: set<Network>)
  {
    predicate Stale() { current.Some? && current.value in reconfigured }
  }

  function Purge(recs: seq<Rec>, now: int): seq<Rec> {
    if recs == [] then []
    else (if Old(recs[0], now) then [] else [recs[0]]) + Purge(recs[1..], now)
  }

  function Find(recs: seq<Rec>, b: Bssid): Option<Rec> {
    if recs == [] then None
    else if recs[0].bssid == b then Some(recs[0])
    else Find(recs[1..], b)
  }

  /** The list with the first record of this BSSID changed to `r`. */
  function Change(recs: seq<Rec>, r: Rec): seq<Rec> {
    if recs == [] then []
    else if recs[0].bssid == r.bssid then [r] + recs[1..]
    else [recs[0]] + Change(recs[1..], r)
  }

  function Drop(recs: seq<Rec>, b: Bssid): seq<Rec> {
    if recs == [] then []
    else if recs[0].bssid == b then recs[1..]
    else [recs[0]] + Drop(recs[1..], b)
  }

  /** A lookup purges first; after a reconfiguration of the network in use it clears the list instead. */
  function Look(l: List, now: int): List {
    if l.Stale() then l.(recs := [], reconfigured := l.reconfigured - {l.current.value})
    else l.(recs := Purge(l.recs, now))
  }

  function Get(l: List, b: Bssid, now: int): Option<Rec> {
    if l.Stale() then None else Find(Look(l, now).recs, b)
  }

  function Next(b: Bssid, prior: Option<Rec>, now: int): Rec {
    var count := if prior.Some? then prior.value.count + 1 else 1;
    Rec(b, count, now, BackOff(count))
  }

  function Add(l: List, b: Bssid, t: int, now: int): List {
    var prior := Get(l, b, t);
    var m := Look(l, t);
    m.(recs := if prior.Some? then Change(m.recs, Next(b, prior, now)) else [Next(b, None, now)] + m.recs)
  }

  function Listed(r: Option<Rec>, now: int): nat {
    if r.None? || Expired(now, r.value.start, r.value.timeout) then 0 else r.value.count
  }

  // ---------- calls and their answers ----------

  /** A call and the clock readings in it; `Remove` reads no clock, so its time is only on record. */
  datatype Call =
    | Lookup(b: Bssid, t: int)
    | Ignore(b: Bssid, t: int, now: int)
    | IsListed(b: Bssid, t: int, now: int)
    | Remove(b: Bssid, t: int)
    | Clear(t: int)
    | Update(t: int)
    | Reconfigure(network: Network, t: int)
    | Select(use: Option<Network>, t: int)
  {
    function End(): int { if Ignore? || IsListed? then now else t }
    predicate Looks() { Lookup? || Ignore? || IsListed? }
  }

  datatype Answer = Nothing | Found(r: Option<Rec>) | Count(n: nat) | Removed(found: bool)

  function Step(l: List, c: Call): (List, Answer) {
    match c
    case Lookup(b, t) => (Look(l, t), Found(Get(l, b, t)))
    case Ignore(b, t, now) => (Add(l, b, t, now), Count(Next(b, Get(l, b, t), now).count))
    case IsListed(b, t, now) => (Look(l, t), Count(Listed(Get(l, b, t), now)))
    case Remove(b, _) => (l.(recs := Drop(l.recs, b)), Removed(Find(l.recs, b).Some?))
    case Clear(_) => (l.(recs := []), Nothing)
    case Update(t) => (l.(recs := Purge(l.recs, t)), Nothing)
    case Reconfigure(network, _) => (l.(reconfigured := l.reconfigured + {network}), Nothing)
    case Select(use, _) => (l.(current := use), Nothing)
  }

  const EMPTY := List([], None, {})

  function After(calls: seq<Call>): List {
    if calls == [] then EMPTY
    else Step(After(calls[..|calls| - 1]), calls[|calls| - 1]).0
  }

  /** The clock does not go back, within a call and from call to call. */
  ghost predicate Clocked(calls: seq<Call>) {
    && (forall i :: 0 <= i < |calls| ==> calls[i].t <= calls[i].End())
    && (forall i, j :: 0 <= i < j < |calls| ==> calls[i].End() <= calls[j].t)
  }

  // ---------- the reference: one record per BSSID ----------

  function InUse(calls: seq<Call>): Option<Network> {
    if calls == [] then None
    else
      var c := calls[|calls| - 1];
      if c.Select? then c.use else InUse(calls[..|calls| - 1])
  }

  /** The network was reconfigured, and there was no lookup since while it was in use. */
  predicate Unseen(calls: seq<Call>, n: Network) {
    calls != [] &&
    var before, c := calls[..|calls| - 1], calls[|calls| - 1];
    (c.Reconfigure? && c.network == n) || (!(c.Looks() && InUse(before) == Some(n)) && Unseen(before, n))
  }

  /** The next lookup will find nothing, because the network in use was reconfigured. */
  predicate PendingClear(calls: seq<Call>) {
    InUse(calls).Some? && Unseen(calls, InUse(calls).value)
  }

  function Remembered(r: Option<Rec>, now: int): Option<Rec> {
    if r.Some? && Old(r.value, now) then None else r
  }

  /** What is on record for `b` after the calls, as if nothing were ever purged. */
  function Record(calls: seq<Call>, b: Bssid): Option<Rec> {
    if calls == [] then None
    else
      var before, c := calls[..|calls| - 1], calls[|calls| - 1];
      if c.Clear? || (c.Remove? && c.b == b) then None
      else
        var r := if c.Looks() && PendingClear(before) then None else Record(before, b);
        if c.Ignore? && c.b == b then Some(Next(b, Remembered(r, c.t), c.now)) else r
  }

  /** What an eager implementation finds for `b` at time `t`. */
  function EagerGet(calls: seq<Call>, b: Bssid, t: int): Option<Rec> {
    if PendingClear(calls) then None else Remembered(Record(calls, b), t)
  }

  function EagerAnswer(calls: seq<Call>, c: Call): Answer {
    match c
    case Lookup(b, t) => Found(EagerGet(calls, b, t))
    case Ignore(b, t, now) => Count(Next(b, EagerGet(calls, b, t), now).count)
    case IsListed(b, t, now) => Count(Listed(EagerGet(calls, b, t), now))
    case Remove(b, t) => Removed(Remembered(Record(calls, b), t).Some?)
    case _ => Nothing
  }

  /** The time of the latest purge. */
  function LastPurge(calls: seq<Call>): Option<int> {
    if calls == [] then None
    else
      var c := calls[|calls| - 1];
      if c.Looks() || c.Update? then Some(c.t) else LastPurge(calls[..|calls| - 1])
  }

  // ---------- proofs about lists ----------

  ghost predicate NoDup(recs: seq<Rec>) {
    forall i, j :: 0 <= i < j < |recs| ==> recs[i].bssid != recs[j].bssid
  }

  ghost predicate BackedOff(recs: seq<Rec>) {
    forall i :: 0 <= i < |recs| ==> recs[i].timeout == BackOff(recs[i].count) && recs[i].count >= 1
  }

  lemma {:induction false} FindIn(recs: seq<Rec>, b: Bssid)
    ensures Find(recs, b).None? <==> forall i :: 0 <= i < |recs| ==> recs[i].bssid != b
    ensures Find(recs, b).Some? ==> exists i :: 0 <= i < |recs| && recs[i] == Find(recs, b).value && recs[i].bssid == b
  {
    if recs != [] && recs[0].bssid != b {
      FindIn(recs[1..], b);
      if Find(recs[1..], b).Some? {
        var i :| 0 <= i < |recs[1..]| && recs[1..][i] == Find(recs[1..], b).value && recs[1..][i].bssid == b;
        assert recs[i + 1] == recs[1..][i];
      } else {
        forall i | 0 <= i < |recs| ensures recs[i].bssid != b {
          if i > 0 { assert recs[i] == recs[1..][i - 1]; }
        }
      }
    }
  }

  ghost predicate Sound(recs: seq<Rec>) {
    NoDup(recs) && BackedOff(recs)
  }

  /** What remains after a purge was there before. */
  lemma {:induction false} PurgeShrinks(recs: seq<Rec>, now: int, i: nat) returns (j: nat)
    requires i < |Purge(recs, now)|
    ensures j < |recs| && recs[j] == Purge(recs, now)[i]
  {
    var rest := Purge(recs[1..], now);
    if !Old(recs[0], now) && i == 0 {
      j := 0;
    } else {
      j := PurgeShrinks(recs[1..], now, if Old(recs[0], now) then i else i - 1);
      j := j + 1;
    }
  }

  lemma {:induction false} PurgeIs(recs: seq<Rec>, now: int, b: Bssid)
    requires Sound(recs)
    ensures Sound(Purge(recs, now))
    ensures Find(Purge(recs, now), b) == Remembered(Find(recs, b), now)
  {
    if recs != [] {
      var rest := Purge(recs[1..], now);
      PurgeIs(recs[1..], now, b);
      if Old(recs[0], now) {
        assert Purge(recs, now) == rest;
        FindIn(recs[1..], recs[0].bssid);
      } else {
        assert Purge(recs, now) == [recs[0]] + rest && Purge(recs, now)[1..] == rest;
        forall i | 0 <= i < |rest| ensures rest[i].bssid != recs[0].bssid {
          var j := PurgeShrinks(recs[1..], now, i);
        }
      }
    }
  }

  lemma {:induction false} ChangeIs(recs: seq<Rec>, r: Rec, b: Bssid)
    requires Sound(recs) && Find(recs, r.bssid).Some? && r.timeout == BackOff(r.count) && r.count >= 1
    ensures Sound(Change(recs, r)) && |Change(recs, r)| == |recs|
    ensures Find(Change(recs, r), b) == if b == r.bssid then Some(r) else Find(recs, b)
    ensures forall i :: 0 <= i < |recs| ==> Change(recs, r)[i].bssid == recs[i].bssid
  {
    if recs[0].bssid == r.bssid {
      assert Change(recs, r)[1..] == recs[1..];
    } else {
      ChangeIs(recs[1..], r, b);
      assert Change(recs, r)[1..] == Change(recs[1..], r);
    }
  }

  lemma {:induction false} DropIs(recs: seq<Rec>, d: Bssid, b: Bssid)
    requires Sound(recs)
    ensures Sound(Drop(recs, d))
    ensures Find(Drop(recs, d), b) == if b == d then None else Find(recs, b)
    ensures forall i :: 0 <= i < |Drop(recs, d)| ==> exists j :: 0 <= j < |recs| && recs[j] == Drop(recs, d)[i]
  {
    if recs != [] {
      if recs[0].bssid == d {
        FindIn(recs[1..], d);
      } else {
        var rest := Drop(recs[1..], d);
        DropIs(recs[1..], d, b);
        forall i | 0 <= i < |rest| ensures exists j :: 0 < j < |recs| && recs[j] == rest[i] {
          var j :| 0 <= j < |recs[1..]| && recs[1..][j] == rest[i];
          assert recs[j + 1] == rest[i];
        }
        assert Drop(recs, d)[1..] == rest;
      }
    }
  }

  // ---------- the list against the reference ----------

  function Seen(r: Option<Rec>, purge: Option<int>): Option<Rec> {
    if purge.None? then r else Remembered(r, purge.value)
  }

  /** The list holds the record of `b` unless the latest purge found it old. */
  ghost predicate Agrees(calls: seq<Call>, b: Bssid) {
    var l := After(calls);
    && Sound(l.recs)
    && l.Stale() == PendingClear(calls)
    && Find(l.recs, b) == Seen(Record(calls, b), LastPurge(calls))
    && (Record(calls, b).Some? ==> Record(calls, b).value.bssid == b && Record(calls, b).value.timeout >= 0)
  }

  /** The list knows the network in use, and which networks were reconfigured without a lookup since. */
  lemma {:induction false} FlagsAgree(calls: seq<Call>)
    ensures After(calls).current == InUse(calls)
    ensures forall n :: n in After(calls).reconfigured <==> Unseen(calls, n)
    ensures After(calls).Stale() == PendingClear(calls)
  {
    if calls != [] { FlagsAgree(calls[..|calls| - 1]); }
  }

  lemma LookAgrees(calls: seq<Call>, b: Bssid, t: int)
    requires Agrees(calls, b) && (LastPurge(calls).Some? ==> LastPurge(calls).value <= t)
    ensures var l := Look(After(calls), t);
            && Sound(l.recs)
            && Find(l.recs, b) == EagerGet(calls, b, t)
            && Get(After(calls), b, t) == EagerGet(calls, b, t)
  {
    var l := After(calls);
    if !l.Stale() { PurgeIs(l.recs, t, b); }
  }

  lemma {:induction false} LastPurgeIsPast(calls: seq<Call>, t: int)
    requires Clocked(calls) && forall i :: 0 <= i < |calls| ==> calls[i].End() <= t
    ensures LastPurge(calls).Some? ==> LastPurge(calls).value <= t
  {
    if calls != [] {
      var c := calls[|calls| - 1];
      if !c.Looks() && !c.Update? { LastPurgeIsPast(calls[..|calls| - 1], t); }
    }
  }

  lemma IgnoreAgrees(l: List, b: Bssid, c: Bssid, t: int, now: int)
    requires Sound(Look(l, t).recs)
    requires Get(l, b, t) == Find(Look(l, t).recs, b)
    ensures Sound(Add(l, b, t, now).recs)
    ensures Find(Add(l, b, t, now).recs, c) ==
              if c == b then Some(Next(b, Get(l, b, t), now)) else Find(Look(l, t).recs, c)
  {
    var recs := Look(l, t).recs;
    FindIn(recs, b);
    if Get(l, b, t).Some? {
      ChangeIs(recs, Next(b, Get(l, b, t), now), c);
    } else {
      assert Add(l, b, t, now).recs[1..] == recs;
    }
  }

  /** One more call. */
  lemma Append(calls: seq<Call>, c: Call, b: Bssid)
    ensures After(calls + [c]) == Step(After(calls), c).0
    ensures LastPurge(calls + [c]) == if c.Looks() || c.Update? then Some(c.t) else LastPurge(calls)
    ensures Record(calls + [c], b) ==
              if c.Clear? || (c.Remove? && c.b == b) then None
              else
                var r := if c.Looks() && PendingClear(calls) then None else Record(calls, b);
                if c.Ignore? && c.b == b then Some(Next(b, Remembered(r, c.t), c.now)) else r
  {
    assert (calls + [c])[..|calls|] == calls;
  }

  lemma Before(calls: seq<Call>, c: Call)
    requires Clocked(calls + [c])
    ensures Clocked(calls) && c.t <= c.End()
    ensures LastPurge(calls).Some? ==> LastPurge(calls).value <= c.t
  {
    var all := calls + [c];
    assert forall i :: 0 <= i < |calls| ==> all[i] == calls[i];
    assert all[|calls|] == c;
    forall i | 0 <= i < |calls| ensures calls[i].End() <= c.t { assert all[i].End() <= all[|calls|].t; }
    LastPurgeIsPast(calls, c.t);
  }

  lemma AgreesAfterLook(calls: seq<Call>, c: Call, b: Bssid)
    requires Clocked(calls + [c]) && (c.Lookup? || c.IsListed?)
    requires Agrees(calls, b)
    ensures Agrees(calls + [c], b)
  {
    Append(calls, c, b);
    FlagsAgree(calls + [c]);
    Before(calls, c);
    LookAgrees(calls, b, c.t);
  }

  lemma AgreesAfterIgnore(calls: seq<Call>, c: Call, b: Bssid)
    requires Clocked(calls + [c]) && c.Ignore?
    requires Agrees(calls, b) && Agrees(calls, c.b)
    ensures Agrees(calls + [c], b)
  {
    Append(calls, c, b);
    FlagsAgree(calls + [c]);
    Before(calls, c);
    LookAgrees(calls, b, c.t);
    LookAgrees(calls, c.b, c.t);
    IgnoreAgrees(After(calls), c.b, b, c.t, c.now);
  }

  lemma AgreesAfterOther(calls: seq<Call>, c: Call, b: Bssid)
    requires Clocked(calls + [c]) && !c.Looks()
    requires Agrees(calls, b)
    ensures Agrees(calls + [c], b)
  {
    Append(calls, c, b);
    FlagsAgree(calls + [c]);
    Before(calls, c);
    if c.Remove? { DropIs(After(calls).recs, c.b, b); }
    if c.Update? { PurgeIs(After(calls).recs, c.t, b); }
  }

  lemma {:induction false} ListAgrees(calls: seq<Call>, b: Bssid)
    requires Clocked(calls)
    ensures Agrees(calls, b)
    decreases |calls|
  {
    if calls != [] {
      var before, c := calls[..|calls| - 1], calls[|calls| - 1];
      assert calls == before + [c];
      Before(before, c);
      ListAgrees(before, b);
      if c.Ignore? {
        ListAgrees(before, c.b);
        AgreesAfterIgnore(before, c, b);
      } else if c.Looks() {
        AgreesAfterLook(before, c, b);
      } else {
        AgreesAfterOther(before, c, b);
      }
    }
  }

  /**
   Purging lazily is unobservable: after any calls under a clock that does not go back, every get,
   add and is-listed is answered as the eager record would answer it.
   */
  lemma LazyPurgeUnobservable(calls: seq<Call>, c: Call)
    requires Clocked(calls + [c]) && !c.Remove?
    ensures Step(After(calls), c).1 == EagerAnswer(calls, c)
  {
    Before(calls, c);
    if c.Looks() {
      ListAgrees(calls, c.b);
      LookAgrees(calls, c.b, c.t);
    }
  }

  /**
   A removal does not purge, so its answer shows what an eager record would have forgotten: the two
   differ exactly when the BSSID's record is old by now but was not at the latest purge.
   */
  lemma RemoveShowsUnpurged(calls: seq<Call>, b: Bssid, t: int)
    requires Clocked(calls + [Remove(b, t)])
    ensures Step(After(calls), Remove(b, t)).1 != EagerAnswer(calls, Remove(b, t)) <==>
            var r := Record(calls, b);
            r.Some? && Old(r.value, t) && (LastPurge(calls).Some? ==> !Old(r.value, LastPurge(calls).value))
  {
    Before(calls, Remove(b, t));
    ListAgrees(calls, b);
  }

  /** One failure, and a removal more than an hour and ten seconds later: the removal still finds the entry. */
  lemma RemoveFindsOldEntry(b: Bssid, t: int, later: int)
    requires later - t > (10 + KEEP) * SECOND
    ensures var calls := [Ignore(b, t, t)];
            && Clocked(calls + [Remove(b, later)])
            && Step(After(calls), Remove(b, later)).1 == Removed(true)
            && EagerAnswer(calls, Remove(b, later)) == Removed(false)
  {
    var calls := [Ignore(b, t, t)];
    FirstFailure(b, t);
    assert (calls + [Remove(b, later)])[0] == calls[0] && (calls + [Remove(b, later)])[1] == Remove(b, later);
    RemoveShowsUnpurged(calls, b, later);
  }

  lemma FirstFailure(b: Bssid, t: int)
    ensures Record([Ignore(b, t, t)], b) == Some(Rec(b, 1, t, 10)) && LastPurge([Ignore(b, t, t)]) == Some(t)
  {
    assert [Ignore(b, t, t)][..0] == [];
    assert Record([], b) == None;
  }

  /** No BSSID occurs twice in the list, and every timeout is the back-off for its count. */
  lemma ListIsSound(calls: seq<Call>)
    requires Clocked(calls)
    ensures NoDup(After(calls).recs) && BackedOff(After(calls).recs)
  {
    ListAgrees(calls, 0);
  }
}
