/**
 Where the pending connect work points. Only the first kind of work that is pending is looked at when an entry
 is removed or moved: a connect work is passed over while an sme-connect is pending.
 */
module BssWorks {
  import opened Common
  import opened BssModel
  import opened BssInvariant
  import opened BssRuns
  import opened BssTheorems

  /** A connect work that is the only one pending follows its entry. */
  ghost predicate FirstFollows(t: Table) {
    t.link.sme.None? ==> FollowsIfAny(t.heap, t.link.connect)
  }

  // ---------- while no sme-connect is pending ----------

  lemma RemoveKeepsConnect(t: Table, p: Ptr)
    requires Inv(t) && p in t.heap && FirstFollows(t)
    ensures t.num > 0 && FirstFollows(Remove(t, p))
  {
    RemoveKeepsInv(t, p);
    AllIdsDiffer(t);
    if t.link.sme.None? { FollowsRemoval(t.heap, t.link.connect, p); }
  }

  lemma MissedKeepsConnect(t: Table, p: Ptr)
    requires p in t.heap && FirstFollows(t)
    ensures FirstFollows(Missed(t, p))
  {}

  lemma TurnKeepsConnect(t: Table, i: nat, info: Option<ScanInfo>)
    requires Inv(t) && i < |t.bss| && FirstFollows(t)
    ensures FirstFollows(ExpireTurn(t, i, info).0)
  {
    var p := t.bss[i];
    assert p in t.bss;
    TurnIs(t, i, info);
    if Covered(t, p, info) {
      MissedKeepsInv(t, p);
      MissedKeepsConnect(t, p);
      if Expires(t, p, info) { RemoveKeepsConnect(Missed(t, p), p); }
    }
  }

  lemma {:induction false} ExpireKeepsConnect(t: Table, i: nat, info: Option<ScanInfo>)
    requires Inv(t) && i <= |t.bss| && FirstFollows(t)
    ensures FirstFollows(ExpireFrom(t, i, info))
    decreases |t.bss| - i
  {
    if i < |t.bss| {
      ExpireTurnKeepsInv(t, i, info);
      TurnKeepsConnect(t, i, info);
      var (u, j) := ExpireTurn(t, i, info);
      ExpireKeepsConnect(u, j, info);
    }
  }

  lemma {:induction false} FlushKeepsConnect(t: Table, i: nat)
    requires Inv(t) && i <= |t.bss| && FirstFollows(t)
    ensures FirstFollows(FlushFrom(t, i))
    decreases |t.bss| - i
  {
    if i < |t.bss| {
      assert t.bss[i] in t.bss;
      if InUse(t, t.bss[i]) {
        FlushKeepsConnect(t, i + 1);
      } else {
        RemoveKeepsInv(t, t.bss[i]);
        RemoveKeepsConnect(t, t.bss[i]);
        UnlinkShortens(t.bss, t.bss[i]);
        FlushKeepsConnect(Remove(t, t.bss[i]), i);
      }
    }
  }

  lemma {:induction false} FlushOldKeepsConnect(t: Table, i: nat, cutoff: int)
    requires Inv(t) && i <= |t.bss| && FirstFollows(t)
    ensures FirstFollows(FlushOldFrom(t, i, cutoff))
    decreases |t.bss| - i
  {
    if i < |t.bss| {
      assert t.bss[i] in t.bss;
      if InUse(t, t.bss[i]) {
        FlushOldKeepsConnect(t, i + 1, cutoff);
      } else if t.heap[t.bss[i]].lastUpdate < cutoff {
        RemoveKeepsInv(t, t.bss[i]);
        RemoveKeepsConnect(t, t.bss[i]);
        UnlinkShortens(t.bss, t.bss[i]);
        FlushOldKeepsConnect(Remove(t, t.bss[i]), i, cutoff);
      }
    }
  }

  lemma EvictedKeepsConnect(t: Table, v: Ptr)
    requires Inv(t) && (v == NULL || v in t.heap) && FirstFollows(t)
    ensures FirstFollows(Evicted(t, v)) && Issued(Evicted(t, v).link.connect, t.nextId)
  {
    if v != NULL { RemoveKeepsConnect(t, v); }
  }

  lemma AddKeepsConnect(t: Table, addr: Ptr, ssid: Ssid, res: ScanRes, fetch: int)
    requires Inv(t) && Fresh(t, addr) && FirstFollows(t)
    ensures FirstFollows(Add(t, addr, ssid, res, fetch))
  {
    var v := VictimOfAdd(t, addr, ssid, res, fetch);
    var b := NewBss(t, ssid, res, fetch);
    AddIsInsert(t, addr, ssid, res, fetch);
    EvictedKeepsInv(t, v);
    EvictedKeepsConnect(t, v);
    FollowsInsertion(Evicted(t, v).heap, if t.link.sme.None? then Evicted(t, v).link.connect else None, addr, b);
    assert Add(t, addr, ssid, res, fetch).link == Evicted(t, v).link;
    assert Add(t, addr, ssid, res, fetch).heap == Evicted(t, v).heap[addr := b];
  }

  lemma UpdateKeepsConnect(t: Table, p: Ptr, res: ScanRes, fetch: int, moved: Ptr)
    requires Inv(t) && p in t.heap && (moved == p || Fresh(t, moved)) && FirstFollows(t)
    ensures FirstFollows(Update(t, p, res, fetch, moved))
  {
    if t.link.sme.None? && !Obsolete(t, t.heap[p], res, fetch) {
      FollowsMove(t.heap, t.link.connect, p, Home(t, p, res, fetch, moved), Refreshed(t, t.heap[p], res, fetch));
    }
  }

  lemma ResultKeepsConnect(t: Table, res: ScanRes, fetch: int, addr: Ptr, inPlace: bool)
    requires Inv(t) && Fresh(t, addr) && FirstFollows(t)
    ensures FirstFollows(UpdateScanRes(t, res, fetch, addr, inPlace))
  {
    var ssid := Relevant(t, res, fetch);
    if ssid.Some? {
      var p: Ptr := Get(t, res.bssid, ssid.value);
      FirstIs(t.bss, IsFor(t, res.bssid, ssid.value));
      if p == NULL {
        AddKeepsConnect(t, addr, ssid.value, res, fetch);
      } else {
        UpdateKeepsConnect(t, p, res, fetch, if inPlace then p else addr);
      }
    }
  }

  /** Whatever is done to the entries, a connect work that is the only one pending keeps following its own. */
  lemma NextKeepsConnect(t: Table, a: Op)
    requires Inv(t) && Enabled(t, a) && FirstFollows(t)
    requires a.Start? || a.Result? || a.End? || a.Drop? || a.Flush? || a.FlushOld?
    ensures FirstFollows(Next(t, a))
  {
    match a
    case Result(res, fetch, addr, inPlace) => ResultKeepsConnect(t, res, fetch, addr, inPlace);
    case End(info, _) => ExpireKeepsConnect(t, 0, info);
    case Drop(p) => RemoveKeepsConnect(t, p);
    case Flush => FlushKeepsConnect(t, 0);
    case FlushOld(cutoff) => FlushOldKeepsConnect(t, 0, cutoff);
    case _ =>
  }

  // ---------- while an sme-connect is pending ----------

  /** The connect work is passed over, and whether an sme-connect is pending stays. */
  ghost predicate PassedOver(t: Table, u: Table) {
    (u.link.sme.Some? <==> t.link.sme.Some?) && (u.link.connect.Some? <==> t.link.connect.Some?) &&
    (t.link.sme.Some? ==> u.link.connect == t.link.connect)
  }

  lemma {:induction false} ExpirePassesOver(t: Table, i: nat, info: Option<ScanInfo>)
    ensures PassedOver(t, ExpireFrom(t, i, info))
    decreases |t.bss| - i
  {
    if i < |t.bss| {
      var (u, j) := ExpireTurn(t, i, info);
      assert PassedOver(t, u);
      ExpirePassesOver(u, j, info);
    }
  }

  lemma {:induction false} FlushPassesOver(t: Table, i: nat)
    ensures PassedOver(t, FlushFrom(t, i))
    decreases |t.bss| - i
  {
    if i < |t.bss| {
      if InUse(t, t.bss[i]) || t.num == 0 {
        FlushPassesOver(t, i + 1);
      } else {
        UnlinkShortens(t.bss, t.bss[i]);
        FlushPassesOver(Remove(t, t.bss[i]), i);
      }
    }
  }

  lemma {:induction false} FlushOldPassesOver(t: Table, i: nat, cutoff: int)
    ensures PassedOver(t, FlushOldFrom(t, i, cutoff))
    decreases |t.bss| - i
  {
    if i < |t.bss| && t.bss[i] in t.heap {
      if InUse(t, t.bss[i]) {
        FlushOldPassesOver(t, i + 1, cutoff);
      } else if t.heap[t.bss[i]].lastUpdate < cutoff && t.num > 0 {
        UnlinkShortens(t.bss, t.bss[i]);
        FlushOldPassesOver(Remove(t, t.bss[i]), i, cutoff);
      }
    }
  }

  lemma NextPassesOver(t: Table, a: Op)
    requires Enabled(t, a)
    requires a.Start? || a.Result? || a.End? || a.Drop? || a.Flush? || a.FlushOld?
    ensures PassedOver(t, Next(t, a))
  {
    match a
    case End(info, _) => ExpirePassesOver(t, 0, info);
    case Flush => FlushPassesOver(t, 0);
    case FlushOld(cutoff) => FlushOldPassesOver(t, 0, cutoff);
    case _ =>
  }

  // ---------- exactly when it goes astray ----------

  /**
   The table as eviction finds it. The new entry has been allocated by then; if that took the address to which the
   current-entry pointer dangles, its SSID is what is read through the pointer.
   */
  function Allocated(t: Table, addr: Ptr, ssid: Ssid): Table {
    if t.link.current == addr then t.(config := t.config.(freed := ssid)) else t
  }

  /** First in refresh order of the unknown entries, or of the idle ones if none is unknown. */
  predicate GivesWay(t: Table, p: Ptr) {
    First(t.bss, IsUnknown(t)) == p || (First(t.bss, IsUnknown(t)) == NULL && First(t.bss, IsIdle(t)) == p)
  }

  /** The scan result evicts the entry from a full table, or its elements outgrow the entry and are not put in place. */
  predicate ResultDisplaces(t: Table, res: ScanRes, fetch: int, addr: Ptr, inPlace: bool, p: Ptr)
    requires p in t.heap
  {
    var ssid := Relevant(t, res, fetch);
    ssid.Some? &&
    var q: Ptr := Get(t, res.bssid, ssid.value);
    if q == NULL then t.num >= t.maxCount && GivesWay(Allocated(t, addr, ssid.value), p)
    else q == p && !Obsolete(t, t.heap[p], res, fetch) && Reallocates(t, t.heap[p], res) && !inPlace
  }

  /** The operation will remove the entry at `p` or move it elsewhere. */
  ghost predicate Displaces(t: Table, a: Op, p: Ptr) {
    p in t.heap &&
    match a
    case Result(res, fetch, addr, inPlace) => ResultDisplaces(t, res, fetch, addr, inPlace, p)
    case End(info, newScan) => newScan && !(info.Some? && info.value.aborted) && Expires(t, p, info)
    case Drop(q) => q == p
    case Flush => !InUse(t, p)
    case FlushOld(cutoff) => FlushedByAge(t, 0, cutoff, p)
    case _ => false
  }

  /** The entry at `p` is still there. */
  predicate Stays(t: Table, u: Table, p: Ptr)
    requires p in t.heap
  {
    p in u.heap && u.heap[p].id == t.heap[p].id
  }

  lemma AllocatedIs(t: Table, addr: Ptr, b: Bss, q: Ptr)
    requires addr !in t.heap && q in t.heap
    ensures var a := t.(heap := t.heap[addr := b], nextId := t.nextId + 1);
            Unknown(a, q) == Unknown(Allocated(t, addr, b.ssid), q) && InUse(a, q) == InUse(Allocated(t, addr, b.ssid), q)
  {}

  lemma SameVictim(a: Table, b: Table, p: Ptr)
    requires a.bss == b.bss && p != NULL
    requires forall q :: q in a.bss ==> Unknown(a, q) == Unknown(b, q) && InUse(a, q) == InUse(b, q)
    ensures Victim(a) == p <==> GivesWay(b, p)
  {
    FirstAgrees(a.bss, IsUnknown(a), IsUnknown(b));
    FirstAgrees(a.bss, IsIdle(a), IsIdle(b));
  }

  lemma VictimGivesWay(t: Table, addr: Ptr, ssid: Ssid, res: ScanRes, fetch: int, p: Ptr)
    requires Inv(t) && Fresh(t, addr) && p in t.heap
    ensures VictimOfAdd(t, addr, ssid, res, fetch) == p <==> GivesWay(Allocated(t, addr, ssid), p)
  {
    var n := NewBss(t, ssid, res, fetch);
    var a := t.(heap := t.heap[addr := n], nextId := t.nextId + 1);
    forall q | q in t.bss
      ensures Unknown(a, q) == Unknown(Allocated(t, addr, ssid), q) && InUse(a, q) == InUse(Allocated(t, addr, ssid), q)
    {
      AllocatedIs(t, addr, n, q);
    }
    SameVictim(a, Allocated(t, addr, ssid), p);
  }

  lemma AddDisplaces(t: Table, res: ScanRes, fetch: int, addr: Ptr, ssid: Ssid, p: Ptr)
    requires Inv(t) && Fresh(t, addr) && p in t.heap
    ensures t.num >= t.maxCount && GivesWay(Allocated(t, addr, ssid), p) <==> !Stays(t, Add(t, addr, ssid, res, fetch), p)
  {
    var v := VictimOfAdd(t, addr, ssid, res, fetch);
    AddIsInsert(t, addr, ssid, res, fetch);
    EvictedKeepsInv(t, v);
    VictimGivesWay(t, addr, ssid, res, fetch, p);
    assert Add(t, addr, ssid, res, fetch).heap == Evicted(t, v).heap[addr := NewBss(t, ssid, res, fetch)];
  }

  lemma UpdateDisplaces(t: Table, q: Ptr, res: ScanRes, fetch: int, moved: Ptr, p: Ptr)
    requires p in t.heap && q in t.heap && (moved == q || Fresh(t, moved))
    ensures q == p && !Obsolete(t, t.heap[p], res, fetch) && Reallocates(t, t.heap[p], res) && moved != q <==>
            !Stays(t, Update(t, q, res, fetch, moved), p)
  {}

  lemma ResultDisplacesIs(t: Table, res: ScanRes, fetch: int, addr: Ptr, inPlace: bool, p: Ptr)
    requires Inv(t) && Fresh(t, addr) && p in t.heap
    ensures ResultDisplaces(t, res, fetch, addr, inPlace, p) <==> !Stays(t, UpdateScanRes(t, res, fetch, addr, inPlace), p)
  {
    var ssid := Relevant(t, res, fetch);
    if ssid.Some? {
      var q: Ptr := Get(t, res.bssid, ssid.value);
      FirstIs(t.bss, IsFor(t, res.bssid, ssid.value));
      if q == NULL {
        AddDisplaces(t, res, fetch, addr, ssid.value, p);
      } else {
        var moved := if inPlace then q else addr;
        UpdateDisplaces(t, q, res, fetch, moved, p);
        assert UpdateScanRes(t, res, fetch, addr, inPlace).heap == Update(t, q, res, fetch, moved).heap;
      }
    }
  }

  /** What Displaces says before the operation is what happens. */
  lemma DisplacesIs(t: Table, a: Op, p: Ptr)
    requires Inv(t) && Enabled(t, a) && p in t.heap
    ensures Displaces(t, a, p) <==> !Stays(t, Next(t, a), p)
  {
    match a
    case Result(res, fetch, addr, inPlace) => ResultDisplacesIs(t, res, fetch, addr, inPlace, p);
    case End(info, newScan) => EndTreatsEach(t, info, newScan, p);
    case Flush =>
      FlushFromIs(t, 0, p);
      FlushShrinks(t, 0);
      assert t.bss[0..] == t.bss;
    case FlushOld(cutoff) =>
      FlushOldFromIs(t, 0, cutoff, p);
      FlushOldShrinks(t, 0, cutoff);
    case _ =>
  }

  /** An entry has an id that was there before, or the next one. */
  lemma ResultIdsAreOldOrNext(t: Table, res: ScanRes, fetch: int, addr: Ptr, inPlace: bool, q: Ptr)
    requires Inv(t) && Fresh(t, addr) && q in UpdateScanRes(t, res, fetch, addr, inPlace).heap
    ensures var id := UpdateScanRes(t, res, fetch, addr, inPlace).heap[q].id;
            id == t.nextId || exists p :: p in t.heap && t.heap[p].id == id
  {
    var ssid := Relevant(t, res, fetch);
    if ssid.Some? {
      var p: Ptr := Get(t, res.bssid, ssid.value);
      FirstIs(t.bss, IsFor(t, res.bssid, ssid.value));
      if p == NULL { AddTreatsEach(t, res, fetch, addr, ssid.value, q); }
    }
  }

  lemma IdsAreOldOrNext(t: Table, a: Op, q: Ptr)
    requires Inv(t) && Enabled(t, a) && q in Next(t, a).heap
    ensures var id := Next(t, a).heap[q].id; id == t.nextId || exists p :: p in t.heap && t.heap[p].id == id
  {
    if a.Result? {
      ResultIdsAreOldOrNext(t, a.res, a.fetch, a.addr, a.inPlace, q);
    } else {
      OthersKeepEntries(t, a, q);
    }
  }

  lemma PassedOverFollows(t: Table, a: Op, w: Work)
    requires Inv(t) && Enabled(t, a) && Follows(t.heap, w) && Issued(Some(w), t.nextId)
    ensures Follows(Next(t, a).heap, w) <==> !Displaces(t, a, w.bss)
  {
    if w.bss != NULL {
      DisplacesIs(t, a, w.bss);
    } else if w.entry.Some? {
      forall q | q in Next(t, a).heap ensures Next(t, a).heap[q].id != w.entry.value {
        IdsAreOldOrNext(t, a, q);
      }
    }
  }

  /**
   A connect work that follows its entry still does after an operation, exactly unless an sme-connect is pending
   and the operation removes or moves the entry.
   */
  lemma ConnectFollowsExactlyWhen(t: Table, a: Op)
    requires Inv(t) && Enabled(t, a) && t.link.connect.Some? && Follows(t.heap, t.link.connect.value)
    ensures var u := Next(t, a);
            u.link.connect.Some? ==>
              (Follows(u.heap, u.link.connect.value) <==> !(t.link.sme.Some? && Displaces(t, a, t.link.connect.value.bss)))
  {
    if a.Start? || a.Result? || a.End? || a.Drop? || a.Flush? || a.FlushOld? {
      NextPassesOver(t, a);
      if t.link.sme.Some? {
        PassedOverFollows(t, a, t.link.connect.value);
      } else {
        NextKeepsConnect(t, a);
      }
    }
  }

  /** At every point since it was queued, the connect work has followed its entry. */
  ghost predicate ConnectAlwaysFollows(config: Config, maxCount: nat, run: seq<Op>)
    requires Run(config, maxCount, run).Some?
  {
    var t := Run(config, maxCount, run).value;
    run != [] && t.link.connect.Some? ==>
      Follows(t.heap, t.link.connect.value) &&
      (run[|run| - 1].QueueConnect? || ConnectAlwaysFollows(config, maxCount, run[..|run| - 1]))
  }

  /** Since the connect work was queued, its entry was removed or moved while an sme-connect was pending. */
  ghost predicate ConnectWasPassedOver(config: Config, maxCount: nat, run: seq<Op>)
    requires Run(config, maxCount, run).Some?
  {
    && run != [] && Run(config, maxCount, run).value.link.connect.Some? && !run[|run| - 1].QueueConnect?
    && (var t := Run(config, maxCount, run[..|run| - 1]).value;
        || ConnectWasPassedOver(config, maxCount, run[..|run| - 1])
        || (t.link.sme.Some? && t.link.connect.Some? && Displaces(t, run[|run| - 1], t.link.connect.value.bss)))
  }

  lemma ConnectStays(t: Table, a: Op)
    requires Enabled(t, a) && !a.QueueConnect? && Next(t, a).link.connect.Some?
    ensures t.link.connect.Some?
  {
    if a.Start? || a.Result? || a.End? || a.Drop? || a.Flush? || a.FlushOld? { NextPassesOver(t, a); }
  }

  /**
   Over every run, a pending connect work has followed its entry since it was queued, exactly unless that entry
   was removed or moved while an sme-connect was pending too.
   */
  lemma {:induction false} ConnectFollowsOverRuns(config: Config, maxCount: nat, run: seq<Op>)
    requires Run(config, maxCount, run).Some?
    ensures ConnectAlwaysFollows(config, maxCount, run) <==> !ConnectWasPassedOver(config, maxCount, run)
  {
    if run != [] {
      var prior, a := run[..|run| - 1], run[|run| - 1];
      var t := Run(config, maxCount, prior).value;
      ConnectFollowsOverRuns(config, maxCount, prior);
      RunKeepsInv(config, maxCount, prior);
      if Run(config, maxCount, run).value.link.connect.Some? && !a.QueueConnect? {
        ConnectStays(t, a);
        if ConnectAlwaysFollows(config, maxCount, prior) {
          InitHasNoWork(config, maxCount, prior);
          ConnectFollowsExactlyWhen(t, a);
        }
      }
    }
  }

  lemma InitHasNoWork(config: Config, maxCount: nat, run: seq<Op>)
    requires Run(config, maxCount, run).Some? && Run(config, maxCount, run).value.link.connect.Some?
    ensures run != []
  {}

  // ---------- runs that show the limits ----------

  lemma Extend(config: Config, maxCount: nat, run: seq<Op>, a: Op)
    requires Run(config, maxCount, run).Some? && Enabled(Run(config, maxCount, run).value, a)
    ensures Run(config, maxCount, run + [a]) == Some(Next(Run(config, maxCount, run).value, a))
  {
    assert (run + [a])[..|run|] == run;
  }

  /** Nothing is configured and nothing is filtered. */
  ghost predicate Open(c: Config) {
    && c.networks == {} && !c.p2pInterface && !c.ignoreOld
    && (forall b :: c.accepts(b)) && (forall b, e :: !c.p2pPending(b, e))
    && (forall s, e :: !c.wpsCandidate(s, e)) && (forall e :: !c.hasP2p(e))
  }

  /** The scan result adds a first entry to an empty table. */
  lemma FirstHeard(config: Config, maxCount: nat, res: ScanRes, p: Ptr) returns (run: seq<Op>)
    requires Open(config) && maxCount > 0 && p != NULL
    requires res.ssid.Some? && |res.ssid.value| <= SSID_MAX_LEN && res.mesh.None?
    ensures Run(config, maxCount, run).Some?
    ensures var t := Run(config, maxCount, run).value;
            && t.heap == map[p := NewBss(Init(config, maxCount), res.ssid.value, res, 0)] && t.bss == [p] && t.num == 1
            && t.maxCount == maxCount && t.config == config && t.link == Init(config, maxCount).link
  {
    var t := Init(config, maxCount);
    var none: seq<Op> := [];
    assert Run(config, maxCount, none) == Some(t);
    var a := Result(res, 0, p, true);
    Extend(config, maxCount, none, a);
    run := none + [a];
    assert Relevant(t, res, 0) == res.ssid;
    assert Get(t, res.bssid, res.ssid.value) == NULL;
  }

  lemma NotFound(t: Table, p: Ptr, b: Bssid, ssid: Ssid)
    requires t.bss == [p] && !Matches(t, p, b, ssid)
    ensures Get(t, b, ssid) == NULL
  {
    assert t.bss[1..] == [];
    assert First(t.bss[1..], IsFor(t, b, ssid)) == NULL;
  }

  /** The scan result adds a second entry where there is room for it. */
  lemma SecondHeard(t: Table, res: ScanRes, p: Ptr, q: Ptr)
    requires Open(t.config) && t.bss == [p] && t.heap.Keys == {p} && t.num == 1 && t.maxCount > 1 && Fresh(t, q)
    requires res.ssid.Some? && |res.ssid.value| <= SSID_MAX_LEN && res.mesh.None? && t.heap[p].bssid != res.bssid
    ensures var u := Next(t, Result(res, 0, q, true));
            p in u.heap && q in u.heap && u.link == t.link && u.num == 2
  {
    assert Relevant(t, res, 0) == res.ssid;
    NotFound(t, p, res.bssid, res.ssid.value);
  }

  lemma QueuedThenDropped(config: Config, maxCount: nat, before: seq<Op>, p: Ptr, q: Ptr) returns (run: seq<Op>)
    requires Run(config, maxCount, before).Some?
    requires var t := Run(config, maxCount, before).value;
             p != q && p in t.heap && q in t.heap && t.link.sme.None? && t.link.connect.None? && t.num > 0
    ensures Run(config, maxCount, run).Some?
    ensures var t := Run(config, maxCount, before).value; var u := Run(config, maxCount, run).value;
            && u.link.connect == Some(Work(p, false, Some(t.heap[p].id))) && u.link.sme == Some(Work(q, false, Some(t.heap[q].id)))
            && u.heap == t.heap - {p}
  {
    Extend(config, maxCount, before, QueueConnect(p)); run := before + [QueueConnect(p)];
    Extend(config, maxCount, run, QueueSme(q)); run := run + [QueueSme(q)];
    Extend(config, maxCount, run, Drop(p)); run := run + [Drop(p)];
  }

  /** An entry is removed while both kinds of work are pending: the connect work is left pointing to freed memory. */
  lemma SecondWorkDangles(config: Config, r: ScanRes, s: ScanRes, p: Ptr, q: Ptr) returns (run: seq<Op>)
    requires Open(config) && p != q && p != NULL && q != NULL && r.bssid != s.bssid
    requires r.ssid.Some? && |r.ssid.value| <= SSID_MAX_LEN && r.mesh.None?
    requires s.ssid.Some? && |s.ssid.value| <= SSID_MAX_LEN && s.mesh.None?
    ensures Run(config, 200, run).Some?
    ensures var t := Run(config, 200, run).value;
            t.link.connect.Some? && t.link.connect.value.bss == p && !t.link.connect.value.removed && p !in t.heap
  {
    run := FirstHeard(config, 200, r, p);
    SecondHeard(Run(config, 200, run).value, s, p, q);
    Extend(config, 200, run, Result(s, 0, q, true)); run := run + [Result(s, 0, q, true)];
    run := QueuedThenDropped(config, 200, run, p, q);
  }

  /** A scan result evicts the current entry from a full table: the current-entry pointer is left dangling. */
  lemma CurrentDangles(config: Config, r: ScanRes, s: ScanRes, p: Ptr, q: Ptr) returns (run: seq<Op>)
    requires Open(config) && p != q && p != NULL && q != NULL && r.bssid != s.bssid
    requires r.ssid.Some? && |r.ssid.value| <= SSID_MAX_LEN && r.mesh.None?
    requires s.ssid.Some? && |s.ssid.value| <= SSID_MAX_LEN && s.mesh.None?
    ensures Run(config, 1, run).Some?
    ensures var t := Run(config, 1, run).value; t.link.current == p && p !in t.heap
  {
    run := FirstHeard(config, 1, r, p);
    Extend(config, 1, run, SetCurrent(p)); run := run + [SetCurrent(p)];
    var t := Run(config, 1, run).value;
    RunKeepsInv(config, 1, run);
    EvictsTheOnlyOne(t, s, p);
    Extend(config, 1, run, Result(s, 0, q, true));
    CurrentAfterNext(t, Result(s, 0, q, true));
    CurrentAfterResultIsSame(t, s, q);
    run := run + [Result(s, 0, q, true)];
  }

  lemma EvictsTheOnlyOne(t: Table, res: ScanRes, p: Ptr)
    requires Open(t.config) && t.bss == [p] && t.heap.Keys == {p} && t.num == 1 == t.maxCount && t.link.current == p && p != NULL
    requires res.ssid.Some? && |res.ssid.value| <= SSID_MAX_LEN && res.mesh.None? && t.heap[p].bssid != res.bssid
    ensures EvictsCurrent(t, res, 0)
  {
    assert Relevant(t, res, 0) == res.ssid;
    NotFound(t, p, res.bssid, res.ssid.value);
    assert Unknown(t, p);
  }

  lemma CurrentAfterResultIsSame(t: Table, res: ScanRes, q: Ptr)
    requires Inv(t) && Fresh(t, q) && t.link.current in t.heap && EvictsCurrent(t, res, 0)
    ensures Next(t, Result(res, 0, q, true)).link.current == t.link.current
  {
    CurrentAfterAdd(t, res, 0, q, Relevant(t, res, 0).value);
  }
}
