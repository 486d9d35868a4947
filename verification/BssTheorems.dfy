/** Capacity, eviction and expiry of the BSS table over every run. */
module BssTheorems {
  import opened Common
  import opened BssModel
  import opened BssInvariant
  import opened BssRuns

  // ---------- one entry per network ----------

  /** No two entries have the same BSSID and SSID. */
  ghost predicate KeysDistinct(heap: map<Ptr, Bss>) {
    forall p, q :: p in heap && q in heap && p != q ==>
      !(heap[p].bssid == heap[q].bssid && heap[p].ssid == heap[q].ssid)
  }

  lemma GetFindsKey(t: Table, bssid: Bssid, ssid: Ssid)
    requires Lists(t) && t.config.accepts(bssid)
    ensures var p := Get(t, bssid, ssid);
            if p == NULL then forall q :: q in t.heap ==> !Matches(t, q, bssid, ssid)
            else p in t.heap && Matches(t, p, bssid, ssid)
  {
    FirstIs(t.bss, IsFor(t, bssid, ssid));
    if Get(t, bssid, ssid) == NULL {
      forall q | q in t.heap ensures !Matches(t, q, bssid, ssid) {
        assert !IsFor(t, bssid, ssid)(q);
      }
    }
  }

  lemma NewKeyStaysDistinct(heap: map<Ptr, Bss>, rest: map<Ptr, Bss>, addr: Ptr, b: Bss)
    requires KeysDistinct(heap) && rest.Keys <= heap.Keys && forall p :: p in rest ==> rest[p] == heap[p]
    requires forall p :: p in heap ==> !(heap[p].bssid == b.bssid && heap[p].ssid == b.ssid)
    ensures KeysDistinct(rest[addr := b])
  {}

  lemma MovedKeyStaysDistinct(heap: map<Ptr, Bss>, p: Ptr, q: Ptr, b: Bss)
    requires KeysDistinct(heap) && p in heap && (q == p || q !in heap)
    requires b.bssid == heap[p].bssid && b.ssid == heap[p].ssid
    ensures KeysDistinct(Move(heap, p, q, b))
  {}

  lemma AddKeepsKeys(t: Table, res: ScanRes, fetch: int, addr: Ptr, ssid: Ssid)
    requires Inv(t) && Fresh(t, addr) && KeysDistinct(t.heap)
    requires forall q :: q in t.heap ==> !Matches(t, q, res.bssid, ssid)
    ensures KeysDistinct(Add(t, addr, ssid, res, fetch).heap)
  {
    var v := VictimOfAdd(t, addr, ssid, res, fetch);
    var b := NewBss(t, ssid, res, fetch);
    AddIsInsert(t, addr, ssid, res, fetch);
    EvictedKeepsInv(t, v);
    NewKeyStaysDistinct(t.heap, Evicted(t, v).heap, addr, b);
    assert Add(t, addr, ssid, res, fetch).heap == Evicted(t, v).heap[addr := b];
  }

  lemma UpdateKeepsKeys(t: Table, p: Ptr, res: ScanRes, fetch: int, moved: Ptr)
    requires p in t.heap && (moved == p || Fresh(t, moved)) && KeysDistinct(t.heap) && t.heap[p].bssid == res.bssid
    ensures KeysDistinct(Update(t, p, res, fetch, moved).heap)
  {
    if !Obsolete(t, t.heap[p], res, fetch) {
      MovedKeyStaysDistinct(t.heap, p, Home(t, p, res, fetch, moved), Refreshed(t, t.heap[p], res, fetch));
    }
  }

  lemma ResultKeepsKeys(t: Table, res: ScanRes, fetch: int, addr: Ptr, inPlace: bool)
    requires Inv(t) && Fresh(t, addr) && KeysDistinct(t.heap) && t.config.accepts(res.bssid)
    ensures KeysDistinct(UpdateScanRes(t, res, fetch, addr, inPlace).heap)
  {
    var ssid := Relevant(t, res, fetch);
    if ssid.Some? {
      var p: Ptr := Get(t, res.bssid, ssid.value);
      GetFindsKey(t, res.bssid, ssid.value);
      if p == NULL {
        AddKeepsKeys(t, res, fetch, addr, ssid.value);
      } else {
        UpdateKeepsKeys(t, p, res, fetch, if inPlace then p else addr);
      }
    }
  }

  /** The BSSID filter accepts the BSSID of every scan result in the run. */
  ghost predicate Accepted(config: Config, maxCount: nat, run: seq<Op>) {
    Run(config, maxCount, run).Some? && forall k :: 0 <= k < |run| && run[k].Result? ==>
      Run(config, maxCount, run[..k]).Some? &&
      Run(config, maxCount, run[..k]).value.config.accepts(run[k].res.bssid)
  }

  lemma AcceptedPrefix(config: Config, maxCount: nat, run: seq<Op>)
    requires run != [] && Accepted(config, maxCount, run)
    ensures Accepted(config, maxCount, run[..|run| - 1])
  {
    var before := run[..|run| - 1];
    forall k | 0 <= k < |before| ensures before[..k] == run[..k] {}
  }

  lemma {:induction false} KeysStayDistinct(config: Config, maxCount: nat, run: seq<Op>)
    requires Accepted(config, maxCount, run)
    ensures KeysDistinct(Run(config, maxCount, run).value.heap)
  {
    if run != [] {
      var prior, a := run[..|run| - 1], run[|run| - 1];
      AcceptedPrefix(config, maxCount, run);
      KeysStayDistinct(config, maxCount, prior);
      RunKeepsInv(config, maxCount, prior);
      var t := Run(config, maxCount, prior).value;
      if a.Result? {
        ResultKeepsKeys(t, a.res, a.fetch, a.addr, a.inPlace);
      } else {
        OthersKeepKeys(t, a);
      }
    }
  }

  /** No other operation adds an entry, moves one, or changes the id or the key of one. */
  lemma OthersKeepEntries(t: Table, a: Op, p: Ptr)
    requires Inv(t) && Enabled(t, a) && !a.Result? && p in Next(t, a).heap
    ensures p in t.heap && SameIdentity(t.heap[p], Next(t, a).heap[p])
  {
    if a.End? {
      EndTreatsEach(t, a.info, a.newScan, p);
    } else if a.Flush? {
      FlushShrinks(t, 0);
    } else if a.FlushOld? {
      FlushOldShrinks(t, 0, a.cutoff);
    }
  }

  predicate SameIdentity(b: Bss, c: Bss) {
    c.id == b.id && c.bssid == b.bssid && c.ssid == b.ssid
  }

  lemma OthersKeepKeys(t: Table, a: Op)
    requires Inv(t) && Enabled(t, a) && !a.Result? && KeysDistinct(t.heap)
    ensures KeysDistinct(Next(t, a).heap)
  {
    forall p | p in Next(t, a).heap ensures p in t.heap && SameIdentity(t.heap[p], Next(t, a).heap[p]) {
      OthersKeepEntries(t, a, p);
    }
  }

  lemma {:induction false} FlushShrinks(t: Table, i: nat)
    ensures FlushFrom(t, i).heap.Keys <= t.heap.Keys && FlushFrom(t, i).maxCount == t.maxCount
    ensures FlushFrom(t, i).config == t.config && FlushFrom(t, i).link.current == t.link.current && FlushFrom(t, i).num <= t.num
    ensures forall p :: p in FlushFrom(t, i).heap ==> FlushFrom(t, i).heap[p] == t.heap[p]
    decreases |t.bss| - i
  {
    if i < |t.bss| {
      if InUse(t, t.bss[i]) || t.num == 0 {
        FlushShrinks(t, i + 1);
      } else {
        UnlinkShortens(t.bss, t.bss[i]);
        FlushShrinks(Remove(t, t.bss[i]), i);
      }
    }
  }

  lemma {:induction false} FlushOldShrinks(t: Table, i: nat, cutoff: int)
    ensures FlushOldFrom(t, i, cutoff).heap.Keys <= t.heap.Keys && FlushOldFrom(t, i, cutoff).maxCount == t.maxCount
    ensures FlushOldFrom(t, i, cutoff).config == t.config && FlushOldFrom(t, i, cutoff).num <= t.num
    ensures FlushOldFrom(t, i, cutoff).link.current == t.link.current
    ensures forall p :: p in FlushOldFrom(t, i, cutoff).heap ==> FlushOldFrom(t, i, cutoff).heap[p] == t.heap[p]
    decreases |t.bss| - i
  {
    if i < |t.bss| && t.bss[i] in t.heap {
      if InUse(t, t.bss[i]) {
        FlushOldShrinks(t, i + 1, cutoff);
      } else if t.heap[t.bss[i]].lastUpdate < cutoff && t.num > 0 {
        UnlinkShortens(t.bss, t.bss[i]);
        FlushOldShrinks(Remove(t, t.bss[i]), i, cutoff);
      }
    }
  }

  // ---------- capacity ----------

  /** Why an entry is in use: it is the current one, or has the current SSID and one of two BSSIDs. */
  function Reason(t: Table, p: Ptr): nat {
    if p == t.link.current then 0
    else if p in t.heap && t.heap[p].bssid == t.link.own then 1
    else 2
  }

  lemma SameReason(t: Table, p: Ptr, q: Ptr)
    requires t.link.current != NULL && p in t.heap && q in t.heap && p != q
    requires InUse(t, p) && InUse(t, q) && Reason(t, p) == Reason(t, q)
    ensures t.heap[p].bssid == t.heap[q].bssid && t.heap[p].ssid == t.heap[q].ssid
  {}

  /** With distinct keys and a current entry set, at most three of any four entries are in use. */
  lemma AtMostThreeInUse(t: Table, s: seq<Ptr>)
    requires t.link.current != NULL && NoDup(s) && |s| >= 4
    requires forall p :: p in s ==> p in t.heap
    requires forall p, q :: p in s && q in s && p != q ==>
               !(t.heap[p].bssid == t.heap[q].bssid && t.heap[p].ssid == t.heap[q].ssid)
    ensures exists p :: p in s && !InUse(t, p)
  {
    assert s[0] in s && s[1] in s && s[2] in s && s[3] in s;
    assert exists i, j :: 0 <= i < j < 4 && Reason(t, s[i]) == Reason(t, s[j]) by {
      assert Reason(t, s[0]) < 3 && Reason(t, s[1]) < 3 && Reason(t, s[2]) < 3 && Reason(t, s[3]) < 3;
    }
    var i, j :| 0 <= i < j < 4 && Reason(t, s[i]) == Reason(t, s[j]);
    if InUse(t, s[i]) && InUse(t, s[j]) { SameReason(t, s[i], s[j]); }
  }

  /** A full table with a current entry, distinct keys and room for at least four can always evict. */
  lemma FullTableHasVictim(t: Table, addr: Ptr, ssid: Ssid, res: ScanRes, fetch: int)
    requires Inv(t) && Fresh(t, addr) && KeysDistinct(t.heap)
    requires t.link.current != NULL && t.num >= 4
    ensures VictimOfAdd(t, addr, ssid, res, fetch) != NULL
  {
    var a := t.(heap := t.heap[addr := NewBss(t, ssid, res, fetch)], nextId := t.nextId + 1);
    if Victim(a) == NULL {
      FirstIs(a.bss, IsUnknown(a));
      FirstIs(a.bss, IsIdle(a));
      AtMostThreeInUse(a, a.bss);
    }
  }

  /** The limit changes only if the table is full and there is nothing to evict; then it is one more than what was stored. */
  lemma LimitAfterResult(t: Table, res: ScanRes, fetch: int, addr: Ptr, inPlace: bool)
    requires Inv(t) && Fresh(t, addr)
    ensures var u := UpdateScanRes(t, res, fetch, addr, inPlace);
            var ssid := Relevant(t, res, fetch);
            u.maxCount == if ssid.Some? && Get(t, res.bssid, ssid.value) == NULL && t.num >= t.maxCount
                             && VictimOfAdd(t, addr, ssid.value, res, fetch) == NULL
                          then t.num + 1 else t.maxCount
  {
    var ssid := Relevant(t, res, fetch);
    if ssid.Some? && Get(t, res.bssid, ssid.value) == NULL {
      AddIsInsert(t, addr, ssid.value, res, fetch);
    }
  }

  /**
   A scan result adds at most one entry, and none beyond the limit: a table that is over its limit because that
   was lowered does not grow, though it shrinks no further either.
   */
  lemma NumAfterResult(t: Table, res: ScanRes, fetch: int, addr: Ptr, inPlace: bool)
    requires Inv(t) && Fresh(t, addr)
    ensures var u := UpdateScanRes(t, res, fetch, addr, inPlace);
            var ssid := Relevant(t, res, fetch);
            u.num == if ssid.Some? && Get(t, res.bssid, ssid.value) == NULL && t.num < u.maxCount then t.num + 1 else t.num
  {
    var ssid := Relevant(t, res, fetch);
    if ssid.Some? && Get(t, res.bssid, ssid.value) == NULL {
      AddIsInsert(t, addr, ssid.value, res, fetch);
    }
  }

  lemma OthersKeepNum(t: Table, a: Op)
    requires Inv(t) && Enabled(t, a) && !a.Result?
    ensures Next(t, a).num <= t.num
  {
    if a.End? && Next(t, a) != t { ExpireFromShrinks(t, 0, a.info); }
    if a.Flush? { FlushShrinks(t, 0); }
    if a.FlushOld? { FlushOldShrinks(t, 0, a.cutoff); }
  }

  lemma {:induction false} ExpireFromShrinks(t: Table, i: nat, info: Option<ScanInfo>)
    ensures ExpireFrom(t, i, info).num <= t.num
    decreases |t.bss| - i
  {
    if i < |t.bss| {
      var (u, j) := ExpireTurn(t, i, info);
      ExpireFromShrinks(u, j, info);
    }
  }

  /** No operation takes the number of entries beyond the limit: it only stays there if it was there. */
  lemma NumAfterNext(t: Table, a: Op)
    requires Inv(t) && Enabled(t, a)
    ensures Next(t, a).num <= t.num || Next(t, a).num <= Next(t, a).maxCount
  {
    if a.Result? {
      NumAfterResult(t, a.res, a.fetch, a.addr, a.inPlace);
    } else {
      OthersKeepNum(t, a);
    }
  }

  /** As long as nobody lowers the limit, the table is within it. */
  lemma {:induction false} NumIsWithinLimit(config: Config, maxCount: nat, run: seq<Op>)
    requires Run(config, maxCount, run).Some? && forall k :: 0 <= k < |run| ==> !run[k].SetLimit?
    ensures Run(config, maxCount, run).value.num <= Run(config, maxCount, run).value.maxCount
  {
    if run != [] {
      var prior, a := run[..|run| - 1], run[|run| - 1];
      var t := Run(config, maxCount, prior).value;
      NumIsWithinLimit(config, maxCount, prior);
      RunKeepsInv(config, maxCount, prior);
      NumAfterNext(t, a);
      if a.Result? {
        LimitAfterResult(t, a.res, a.fetch, a.addr, a.inPlace);
      } else {
        OthersKeepLimit(t, a);
        OthersKeepNum(t, a);
      }
    }
  }

  lemma OthersKeepLimit(t: Table, a: Op)
    requires Inv(t) && Enabled(t, a) && !a.Result? && !a.SetLimit?
    ensures Next(t, a).maxCount == t.maxCount
  {
    if a.End? { ExpireFromIs(t, 0, a.info); }
    if a.Flush? { FlushShrinks(t, 0); }
    if a.FlushOld? { FlushOldShrinks(t, 0, a.cutoff); }
  }

  /** Whenever a scan result comes in, some entry is current. */
  ghost predicate Connected(config: Config, maxCount: nat, run: seq<Op>) {
    forall k :: 0 <= k < |run| && run[k].Result? ==>
      Run(config, maxCount, run[..k]).Some? && Run(config, maxCount, run[..k]).value.link.current != NULL
  }

  /**
   The limit is never raised in a run whose scan results pass the filter and come in while an entry
   is current, if the limit is at least four and nobody sets another one.
   */
  lemma {:induction false} LimitIsKept(config: Config, maxCount: nat, run: seq<Op>)
    requires maxCount >= 4 && Accepted(config, maxCount, run) && Connected(config, maxCount, run)
    requires forall k :: 0 <= k < |run| ==> !run[k].SetLimit?
    ensures Run(config, maxCount, run).value.maxCount == maxCount
    ensures Run(config, maxCount, run).value.num <= maxCount
  {
    NumIsWithinLimit(config, maxCount, run);
    if run != [] {
      var prior, a := run[..|run| - 1], run[|run| - 1];
      AcceptedPrefix(config, maxCount, run);
      assert Connected(config, maxCount, prior) by {
        forall k | 0 <= k < |prior| ensures prior[..k] == run[..k] {}
      }
      LimitIsKept(config, maxCount, prior);
      RunKeepsInv(config, maxCount, prior);
      KeysStayDistinct(config, maxCount, prior);
      var t := Run(config, maxCount, prior).value;
      if a.Result? {
        LimitAfterResult(t, a.res, a.fetch, a.addr, a.inPlace);
        var ssid := Relevant(t, a.res, a.fetch);
        if ssid.Some? && t.num >= t.maxCount { FullTableHasVictim(t, a.addr, ssid.value, a.res, a.fetch); }
      } else {
        OthersKeepLimit(t, a);
      }
    }
  }

  // ---------- the current entry ----------

  /**
   The scan result adds an entry to a full table in which the current entry is the first one, in refresh order,
   that is neither a configured network nor a WPS candidate.
   */
  predicate EvictsCurrent(t: Table, res: ScanRes, fetch: int) {
    var ssid := Relevant(t, res, fetch);
    && ssid.Some? && Get(t, res.bssid, ssid.value) == NULL && t.num >= t.maxCount
    && First(t.bss, IsUnknown(t)) == t.link.current
  }

  lemma {:induction false} FirstAgrees(s: seq<Ptr>, f: Ptr -> bool, g: Ptr -> bool)
    requires forall p :: p in s ==> f(p) == g(p)
    ensures First(s, f) == First(s, g)
  {
    if s != [] {
      FirstAgrees(s[1..], f, g);
    }
  }

  /** The current entry is in use, so it gives way exactly if it is the first unknown one. */
  lemma CurrentAsVictim(t: Table)
    requires NULL !in t.bss && t.link.current != NULL
    ensures Victim(t) == t.link.current <==> First(t.bss, IsUnknown(t)) == t.link.current
  {
    FirstIs(t.bss, IsUnknown(t));
    FirstIs(t.bss, IsIdle(t));
  }

  lemma CurrentGivesWay(t: Table, res: ScanRes, fetch: int, addr: Ptr, ssid: Ssid)
    requires Inv(t) && Fresh(t, addr) && t.link.current in t.heap
    ensures VictimOfAdd(t, addr, ssid, res, fetch) == t.link.current <==> First(t.bss, IsUnknown(t)) == t.link.current
  {
    var a := t.(heap := t.heap[addr := NewBss(t, ssid, res, fetch)], nextId := t.nextId + 1);
    CurrentAsVictim(a);
    FirstAgrees(t.bss, IsUnknown(t), IsUnknown(a));
  }

  lemma CurrentAfterAdd(t: Table, res: ScanRes, fetch: int, addr: Ptr, ssid: Ssid)
    requires Inv(t) && Fresh(t, addr) && t.link.current in t.heap
    ensures var u := Add(t, addr, ssid, res, fetch);
            && u.link.current == t.link.current
            && (u.link.current !in u.heap <==> t.num >= t.maxCount && First(t.bss, IsUnknown(t)) == t.link.current)
            && (u.link.current in u.heap ==> u.heap[u.link.current] == t.heap[t.link.current])
  {
    AddIsInsert(t, addr, ssid, res, fetch);
    CurrentGivesWay(t, res, fetch, addr, ssid);
  }

  lemma CurrentAfterUpdate(t: Table, p: Ptr, res: ScanRes, fetch: int, addr: Ptr)
    requires Inv(t) && (addr == p || Fresh(t, addr)) && t.link.current in t.heap && p in t.heap
    ensures var u := Update(t, p, res, fetch, addr);
            u.link.current in u.heap && u.heap[u.link.current].id == t.heap[t.link.current].id
  {}

  /**
   A scan result keeps the current-entry pointer on its entry, also when it moves that entry, except that a
   full table evicts the current entry if that is the first unknown one.
   */
  lemma CurrentAfterResult(t: Table, res: ScanRes, fetch: int, addr: Ptr, inPlace: bool)
    requires Inv(t) && Fresh(t, addr) && t.link.current in t.heap
    ensures var u := UpdateScanRes(t, res, fetch, addr, inPlace);
            && (u.link.current !in u.heap <==> EvictsCurrent(t, res, fetch))
            && (u.link.current in u.heap ==> u.heap[u.link.current].id == t.heap[t.link.current].id)
  {
    var ssid := Relevant(t, res, fetch);
    if ssid.Some? {
      var p: Ptr := Get(t, res.bssid, ssid.value);
      FirstIs(t.bss, IsFor(t, res.bssid, ssid.value));
      if p == NULL {
        CurrentAfterAdd(t, res, fetch, addr, ssid.value);
      } else {
        CurrentAfterUpdate(t, p, res, fetch, if inPlace then p else addr);
      }
    }
  }

  /** Expiry and flushing leave the current entry alone, because it is in use. */
  lemma CurrentAfterOther(t: Table, a: Op)
    requires Inv(t) && Enabled(t, a) && !a.Result? && !a.Drop? && !a.SetCurrent? && t.link.current in t.heap
    ensures var u := Next(t, a);
            u.link.current == t.link.current && u.link.current in u.heap && u.heap[u.link.current].id == t.heap[t.link.current].id
  {
    if a.End? {
      ExpireFromIs(t, 0, a.info);
      EndTreatsEach(t, a.info, a.newScan, t.link.current);
    } else if a.Flush? {
      FlushFromIs(t, 0, t.link.current);
      FlushShrinks(t, 0);
    } else if a.FlushOld? {
      FlushOldKeepsCurrent(t, 0, a.cutoff);
      FlushOldShrinks(t, 0, a.cutoff);
    }
  }

  lemma {:induction false} FlushOldKeepsCurrent(t: Table, i: nat, cutoff: int)
    requires t.link.current in t.heap
    ensures t.link.current in FlushOldFrom(t, i, cutoff).heap
    decreases |t.bss| - i
  {
    if i < |t.bss| && t.bss[i] in t.heap {
      if InUse(t, t.bss[i]) {
        FlushOldKeepsCurrent(t, i + 1, cutoff);
      } else if t.heap[t.bss[i]].lastUpdate < cutoff && t.num > 0 {
        UnlinkShortens(t.bss, t.bss[i]);
        FlushOldKeepsCurrent(Remove(t, t.bss[i]), i, cutoff);
      }
    }
  }

  /** This operation frees the entry that is current. */
  predicate FreesCurrent(t: Table, a: Op) {
    (a.Result? && EvictsCurrent(t, a.res, a.fetch)) || a == Drop(t.link.current)
  }

  /** Each operation keeps the current-entry pointer on the same entry unless it frees that entry. */
  lemma CurrentAfterNext(t: Table, a: Op)
    requires Inv(t) && Enabled(t, a) && !a.SetCurrent? && t.link.current in t.heap
    ensures var u := Next(t, a);
            && (u.link.current !in u.heap <==> FreesCurrent(t, a))
            && (u.link.current in u.heap ==> u.heap[u.link.current].id == t.heap[t.link.current].id)
  {
    if a.Result? {
      CurrentAfterResult(t, a.res, a.fetch, a.addr, a.inPlace);
    } else if !a.Drop? {
      CurrentAfterOther(t, a);
    }
  }

  /** At every point since it was set last, the current-entry pointer is live or NULL. */
  ghost predicate CurrentAlwaysLive(config: Config, maxCount: nat, run: seq<Op>)
    requires Run(config, maxCount, run).Some?
  {
    run == [] ||
    (LivePtr(Run(config, maxCount, run).value, Run(config, maxCount, run).value.link.current) &&
     (run[|run| - 1].SetCurrent? || CurrentAlwaysLive(config, maxCount, run[..|run| - 1])))
  }

  /** Since the current entry was set last, it was freed. */
  ghost predicate CurrentWasFreed(config: Config, maxCount: nat, run: seq<Op>)
    requires Run(config, maxCount, run).Some?
  {
    run != [] && !run[|run| - 1].SetCurrent? &&
    (CurrentWasFreed(config, maxCount, run[..|run| - 1]) ||
     (var t := Run(config, maxCount, run[..|run| - 1]).value;
      t.link.current != NULL && FreesCurrent(t, run[|run| - 1])))
  }

  /** Over every run, the current-entry pointer has been live or NULL since it was set exactly if no operation freed its entry. */
  lemma {:induction false} CurrentIsLiveExactlyWhen(config: Config, maxCount: nat, run: seq<Op>)
    requires Run(config, maxCount, run).Some?
    ensures CurrentAlwaysLive(config, maxCount, run) <==> !CurrentWasFreed(config, maxCount, run)
  {
    if run != [] {
      var prior, a := run[..|run| - 1], run[|run| - 1];
      var t := Run(config, maxCount, prior).value;
      CurrentIsLiveExactlyWhen(config, maxCount, prior);
      RunKeepsInv(config, maxCount, run);
      RunKeepsInv(config, maxCount, prior);
      if !a.SetCurrent? && CurrentAlwaysLive(config, maxCount, prior) {
        if t.link.current == NULL {
          NullCurrentStays(t, a);
        } else {
          CurrentAfterNext(t, a);
        }
      }
    }
  }

  lemma NullCurrentStays(t: Table, a: Op)
    requires Inv(t) && Enabled(t, a) && !a.SetCurrent? && t.link.current == NULL
    ensures Next(t, a).link.current == NULL
  {
    if a.Result? {
      var ssid := Relevant(t, a.res, a.fetch);
      if ssid.Some? { FirstIs(t.bss, IsFor(t, a.res.bssid, ssid.value)); }
    }
    if a.End? { ExpireFromIs(t, 0, a.info); }
    if a.Flush? { FlushShrinks(t, 0); }
    if a.FlushOld? { FlushOldShrinks(t, 0, a.cutoff); }
  }

  // ---------- expiry ----------

  /** This round counts against the entry: it covers it, it is not in use and was not refreshed. */
  predicate CountsAgainst(t: Table, p: Ptr, info: Option<ScanInfo>, newScan: bool) {
    newScan && !(info.Some? && info.value.aborted) && Covered(t, p, info) && t.heap[p].updateIdx < t.updateIdx
  }

  /** The scan result adds or refreshes the entry with this id. */
  predicate Refreshes(t: Table, res: ScanRes, fetch: int, id: nat) {
    var ssid := Relevant(t, res, fetch);
    ssid.Some? &&
    var p: Ptr := Get(t, res.bssid, ssid.value);
    if p == NULL then id == t.nextId
    else p in t.heap && t.heap[p].id == id && !Obsolete(t, t.heap[p], res, fetch)
  }

  /** In how many rounds that count against it the entry with this id has gone unrefreshed. */
  ghost function Unrefreshed(config: Config, maxCount: nat, run: seq<Op>, id: nat): nat
    requires Run(config, maxCount, run).Some?
  {
    if run == [] then 0
    else
      var prior, a := run[..|run| - 1], run[|run| - 1];
      var t := Run(config, maxCount, prior).value;
      var n := Unrefreshed(config, maxCount, prior, id);
      if a.Result? && Refreshes(t, a.res, a.fetch, id) then 0
      else if a.End? && HasCount(t, id, a.info, a.newScan) then n + 1
      else n
  }

  ghost predicate HasCount(t: Table, id: nat, info: Option<ScanInfo>, newScan: bool) {
    exists p :: p in t.heap && t.heap[p].id == id && CountsAgainst(t, p, info, newScan)
  }

  /** The end of a round settles each entry by itself. */
  lemma EndTreatsEach(t: Table, info: Option<ScanInfo>, newScan: bool, p: Ptr)
    requires Inv(t)
    ensures var u := UpdateEnd(t, info, newScan);
            Lookup(u, p) == if newScan && !(info.Some? && info.value.aborted) then Fate(t, p, true, info) else Lookup(t, p)
  {
    ExpireFromIs(t, 0, info);
    assert t.bss[0..] == t.bss;
  }

  lemma HasCountIs(t: Table, p: Ptr, info: Option<ScanInfo>, newScan: bool)
    requires Inv(t) && p in t.heap
    ensures HasCount(t, t.heap[p].id, info, newScan) <==> CountsAgainst(t, p, info, newScan)
  {
    if HasCount(t, t.heap[p].id, info, newScan) {
      var q :| q in t.heap && t.heap[q].id == t.heap[p].id && CountsAgainst(t, q, info, newScan);
      IdsAreUnique(t, p, q);
    }
  }

  lemma AddTreatsEach(t: Table, res: ScanRes, fetch: int, addr: Ptr, ssid: Ssid, q: Ptr)
    requires Inv(t) && Fresh(t, addr) && q in Add(t, addr, ssid, res, fetch).heap
    ensures var b := Add(t, addr, ssid, res, fetch).heap[q];
            if q == addr then b.id == t.nextId && b.miss == 0 else q in t.heap && t.heap[q] == b && b.id < t.nextId
  {
    AddIsInsert(t, addr, ssid, res, fetch);
    EvictedKeepsInv(t, VictimOfAdd(t, addr, ssid, res, fetch));
  }

  lemma UpdateTreatsEach(t: Table, p: Ptr, res: ScanRes, fetch: int, moved: Ptr, q: Ptr)
    requires Inv(t) && p in t.heap && (moved == p || Fresh(t, moved)) && q in Update(t, p, res, fetch, moved).heap
    ensures var b := Update(t, p, res, fetch, moved).heap[q];
            if !Obsolete(t, t.heap[p], res, fetch) && b.id == t.heap[p].id then b.miss == 0
            else q in t.heap && t.heap[q] == b
  {
    if q in t.heap && t.heap[q].id == t.heap[p].id { IdsAreUnique(t, p, q); }
  }

  /** A scan result leaves every entry alone that it does not refresh, unless it evicts it. */
  lemma ResultTreatsEach(t: Table, res: ScanRes, fetch: int, addr: Ptr, inPlace: bool, q: Ptr)
    requires Inv(t) && Fresh(t, addr) && q in UpdateScanRes(t, res, fetch, addr, inPlace).heap
    ensures var b := UpdateScanRes(t, res, fetch, addr, inPlace).heap[q];
            if Refreshes(t, res, fetch, b.id) then b.miss == 0
            else exists p :: p in t.heap && t.heap[p] == b
  {
    var ssid := Relevant(t, res, fetch);
    if ssid.Some? {
      var p: Ptr := Get(t, res.bssid, ssid.value);
      FirstIs(t.bss, IsFor(t, res.bssid, ssid.value));
      if p == NULL {
        AddTreatsEach(t, res, fetch, addr, ssid.value, q);
      } else {
        UpdateTreatsEach(t, p, res, fetch, if inPlace then p else addr, q);
      }
    }
  }

  /** The other operations only remove entries. */
  lemma OthersTreatEach(t: Table, a: Op, q: Ptr)
    requires Inv(t) && Enabled(t, a) && !a.Result? && !a.End? && q in Next(t, a).heap
    ensures q in t.heap && Next(t, a).heap[q] == t.heap[q]
  {
    if a.Flush? { FlushShrinks(t, 0); }
    if a.FlushOld? { FlushOldShrinks(t, 0, a.cutoff); }
  }

  /** The stored miss count is the number of counted rounds since the last refresh, through moves and all. */
  lemma {:induction false} MissCountIsHistory(config: Config, maxCount: nat, run: seq<Op>, q: Ptr)
    requires Run(config, maxCount, run).Some? && q in Run(config, maxCount, run).value.heap
    ensures var b := Run(config, maxCount, run).value.heap[q]; b.miss == Unrefreshed(config, maxCount, run, b.id)
  {
    if run != [] {
      var prior, a := run[..|run| - 1], run[|run| - 1];
      var t := Run(config, maxCount, prior).value;
      RunKeepsInv(config, maxCount, prior);
      if a.Result? {
        ResultTreatsEach(t, a.res, a.fetch, a.addr, a.inPlace, q);
        var b := Next(t, a).heap[q];
        if !Refreshes(t, a.res, a.fetch, b.id) {
          var p :| p in t.heap && t.heap[p] == b;
          MissCountIsHistory(config, maxCount, prior, p);
        }
      } else if a.End? {
        EndKeepsHistory(t, a.info, a.newScan, q);
        MissCountIsHistory(config, maxCount, prior, q);
      } else {
        OthersTreatEach(t, a, q);
        MissCountIsHistory(config, maxCount, prior, q);
      }
    }
  }

  lemma EndKeepsHistory(t: Table, info: Option<ScanInfo>, newScan: bool, q: Ptr)
    requires Inv(t) && q in UpdateEnd(t, info, newScan).heap
    ensures q in t.heap
    ensures var b := UpdateEnd(t, info, newScan).heap[q];
            && b.id == t.heap[q].id
            && b.miss == t.heap[q].miss + if HasCount(t, b.id, info, newScan) then 1 else 0
  {
    EndTreatsEach(t, info, newScan, q);
    HasCountIs(t, q, info, newScan);
  }

  /** For a threshold of at least one, every stored entry is below it. */
  lemma {:induction false} MissCountBelowThreshold(config: Config, maxCount: nat, run: seq<Op>, q: Ptr)
    requires config.expiry >= 1
    requires Run(config, maxCount, run).Some?
    ensures Run(config, maxCount, run).value.config.expiry == config.expiry
    ensures q in Run(config, maxCount, run).value.heap ==>
              Run(config, maxCount, run).value.heap[q].miss < config.expiry
  {
    if run != [] {
      var prior, a := run[..|run| - 1], run[|run| - 1];
      var t := Run(config, maxCount, prior).value;
      RunKeepsInv(config, maxCount, prior);
      MissCountBelowThreshold(config, maxCount, prior, q);
      NextKeepsThreshold(t, a);
      if q in Next(t, a).heap {
        if a.Result? {
          ResultTreatsEach(t, a.res, a.fetch, a.addr, a.inPlace, q);
          var b := Next(t, a).heap[q];
          if !Refreshes(t, a.res, a.fetch, b.id) {
            var p :| p in t.heap && t.heap[p] == b;
            MissCountBelowThreshold(config, maxCount, prior, p);
          }
        } else if a.End? {
          EndKeepsHistory(t, a.info, a.newScan, q);
          EndTreatsEach(t, a.info, a.newScan, q);
        } else {
          OthersTreatEach(t, a, q);
        }
      }
    }
  }

  lemma NextKeepsThreshold(t: Table, a: Op)
    requires Inv(t) && Enabled(t, a)
    ensures Next(t, a).config.expiry == t.config.expiry
  {
    if a.End? { ExpireFromIs(t, 0, a.info); }
    if a.Flush? { FlushShrinks(t, 0); }
    if a.FlushOld? { FlushOldShrinks(t, 0, a.cutoff); }
  }

  /**
   The end of a round drops exactly the entries that have now gone unrefreshed through as many
   counted rounds as the threshold says; so never one that was refreshed in its own round.
   */
  lemma DroppedExactlyAtThreshold(config: Config, maxCount: nat, run: seq<Op>, info: Option<ScanInfo>, newScan: bool, p: Ptr)
    requires config.expiry >= 1
    requires Run(config, maxCount, run).Some? && p in Run(config, maxCount, run).value.heap
    ensures Run(config, maxCount, run + [End(info, newScan)]).Some?
    ensures var t := Run(config, maxCount, run).value;
            var u := Run(config, maxCount, run + [End(info, newScan)]).value;
            && (p !in u.heap <==>
                  Unrefreshed(config, maxCount, run + [End(info, newScan)], t.heap[p].id) == config.expiry)
            && (t.heap[p].updateIdx == t.updateIdx ==> p in u.heap)
  {
    var t := Run(config, maxCount, run).value;
    var after := run + [End(info, newScan)];
    assert after[..|run|] == run;
    RunKeepsInv(config, maxCount, run);
    MissCountIsHistory(config, maxCount, run, p);
    MissCountBelowThreshold(config, maxCount, run, p);
    EndTreatsEach(t, info, newScan, p);
    HasCountIs(t, p, info, newScan);
  }
}
