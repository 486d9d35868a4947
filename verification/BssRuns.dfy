/** Runs of the BSS table: everything that can happen to it, in any order. */
module BssRuns {
  import opened Common
  import opened BssModel
  import opened BssInvariant

  datatype Op =
    | Start
    | Result(res: ScanRes, fetch: int, addr: Ptr, inPlace: bool)
    | End(info: Option<ScanInfo>, newScan: bool)
    | Drop(p: Ptr)
    | Flush
    | FlushOld(cutoff: int)
    | SetCurrent(p: Ptr)
    | SetBssids(own: Bssid, pending: Bssid)
    | QueueSme(p: Ptr)
    | QueueConnect(p: Ptr)
    | WorkDone(sme: bool, connect: bool)
    | Reconfigure(config: Config)
    | SetLimit(n: nat)

  predicate LivePtr(t: Table, p: Ptr) {
    p == NULL || p in t.heap
  }

  /**
   The allocator returns a free address and callers pass live entries. A new sme-connect replaces an older one,
   and a connect is only queued if none is pending; either may be queued while the other is.
   */
  predicate Enabled(t: Table, a: Op) {
    match a
    case Result(_, _, addr, _) => Fresh(t, addr)
    case Drop(p) => p in t.heap && t.num > 0
    case SetCurrent(p) => LivePtr(t, p)
    case QueueSme(p) => p in t.heap
    case QueueConnect(p) => LivePtr(t, p) && t.link.connect.None?
    case Reconfigure(config) => config.expiry == t.config.expiry
    case _ => true
  }

  function NewWork(t: Table, p: Ptr): Work {
    Work(p, false, if p in t.heap then Some(t.heap[p].id) else None)
  }

  function Next(t: Table, a: Op): Table
    requires Enabled(t, a)
  {
    match a
    case Start => UpdateStart(t)
    case Result(res, fetch, addr, inPlace) => UpdateScanRes(t, res, fetch, addr, inPlace)
    case End(info, newScan) => UpdateEnd(t, info, newScan)
    case Drop(p) => Remove(t, p)
    case Flush => FlushFrom(t, 0)
    case FlushOld(cutoff) => FlushOldFrom(t, 0, cutoff)
    case SetCurrent(p) => t.(link := t.link.(current := p))
    case SetBssids(own, pending) => t.(link := t.link.(own := own, pending := pending))
    case QueueSme(p) => t.(link := t.link.(sme := Some(NewWork(t, p))))
    case QueueConnect(p) => t.(link := t.link.(connect := Some(NewWork(t, p))))
    case WorkDone(sme, connect) =>
      t.(link := t.link.(sme := if sme then None else t.link.sme, connect := if connect then None else t.link.connect))
    case Reconfigure(config) => t.(config := config)
    case SetLimit(n) => t.(maxCount := n)
  }

  function Init(config: Config, maxCount: nat): Table {
    Table(map[], [], [], 0, [], 0, 0, maxCount, Link(NULL, ZERO_ADDR, ZERO_ADDR, None, None), config)
  }

  function Run(config: Config, maxCount: nat, run: seq<Op>): Option<Table> {
    if run == [] then Some(Init(config, maxCount))
    else
      var before := Run(config, maxCount, run[..|run| - 1]);
      var a := run[|run| - 1];
      if before.Some? && Enabled(before.value, a) then Some(Next(before.value, a)) else None
  }

  lemma StartKeepsInv(t: Table)
    requires Inv(t)
    ensures Inv(UpdateStart(t))
  {}

  lemma NextKeepsInv(t: Table, a: Op)
    requires Inv(t) && Enabled(t, a)
    ensures Inv(Next(t, a))
  {
    match a
    case Start => StartKeepsInv(t);
    case Result(res, fetch, addr, inPlace) => UpdateScanResKeepsInv(t, res, fetch, addr, inPlace);
    case End(info, newScan) => ExpireFromIs(t, 0, info);
    case Drop(p) => RemoveKeepsInv(t, p);
    case Flush => FlushFromKeepsInv(t, 0);
    case FlushOld(cutoff) => FlushOldFromKeepsInv(t, 0, cutoff);
    case _ =>
  }

  /**
   After any sequence of operations: both lists hold exactly the live entries, `num` of them; ids
   increase along one and refresh rounds along the other; the index lists without repeats exactly
   the entries of this round; and a pending sme-connect work points to the entry it was queued for,
   wherever that has moved, or knows that it is gone.
   */
  lemma {:induction false} RunKeepsInv(config: Config, maxCount: nat, run: seq<Op>)
    requires Run(config, maxCount, run).Some?
    ensures Inv(Run(config, maxCount, run).value)
  {
    if run != [] {
      RunKeepsInv(config, maxCount, run[..|run| - 1]);
      NextKeepsInv(Run(config, maxCount, run[..|run| - 1]).value, run[|run| - 1]);
    }
  }

  // ---------- what the orders are for ----------

  lemma VictimIsNoLater(t: Table, p: Ptr)
    requires Inv(t) && p in t.heap && (Unknown(t, p) || (!InUse(t, p) && First(t.bss, IsUnknown(t)) == NULL))
    ensures Victim(t) in t.heap && t.heap[Victim(t)].updateIdx <= t.heap[p].updateIdx
    ensures if Unknown(t, p) then Unknown(t, Victim(t)) else !InUse(t, Victim(t))
  {
    var i, k := FirstAt(t.bss, if Unknown(t, p) then IsUnknown(t) else IsIdle(t), p);
    assert t.bss[i] in t.bss;
  }

  lemma NoUnknown(t: Table)
    requires Inv(t)
    ensures First(t.bss, IsUnknown(t)) == NULL <==> forall p :: p in t.heap ==> !Unknown(t, p)
  {
    FirstIs(t.bss, IsUnknown(t));
    if First(t.bss, IsUnknown(t)) == NULL {
      forall p | p in t.heap ensures !Unknown(t, p) {
        assert p in t.bss && !IsUnknown(t)(p);
      }
    }
  }

  /** Eviction takes an entry no candidate is older than: unknown ones first, then those not in use. */
  lemma VictimIsLeastRecent(t: Table)
    requires Inv(t)
    ensures var v := Victim(t);
            && (v == NULL <==> forall p :: p in t.heap ==> !Unknown(t, p) && InUse(t, p))
            && (v != NULL ==>
                  && v in t.heap
                  && (if exists p :: p in t.heap && Unknown(t, p) then Unknown(t, v) else !InUse(t, v))
                  && forall p :: p in t.heap && (if Unknown(t, v) then Unknown(t, p) else !InUse(t, p)) ==>
                       t.heap[v].updateIdx <= t.heap[p].updateIdx)
  {
    var v := Victim(t);
    NoUnknown(t);
    FirstIs(t.bss, IsUnknown(t));
    FirstIs(t.bss, IsIdle(t));
    forall p | p in t.heap && (Unknown(t, p) || (!InUse(t, p) && First(t.bss, IsUnknown(t)) == NULL))
      ensures v in t.heap && t.heap[v].updateIdx <= t.heap[p].updateIdx
    {
      VictimIsNoLater(t, p);
    }
  }

  lemma RangeIsNoLarger(t: Table, idf: nat, idl: nat, q: Ptr)
    requires Inv(t) && q in t.heap && idf <= t.heap[q].id <= idl
    ensures var p := GetIdRange(t, idf, idl); p in t.heap && t.heap[p].id <= t.heap[q].id
  {
    var i, k := FirstAt(t.bssId, HasIdIn(t, idf, idl), q);
    assert t.bssId[i] in t.bssId;
  }

  /** The range lookup returns the entry with the smallest id in the range. */
  lemma IdRangeIsSmallest(t: Table, idf: nat, idl: nat)
    requires Inv(t)
    ensures var p := GetIdRange(t, idf, idl);
            if p == NULL then forall q :: q in t.heap ==> !(idf <= t.heap[q].id <= idl)
            else p in t.heap && idf <= t.heap[p].id <= idl &&
                 forall q :: q in t.heap && idf <= t.heap[q].id <= idl ==> t.heap[p].id <= t.heap[q].id
  {
    FirstIs(t.bssId, HasIdIn(t, idf, idl));
    forall q | q in t.heap && idf <= t.heap[q].id <= idl
      ensures var p := GetIdRange(t, idf, idl); p in t.heap && t.heap[p].id <= t.heap[q].id
    {
      RangeIsNoLarger(t, idf, idl, q);
    }
  }
}
