/** What every operation of the BSS table keeps. */
module BssInvariant {
  import opened Common
  import opened BssModel

  /** The heap and both lists hold the same distinct entries, `num` of them. */
  ghost predicate Lists(t: Table) {
    && NULL !in t.heap
    && Holds(t.bss, t.heap) && Holds(t.bssId, t.heap)
    && |t.bss| == |t.bssId| == t.num
  }

  /** The list holds every live entry exactly once. */
  ghost predicate Holds(s: seq<Ptr>, heap: map<Ptr, Bss>) {
    NoDup(s) && forall p :: p in heap <==> p in s
  }

  /** Ids are unique, below the next one, and increase along the id list. */
  ghost predicate Ids(heap: map<Ptr, Bss>, bssId: seq<Ptr>, nextId: nat) {
    && (forall p :: p in heap ==> heap[p].id < nextId)
    && (forall i, j :: 0 <= i < j < |bssId| && bssId[i] in heap && bssId[j] in heap ==>
          heap[bssId[i]].id < heap[bssId[j]].id)
  }

  /** The other list is in order of the latest refresh. */
  ghost predicate Order(heap: map<Ptr, Bss>, bss: seq<Ptr>, updateIdx: nat) {
    && (forall p :: p in heap ==> heap[p].updateIdx <= updateIdx)
    && (forall i, j :: 0 <= i < j < |bss| && bss[i] in heap && bss[j] in heap ==>
          heap[bss[i]].updateIdx <= heap[bss[j]].updateIdx)
  }

  /** The index of scan results lists exactly the entries refreshed in this round, each once. */
  ghost predicate Index(heap: map<Ptr, Bss>, scan: seq<Ptr>, updateIdx: nat) {
    NoDup(scan) && forall p :: p in scan <==> p in heap && heap[p].updateIdx == updateIdx
  }

  /** The work points to the entry it was queued for, wherever that is, or knows that it is gone. */
  ghost predicate Follows(heap: map<Ptr, Bss>, w: Work) {
    if w.bss == NULL then w.entry.Some? ==> w.removed && forall p :: p in heap ==> heap[p].id != w.entry.value
    else w.entry.Some? && w.bss in heap && heap[w.bss].id == w.entry.value
  }

  ghost predicate FollowsIfAny(heap: map<Ptr, Bss>, w: Option<Work>) {
    w.Some? ==> Follows(heap, w.value)
  }

  predicate Issued(w: Option<Work>, nextId: nat) {
    w.Some? && w.value.entry.Some? ==> w.value.entry.value < nextId
  }

  /**
   A pending sme-connect work follows its entry. Nothing is said here of where a connect work points, which is
   looked at only while no sme-connect is pending.
   */
  ghost predicate Pending(heap: map<Ptr, Bss>, link: Link, nextId: nat) {
    FollowsIfAny(heap, link.sme) && Issued(link.sme, nextId) && Issued(link.connect, nextId)
  }

  ghost predicate Inv(t: Table) {
    && Lists(t)
    && Ids(t.heap, t.bssId, t.nextId)
    && Order(t.heap, t.bss, t.updateIdx)
    && Index(t.heap, t.scan, t.updateIdx)
    && Pending(t.heap, t.link, t.nextId)
  }

  // ---------- list surgery ----------

  lemma {:induction false} UnlinkKeeps(s: seq<Ptr>, p: Ptr)
    requires NoDup(s)
    ensures var u := Unlink(s, p);
            && NoDup(u)
            && (forall x :: x in u <==> x in s && x != p)
            && |u| == (if p in s then |s| - 1 else |s|)
  {
    if s != [] {
      assert NoDup(s[1..]);
      assert forall x :: x in s <==> x == s[0] || x in s[1..];
      assert s[0] !in s[1..];
      if s[0] != p {
        UnlinkKeeps(s[1..], p);
        var u := Unlink(s[1..], p);
        assert Unlink(s, p) == [s[0]] + u;
        assert s[0] !in u;
      }
    }
  }

  /** Unlinking keeps the order of the rest: positions in the result come from increasing positions. */
  lemma {:induction false} UnlinkOrder(s: seq<Ptr>, p: Ptr, i: nat, j: nat) returns (a: nat, b: nat)
    requires i < j < |Unlink(s, p)|
    ensures a < b < |s| && s[a] == Unlink(s, p)[i] && s[b] == Unlink(s, p)[j]
  {
    if s[0] == p {
      a, b := i + 1, j + 1;
    } else if i == 0 {
      assert Unlink(s, p) == [s[0]] + Unlink(s[1..], p);
      a := 0;
      var c := UnlinkFrom(s[1..], p, j - 1);
      b := c + 1;
    } else {
      assert Unlink(s, p) == [s[0]] + Unlink(s[1..], p);
      a, b := UnlinkOrder(s[1..], p, i - 1, j - 1);
      a, b := a + 1, b + 1;
    }
  }

  lemma {:induction false} UnlinkFrom(s: seq<Ptr>, p: Ptr, i: nat) returns (a: nat)
    requires i < |Unlink(s, p)|
    ensures a < |s| && s[a] == Unlink(s, p)[i]
  {
    if s[0] == p {
      a := i + 1;
    } else if i == 0 {
      a := 0;
    } else {
      a := UnlinkFrom(s[1..], p, i - 1);
      a := a + 1;
    }
  }

  lemma {:induction false} RelinkAt(s: seq<Ptr>, p: Ptr, q: Ptr)
    requires NoDup(s)
    ensures |Relink(s, p, q)| == |s|
    ensures forall i :: 0 <= i < |s| ==> Relink(s, p, q)[i] == if s[i] == p then q else s[i]
  {
    if s != [] && s[0] != p {
      assert NoDup(s[1..]);
      RelinkAt(s[1..], p, q);
    }
  }

  lemma RelinkKeeps(s: seq<Ptr>, p: Ptr, q: Ptr)
    requires NoDup(s) && (q == p || q !in s)
    ensures var r := Relink(s, p, q);
            NoDup(r) && forall x :: x in r <==> if x == q then p in s else x in s && x != p
  {
    RelinkAt(s, p, q);
    var r := Relink(s, p, q);
    forall x ensures x in r <==> if x == q then p in s else x in s && x != p {
      if x in s {
        var i :| 0 <= i < |s| && s[i] == x;
        assert r[i] == if x == p then q else x;
      }
      if p in s {
        var k :| 0 <= k < |s| && s[k] == p;
        assert r[k] == q;
      }
    }
  }

  lemma {:induction false} FirstIs(s: seq<Ptr>, f: Ptr -> bool)
    requires NULL !in s
    ensures var p := First(s, f);
            if p == NULL then forall x :: x in s ==> !f(x)
            else exists i :: 0 <= i < |s| && s[i] == p && f(p) && forall j :: 0 <= j < i ==> !f(s[j])
  {
    if s != [] && !f(s[0]) {
      FirstIs(s[1..], f);
      var p := First(s[1..], f);
      if p != NULL {
        var i :| 0 <= i < |s[1..]| && s[1..][i] == p && f(p) && forall j :: 0 <= j < i ==> !f(s[1..][j]);
        assert s[i + 1] == p && forall j :: 0 < j < i + 1 ==> s[j] == s[1..][j - 1];
      }
    }
  }

  /** Where the first match stands, and that no other match stands before it. */
  lemma FirstAt(s: seq<Ptr>, f: Ptr -> bool, q: Ptr) returns (i: nat, k: nat)
    requires NULL !in s && q in s && f(q)
    ensures i <= k < |s| && s[k] == q && s[i] == First(s, f) && f(s[i]) && First(s, f) != NULL
  {
    FirstIs(s, f);
    i :| 0 <= i < |s| && s[i] == First(s, f) && f(s[i]) && forall j :: 0 <= j < i ==> !f(s[j]);
    k :| 0 <= k < |s| && s[k] == q;
  }

  // ---------- pending work ----------

  ghost predicate IdsDiffer(heap: map<Ptr, Bss>) {
    forall p, q :: p in heap && q in heap && p != q ==> heap[p].id != heap[q].id
  }

  lemma IdsAreUnique(t: Table, p: Ptr, q: Ptr)
    requires Inv(t) && p in t.heap && q in t.heap && t.heap[p].id == t.heap[q].id
    ensures p == q
  {
    var i :| 0 <= i < |t.bssId| && t.bssId[i] == p;
    var j :| 0 <= j < |t.bssId| && t.bssId[j] == q;
  }

  lemma AllIdsDiffer(t: Table)
    requires Inv(t)
    ensures IdsDiffer(t.heap)
  {
    forall p, q | p in t.heap && q in t.heap && p != q ensures t.heap[p].id != t.heap[q].id {
      if t.heap[p].id == t.heap[q].id { IdsAreUnique(t, p, q); }
    }
  }

  lemma FollowsRemoval(heap: map<Ptr, Bss>, w: Option<Work>, p: Ptr)
    requires FollowsIfAny(heap, w) && IdsDiffer(heap) && p in heap && p != NULL
    ensures FollowsIfAny(heap - {p}, Redirect(w, p, NULL))
  {}

  lemma FollowsMove(heap: map<Ptr, Bss>, w: Option<Work>, p: Ptr, q: Ptr, b: Bss)
    requires FollowsIfAny(heap, w) && p in heap && p != NULL && q != NULL && (q == p || q !in heap) && b.id == heap[p].id
    ensures FollowsIfAny(Move(heap, p, q, b), if q == p then w else Redirect(w, p, q))
  {}

  lemma FollowsInsertion(heap: map<Ptr, Bss>, w: Option<Work>, addr: Ptr, b: Bss)
    requires FollowsIfAny(heap, w) && Issued(w, b.id) && addr !in heap
    ensures FollowsIfAny(heap[addr := b], w)
  {}

  // ---------- removal ----------

  lemma UnlinkSorted(heap: map<Ptr, Bss>, t: Table, p: Ptr)
    requires Ids(t.heap, t.bssId, t.nextId) && Order(t.heap, t.bss, t.updateIdx)
    requires heap == t.heap - {p}
    ensures Ids(heap, Unlink(t.bssId, p), t.nextId) && Order(heap, Unlink(t.bss, p), t.updateIdx)
  {
    forall i, j | 0 <= i < j < |Unlink(t.bssId, p)| && Unlink(t.bssId, p)[i] in heap && Unlink(t.bssId, p)[j] in heap
      ensures heap[Unlink(t.bssId, p)[i]].id < heap[Unlink(t.bssId, p)[j]].id
    {
      var a, b := UnlinkOrder(t.bssId, p, i, j);
    }
    forall i, j | 0 <= i < j < |Unlink(t.bss, p)| && Unlink(t.bss, p)[i] in heap && Unlink(t.bss, p)[j] in heap
      ensures heap[Unlink(t.bss, p)[i]].updateIdx <= heap[Unlink(t.bss, p)[j]].updateIdx
    {
      var a, b := UnlinkOrder(t.bss, p, i, j);
    }
  }

  lemma RemoveKeepsInv(t: Table, p: Ptr)
    requires Inv(t) && p in t.heap
    ensures t.num > 0 && Inv(Remove(t, p))
  {
    UnlinkKeeps(t.bss, p);
    UnlinkKeeps(t.bssId, p);
    UnlinkKeeps(t.scan, p);
    UnlinkSorted(t.heap - {p}, t, p);
    AllIdsDiffer(t);
    FollowsRemoval(t.heap, t.link.sme, p);
  }

  // ---------- eviction and insertion ----------

  lemma VictimIsLive(t: Table)
    requires NULL !in t.bss
    ensures Victim(t) == NULL || Victim(t) in t.bss
  {
    FirstIs(t.bss, IsUnknown(t));
    FirstIs(t.bss, IsIdle(t));
  }

  /** Room for one more entry in a table without the new entry. */
  function Evicted(t: Table, v: Ptr): Table {
    if t.num + 1 <= t.maxCount then t
    else if v != NULL && t.num > 0 then Remove(t, v)
    else t.(maxCount := t.num + 1)
  }

  /** A new entry linked at the end of both lists and of the index. */
  function Insert(t: Table, addr: Ptr, b: Bss): Table {
    t.(heap := t.heap[addr := b], bss := t.bss + [addr], bssId := t.bssId + [addr],
       num := t.num + 1, nextId := t.nextId + 1, scan := t.scan + [addr])
  }

  predicate Fresh(t: Table, addr: Ptr) {
    addr != NULL && addr !in t.heap
  }

  /** The entry that is evicted to make room, seen from the table before the allocation. */
  function VictimOfAdd(t: Table, addr: Ptr, ssid: Ssid, res: ScanRes, fetch: int): Ptr {
    Victim(t.(heap := t.heap[addr := NewBss(t, ssid, res, fetch)], nextId := t.nextId + 1))
  }

  lemma VictimOfAddIsLive(t: Table, addr: Ptr, ssid: Ssid, res: ScanRes, fetch: int)
    requires Lists(t) && Fresh(t, addr)
    ensures var v := VictimOfAdd(t, addr, ssid, res, fetch); v == NULL || v in t.heap
  {
    VictimIsLive(t.(heap := t.heap[addr := NewBss(t, ssid, res, fetch)], nextId := t.nextId + 1));
  }

  lemma EvictThenInsert(t: Table, a: Table, addr: Ptr, b: Bss, v: Ptr)
    requires Lists(t) && Fresh(t, addr) && v in t.heap && t.num > 0
    requires a == t.(heap := t.heap[addr := b], nextId := t.nextId + 1)
    ensures var r := Remove(a, v); var e := Remove(t, v);
            && r.heap == e.heap[addr := b] && r.bss == e.bss && r.bssId == e.bssId && r.num == e.num && r.scan == e.scan
            && r == e.(heap := r.heap, nextId := t.nextId + 1)
  {}

  lemma AddIsInsert(t: Table, addr: Ptr, ssid: Ssid, res: ScanRes, fetch: int)
    requires Inv(t) && Fresh(t, addr)
    ensures var v := VictimOfAdd(t, addr, ssid, res, fetch);
            && (v == NULL || v in t.heap)
            && (var u := Add(t, addr, ssid, res, fetch);
                u.(scan := u.scan + [addr]) == Insert(Evicted(t, v), addr, NewBss(t, ssid, res, fetch)))
  {
    var b := NewBss(t, ssid, res, fetch);
    var a := t.(heap := t.heap[addr := b], nextId := t.nextId + 1);
    VictimOfAddIsLive(t, addr, ssid, res, fetch);
    var v := Victim(a);
    if v != NULL && t.num > 0 {
      EvictThenInsert(t, a, addr, b, v);
    }
  }

  lemma EvictedKeepsInv(t: Table, v: Ptr)
    requires Inv(t) && (v == NULL || v in t.heap)
    ensures Inv(Evicted(t, v))
    ensures Evicted(t, v).num + 1 <= Evicted(t, v).maxCount || Evicted(t, v).num + 1 == t.num
    ensures Evicted(t, v).heap == if t.num + 1 > t.maxCount && v != NULL then t.heap - {v} else t.heap
    ensures Evicted(t, v).nextId == t.nextId && Evicted(t, v).updateIdx == t.updateIdx
  {
    if v != NULL { RemoveKeepsInv(t, v); }
  }

  lemma AppendHolds(s: seq<Ptr>, heap: map<Ptr, Bss>, addr: Ptr, b: Bss)
    requires Holds(s, heap) && addr !in heap
    ensures Holds(s + [addr], heap[addr := b])
  {}

  lemma AppendSorted(heap: map<Ptr, Bss>, bss: seq<Ptr>, bssId: seq<Ptr>, scan: seq<Ptr>,
                     nextId: nat, updateIdx: nat, addr: Ptr, b: Bss)
    requires Ids(heap, bssId, nextId) && Order(heap, bss, updateIdx) && Index(heap, scan, updateIdx)
    requires addr !in heap && Holds(bss, heap) && Holds(bssId, heap)
    requires b.id == nextId && b.updateIdx == updateIdx
    ensures Ids(heap[addr := b], bssId + [addr], nextId + 1)
    ensures Order(heap[addr := b], bss + [addr], updateIdx)
    ensures Index(heap[addr := b], scan + [addr], updateIdx)
  {}

  lemma InsertKeepsInv(t: Table, addr: Ptr, b: Bss)
    requires Inv(t) && Fresh(t, addr)
    requires b.id == t.nextId && b.updateIdx == t.updateIdx
    ensures Inv(Insert(t, addr, b))
  {
    AppendHolds(t.bss, t.heap, addr, b);
    AppendHolds(t.bssId, t.heap, addr, b);
    AppendSorted(t.heap, t.bss, t.bssId, t.scan, t.nextId, t.updateIdx, addr, b);
    FollowsInsertion(t.heap, t.link.sme, addr, b);
  }

  lemma AddKeepsInv(t: Table, addr: Ptr, ssid: Ssid, res: ScanRes, fetch: int)
    requires Inv(t) && Fresh(t, addr)
    ensures var u := Add(t, addr, ssid, res, fetch); Inv(u.(scan := u.scan + [addr]))
  {
    var v := VictimOfAdd(t, addr, ssid, res, fetch);
    AddIsInsert(t, addr, ssid, res, fetch);
    EvictedKeepsInv(t, v);
    InsertKeepsInv(Evicted(t, v), addr, NewBss(t, ssid, res, fetch));
  }

  // ---------- refreshing ----------

  /** The table with the entry at `p` refreshed as `b` and now at `q`, and listed in the index. */
  function Moved(t: Table, p: Ptr, q: Ptr, b: Bss): Table {
    var scan := Relink(t.scan, p, q);
    t.(heap := (t.heap - {p})[q := b],
       bss := Unlink(t.bss, p) + [q],
       bssId := Relink(t.bssId, p, q),
       scan := if q in scan then scan else scan + [q],
       link := if q == p then t.link
               else RedirectPending(t.link.(current := if t.link.current == p then q else t.link.current), p, q))
  }

  /** The heap in which the entry at `p` is now at `q`, as `b`. */
  function Move(heap: map<Ptr, Bss>, p: Ptr, q: Ptr, b: Bss): map<Ptr, Bss> {
    (heap - {p})[q := b]
  }

  lemma MoveKeepsRefreshList(heap: map<Ptr, Bss>, bss: seq<Ptr>, updateIdx: nat, p: Ptr, q: Ptr, b: Bss)
    requires Holds(bss, heap) && Order(heap, bss, updateIdx)
    requires p in heap && (q == p || q !in heap) && b.updateIdx == updateIdx
    ensures var u := Unlink(bss, p) + [q]; Holds(u, Move(heap, p, q, b)) && |u| == |bss|
    ensures Order(Move(heap, p, q, b), Unlink(bss, p) + [q], updateIdx)
  {
    UnlinkKeeps(bss, p);
    var rest := Unlink(bss, p);
    var after := Move(heap, p, q, b);
    forall i, j | 0 <= i < j < |rest| ensures after[rest[i]].updateIdx <= after[rest[j]].updateIdx {
      var x, y := UnlinkOrder(bss, p, i, j);
      assert rest[i] in rest && rest[j] in rest;
    }
    forall i | 0 <= i < |rest| ensures rest[i] in after && after[rest[i]].updateIdx <= updateIdx {
      assert rest[i] in rest;
    }
  }

  lemma MoveKeepsIdList(heap: map<Ptr, Bss>, bssId: seq<Ptr>, nextId: nat, p: Ptr, q: Ptr, b: Bss)
    requires Holds(bssId, heap) && Ids(heap, bssId, nextId)
    requires p in heap && (q == p || q !in heap) && b.id == heap[p].id
    ensures var u := Relink(bssId, p, q); Holds(u, Move(heap, p, q, b)) && |u| == |bssId|
    ensures Ids(Move(heap, p, q, b), Relink(bssId, p, q), nextId)
  {
    RelinkKeeps(bssId, p, q);
    RelinkAt(bssId, p, q);
    var u, after := Relink(bssId, p, q), Move(heap, p, q, b);
    forall i | 0 <= i < |u| ensures bssId[i] in heap && u[i] in after && after[u[i]].id == heap[bssId[i]].id {
      assert bssId[i] in bssId;
    }
  }

  lemma MoveKeepsIndex(heap: map<Ptr, Bss>, scan: seq<Ptr>, updateIdx: nat, p: Ptr, q: Ptr, b: Bss)
    requires Index(heap, scan, updateIdx)
    requires p in heap && (q == p || q !in heap) && b.updateIdx == updateIdx
    ensures var u := Relink(scan, p, q);
            Index(Move(heap, p, q, b), if q in u then u else u + [q], updateIdx)
  {
    RelinkKeeps(scan, p, q);
  }

  lemma MovedKeepsInv(t: Table, p: Ptr, q: Ptr, b: Bss)
    requires Inv(t) && p in t.heap && (q == p || Fresh(t, q))
    requires b.id == t.heap[p].id && b.updateIdx == t.updateIdx
    ensures Inv(Moved(t, p, q, b))
  {
    MoveKeepsRefreshList(t.heap, t.bss, t.updateIdx, p, q, b);
    MoveKeepsIdList(t.heap, t.bssId, t.nextId, p, q, b);
    MoveKeepsIndex(t.heap, t.scan, t.updateIdx, p, q, b);
    FollowsMove(t.heap, t.link.sme, p, q, b);
    var u := Moved(t, p, q, b);
    assert u.heap == Move(t.heap, p, q, b);
  }

  lemma UpdateKeepsInv(t: Table, p: Ptr, res: ScanRes, fetch: int, addr: Ptr)
    requires Inv(t) && p in t.heap && (addr == p || Fresh(t, addr))
    ensures var u := Update(t, p, res, fetch, addr);
            var q := Home(t, p, res, fetch, addr);
            Inv(if q in u.scan then u else u.(scan := u.scan + [q]))
  {
    var b := t.heap[p];
    if Obsolete(t, b, res, fetch) {
      assert p in t.scan;
    } else {
      MovedKeepsInv(t, p, Home(t, p, res, fetch, addr), Refreshed(t, b, res, fetch));
    }
  }

  lemma UpdateScanResKeepsInv(t: Table, res: ScanRes, fetch: int, addr: Ptr, inPlace: bool)
    requires Inv(t) && Fresh(t, addr)
    ensures Inv(UpdateScanRes(t, res, fetch, addr, inPlace))
  {
    var ssid := Relevant(t, res, fetch);
    if ssid.Some? {
      var p: Ptr := Get(t, res.bssid, ssid.value);
      FirstIs(t.bss, IsFor(t, res.bssid, ssid.value));
      if p == NULL {
        AddKeepsInv(t, addr, ssid.value, res, fetch);
      } else {
        UpdateKeepsInv(t, p, res, fetch, if inPlace then p else addr);
      }
    }
  }

  // ---------- expiry and flushing ----------

  lemma {:induction false} UnlinkAt(s: seq<Ptr>, i: nat)
    requires i < |s| && NoDup(s)
    ensures Unlink(s, s[i]) == s[..i] + s[i + 1..]
  {
    if i > 0 {
      UnlinkAt(s[1..], i - 1);
      assert Unlink(s, s[i]) == [s[0]] + (s[1..][..i - 1] + s[1..][i..]);
    }
  }

  /** Update end counts this entry: the scan covered it and it is not in use. */
  predicate Covered(t: Table, p: Ptr, info: Option<ScanInfo>) {
    p in t.heap && !InUse(t, p) && Included(t.heap[p], info)
  }

  function MissAfter(t: Table, p: Ptr): nat
    requires p in t.heap
  {
    t.heap[p].miss + if t.heap[p].updateIdx < t.updateIdx then 1 else 0
  }

  predicate Expires(t: Table, p: Ptr, info: Option<ScanInfo>) {
    Covered(t, p, info) && MissAfter(t, p) >= t.config.expiry
  }

  /** What the expiry loop leaves of the entry at `p`, if it has to look at it. */
  function AfterExpiry(t: Table, p: Ptr, info: Option<ScanInfo>): Bss
    requires p in t.heap
  {
    if Covered(t, p, info) then t.heap[p].(miss := MissAfter(t, p)) else t.heap[p]
  }

  /** The same entries with the same ids and refresh rounds. */
  ghost predicate SamePlaces(heap: map<Ptr, Bss>, after: map<Ptr, Bss>) {
    && (forall p :: p in after <==> p in heap)
    && forall p :: p in heap ==> after[p].id == heap[p].id && after[p].updateIdx == heap[p].updateIdx
  }

  lemma SamePlacesKeepOrder(t: Table, after: map<Ptr, Bss>)
    requires SamePlaces(t.heap, after)
    requires Ids(t.heap, t.bssId, t.nextId) && Order(t.heap, t.bss, t.updateIdx) && Index(t.heap, t.scan, t.updateIdx)
    ensures Ids(after, t.bssId, t.nextId) && Order(after, t.bss, t.updateIdx) && Index(after, t.scan, t.updateIdx)
  {}

  lemma SamePlacesKeepInv(t: Table, u: Table)
    requires Inv(t) && SamePlaces(t.heap, u.heap) && u == t.(heap := u.heap)
    ensures Inv(u)
  {
    SamePlacesKeepOrder(t, u.heap);
    assert FollowsIfAny(u.heap, u.link.sme);
  }

  lemma MissedKeepsInv(t: Table, p: Ptr)
    requires Inv(t) && p in t.heap
    ensures Inv(Missed(t, p))
  {
    SamePlacesKeepInv(t, Missed(t, p));
  }

  function Lookup(t: Table, p: Ptr): Option<Bss> {
    if p in t.heap then Some(t.heap[p]) else None
  }

  /** What becomes of the entry at `p`, whether or not the expiry loop looks at it. */
  function Fate(t: Table, p: Ptr, looked: bool, info: Option<ScanInfo>): Option<Bss> {
    if !looked || p !in t.heap then Lookup(t, p)
    else if Expires(t, p, info) then None
    else Some(AfterExpiry(t, p, info))
  }

  ghost predicate SameRest(t: Table, u: Table) {
    && u.updateIdx == t.updateIdx && u.config == t.config && u.maxCount == t.maxCount
    && u.nextId == t.nextId && u.link.current == t.link.current
  }

  /** From position `i` on each entry has met its own fate; the rest is as in `t`. */
  ghost predicate Expired(t: Table, u: Table, i: nat, info: Option<ScanInfo>)
    requires i <= |t.bss|
  {
    SameRest(t, u) && forall p :: Lookup(u, p) == Fate(t, p, p in t.bss[i..], info)
  }

  /** Counting a miss or removing an entry that is not in use changes nothing for the other entries. */
  lemma OthersStay(t: Table, u: Table, p: Ptr, x: Ptr, info: Option<ScanInfo>)
    requires p in t.heap && !InUse(t, p) && x != p
    requires u == Missed(t, p) || (t.num > 0 && u == Remove(Missed(t, p), p))
    ensures InUse(u, x) == InUse(t, x)
    ensures Lookup(u, x) == Lookup(t, x) && Fate(u, x, true, info) == Fate(t, x, true, info)
  {}

  lemma ExpiredChain(t: Table, u: Table, v: Table, i: nat, j: nat, info: Option<ScanInfo>)
    requires i < |t.bss| && NoDup(t.bss) && j <= |u.bss| && u.bss[j..] == t.bss[i + 1..]
    requires SameRest(t, u) && Expired(u, v, j, info)
    requires forall x :: x != t.bss[i] ==>
               Lookup(u, x) == Lookup(t, x) && Fate(u, x, true, info) == Fate(t, x, true, info)
    requires Lookup(u, t.bss[i]) == Fate(t, t.bss[i], true, info)
    ensures Expired(t, v, i, info)
  {
    var p, tail := t.bss[i], t.bss[i + 1..];
    assert p !in tail;
    assert t.bss[i..] == [p] + tail;
    forall x ensures Lookup(v, x) == Fate(t, x, x in t.bss[i..], info) {
      assert x in t.bss[i..] <==> x == p || x in tail;
      assert Lookup(v, x) == Fate(u, x, x in tail, info);
    }
  }

  lemma MissStep(t: Table, u: Table, i: nat, info: Option<ScanInfo>)
    requires i < |t.bss| && t.bss[i] in t.heap && Covered(t, t.bss[i], info)
    requires if Expires(t, t.bss[i], info) then t.num > 0 && u == Remove(Missed(t, t.bss[i]), t.bss[i])
             else u == Missed(t, t.bss[i])
    ensures SameRest(t, u) && Lookup(u, t.bss[i]) == Fate(t, t.bss[i], true, info)
    ensures forall x :: x != t.bss[i] ==>
              Lookup(u, x) == Lookup(t, x) && Fate(u, x, true, info) == Fate(t, x, true, info)
  {
    forall x | x != t.bss[i]
      ensures Lookup(u, x) == Lookup(t, x) && Fate(u, x, true, info) == Fate(t, x, true, info)
    {
      OthersStay(t, u, t.bss[i], x, info);
    }
  }

  lemma TurnIs(t: Table, i: nat, info: Option<ScanInfo>)
    requires i < |t.bss| && t.bss[i] in t.heap && t.num > 0
    ensures var p := t.bss[i];
            ExpireTurn(t, i, info) ==
            if !Covered(t, p, info) then (t, i + 1)
            else if Expires(t, p, info) then (Remove(Missed(t, p), p), i)
            else (Missed(t, p), i + 1)
  {}

  lemma ExpireTurnKeepsInv(t: Table, i: nat, info: Option<ScanInfo>)
    requires Inv(t) && i < |t.bss|
    ensures var (u, j) := ExpireTurn(t, i, info);
            Inv(u) && j <= |u.bss| && u.bss[j..] == t.bss[i + 1..]
  {
    var p := t.bss[i];
    assert p in t.bss;
    TurnIs(t, i, info);
    if Covered(t, p, info) {
      MissedKeepsInv(t, p);
      if Expires(t, p, info) {
        RemoveKeepsInv(Missed(t, p), p);
        UnlinkAt(t.bss, i);
      }
    }
  }

  lemma ExpireTurnIs(t: Table, i: nat, info: Option<ScanInfo>)
    requires Inv(t) && i < |t.bss|
    ensures var (u, j) := ExpireTurn(t, i, info);
            && SameRest(t, u)
            && Lookup(u, t.bss[i]) == Fate(t, t.bss[i], true, info)
            && forall x :: x != t.bss[i] ==>
                 Lookup(u, x) == Lookup(t, x) && Fate(u, x, true, info) == Fate(t, x, true, info)
  {
    assert t.bss[i] in t.bss;
    if Covered(t, t.bss[i], info) {
      MissStep(t, ExpireTurn(t, i, info).0, i, info);
    }
  }

  /** The expiry loop treats each entry from position `i` on by itself, as it was before the loop. */
  lemma {:induction false} ExpireFromIs(t: Table, i: nat, info: Option<ScanInfo>)
    requires Inv(t) && i <= |t.bss|
    ensures Inv(ExpireFrom(t, i, info)) && Expired(t, ExpireFrom(t, i, info), i, info)
    decreases |t.bss| - i
  {
    if i < |t.bss| {
      var (u, j) := ExpireTurn(t, i, info);
      ExpireTurnKeepsInv(t, i, info);
      ExpireTurnIs(t, i, info);
      ExpireFromIs(u, j, info);
      ExpiredChain(t, u, ExpireFrom(u, j, info), i, j, info);
    }
  }

  // ---------- flushing ----------

  lemma RemovalStays(t: Table, p: Ptr, x: Ptr)
    requires p in t.heap && !InUse(t, p) && x != p && t.num > 0
    ensures var u := Remove(t, p); InUse(u, x) == InUse(t, x) && (x in u.heap <==> x in t.heap)
  {}

  lemma {:induction false} FlushFromKeepsInv(t: Table, i: nat)
    requires Inv(t) && i <= |t.bss|
    ensures Inv(FlushFrom(t, i))
    decreases |t.bss| - i
  {
    if i < |t.bss| {
      assert t.bss[i] in t.bss;
      if InUse(t, t.bss[i]) {
        FlushFromKeepsInv(t, i + 1);
      } else {
        RemoveKeepsInv(t, t.bss[i]);
        UnlinkShortens(t.bss, t.bss[i]);
        FlushFromKeepsInv(Remove(t, t.bss[i]), i);
      }
    }
  }

  lemma InTail(s: seq<Ptr>, i: nat, x: Ptr)
    requires NoDup(s) && i < |s|
    ensures x in s[i..] <==> x == s[i] || x in s[i + 1..]
    ensures s[i] !in s[i + 1..]
  {
    assert s[i..] == [s[i]] + s[i + 1..];
  }

  /** Flushing leaves exactly the entries in use. */
  lemma {:induction false} FlushFromIs(t: Table, i: nat, x: Ptr)
    requires Inv(t) && i <= |t.bss|
    ensures x in FlushFrom(t, i).heap <==> x in t.heap && (x in t.bss[i..] ==> InUse(t, x))
    decreases |t.bss| - i
  {
    if i < |t.bss| {
      var p := t.bss[i];
      assert p in t.bss;
      InTail(t.bss, i, x);
      if InUse(t, p) {
        FlushFromIs(t, i + 1, x);
      } else {
        var u := Remove(t, p);
        RemoveKeepsInv(t, p);
        UnlinkAt(t.bss, i);
        assert u.bss[i..] == t.bss[i + 1..];
        FlushFromIs(u, i, x);
        if x != p { RemovalStays(t, p, x); }
      }
    }
  }

  lemma {:induction false} FlushOldFromKeepsInv(t: Table, i: nat, cutoff: int)
    requires Inv(t) && i <= |t.bss|
    ensures Inv(FlushOldFrom(t, i, cutoff))
    decreases |t.bss| - i
  {
    if i < |t.bss| {
      assert t.bss[i] in t.bss;
      if InUse(t, t.bss[i]) {
        FlushOldFromKeepsInv(t, i + 1, cutoff);
      } else if t.heap[t.bss[i]].lastUpdate < cutoff {
        RemoveKeepsInv(t, t.bss[i]);
        UnlinkShortens(t.bss, t.bss[i]);
        FlushOldFromKeepsInv(Remove(t, t.bss[i]), i, cutoff);
      }
    }
  }

  /** Flushing by age does not stop at this entry. */
  predicate Passable(t: Table, p: Ptr, cutoff: int) {
    InUse(t, p) || (p in t.heap && t.heap[p].lastUpdate < cutoff)
  }

  /** The entry at `x` is idle, and it and all from position `i` up to it are in use or older than the cutoff. */
  ghost predicate FlushedByAge(t: Table, i: nat, cutoff: int, x: Ptr) {
    !InUse(t, x) &&
    exists k :: i <= k < |t.bss| && t.bss[k] == x && forall j :: i <= j <= k ==> Passable(t, t.bss[j], cutoff)
  }

  /** An entry in use is passed over. */
  lemma FlushSkips(t: Table, i: nat, cutoff: int, x: Ptr)
    requires i < |t.bss| && InUse(t, t.bss[i])
    ensures FlushedByAge(t, i, cutoff, x) <==> FlushedByAge(t, i + 1, cutoff, x)
  {
    if FlushedByAge(t, i + 1, cutoff, x) {
      var k :| i + 1 <= k < |t.bss| && t.bss[k] == x && forall j :: i + 1 <= j <= k ==> Passable(t, t.bss[j], cutoff);
      forall j | i <= j <= k ensures Passable(t, t.bss[j], cutoff) {}
    }
  }

  /** An old idle entry is removed, and the entries behind it move up. */
  lemma FlushShifts(t: Table, u: Table, i: nat, cutoff: int, x: Ptr)
    requires i < |t.bss| && NoDup(t.bss) && x != t.bss[i] && Passable(t, t.bss[i], cutoff)
    requires |u.bss| == |t.bss| - 1 && u.bss[i..] == t.bss[i + 1..]
    requires forall y :: y != t.bss[i] ==> InUse(u, y) == InUse(t, y) && Lookup(u, y) == Lookup(t, y)
    ensures FlushedByAge(t, i, cutoff, x) <==> FlushedByAge(u, i, cutoff, x)
  {
    forall j | i <= j < |u.bss| ensures u.bss[j] == t.bss[j + 1] && Passable(u, u.bss[j], cutoff) == Passable(t, t.bss[j + 1], cutoff) {
      assert u.bss[i..][j - i] == t.bss[i + 1..][j - i];
    }
    if FlushedByAge(u, i, cutoff, x) {
      var k :| i <= k < |u.bss| && u.bss[k] == x && forall j :: i <= j <= k ==> Passable(u, u.bss[j], cutoff);
      assert t.bss[k + 1] == x;
      forall j | i <= j <= k + 1 ensures Passable(t, t.bss[j], cutoff) {
        if j > i { assert Passable(u, u.bss[j - 1], cutoff); }
      }
    }
    if FlushedByAge(t, i, cutoff, x) {
      var k :| i <= k < |t.bss| && t.bss[k] == x && forall j :: i <= j <= k ==> Passable(t, t.bss[j], cutoff);
      assert u.bss[k - 1] == x;
      forall j | i <= j <= k - 1 ensures Passable(u, u.bss[j], cutoff) {
        assert Passable(t, t.bss[j + 1], cutoff);
      }
    }
  }

  /** Flushing by age removes exactly the idle entries that nothing recent and idle stands before. */
  lemma {:induction false} FlushOldFromIs(t: Table, i: nat, cutoff: int, x: Ptr)
    requires Inv(t) && i <= |t.bss|
    ensures x in FlushOldFrom(t, i, cutoff).heap <==> x in t.heap && !FlushedByAge(t, i, cutoff, x)
    decreases |t.bss| - i
  {
    if i < |t.bss| {
      var p := t.bss[i];
      assert p in t.bss;
      if InUse(t, p) {
        FlushSkips(t, i, cutoff, x);
        FlushOldFromIs(t, i + 1, cutoff, x);
      } else if t.heap[p].lastUpdate < cutoff {
        FlushOldTurnIs(t, i, cutoff, x);
        FlushOldFromIs(Remove(t, p), i, cutoff, x);
      }
    }
  }

  lemma FlushOldTurnIs(t: Table, i: nat, cutoff: int, x: Ptr)
    requires Inv(t) && i < |t.bss| && !InUse(t, t.bss[i]) && Passable(t, t.bss[i], cutoff)
    ensures t.num > 0 && Inv(Remove(t, t.bss[i])) && |Remove(t, t.bss[i]).bss| == |t.bss| - 1
    ensures x in t.heap && !FlushedByAge(t, i, cutoff, x) <==>
            x in Remove(t, t.bss[i]).heap && !FlushedByAge(Remove(t, t.bss[i]), i, cutoff, x)
  {
    var p := t.bss[i];
    var u := Remove(t, p);
    RemoveKeepsInv(t, p);
    UnlinkAt(t.bss, i);
    assert u.bss[i..] == t.bss[i + 1..];
    forall y | y != p ensures InUse(u, y) == InUse(t, y) && Lookup(u, y) == Lookup(t, y) {
      RemovalStays(t, p, y);
    }
    if x != p { FlushShifts(t, u, i, cutoff, x); }
  }
}
