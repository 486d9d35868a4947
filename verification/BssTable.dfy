/** The BSS table as wpa_supplicant keeps it: fields changed in place by loops over the lists. */
module BssTable {
  import opened Common
  import M = BssModel
  import opened BssInvariant

  class BssTable {
    var heap: map<M.Ptr, M.Bss>
    var bss: seq<M.Ptr>
    var bssId: seq<M.Ptr>
    var numBss: nat
    var lastScanRes: seq<M.Ptr>
    var nextId: nat
    var updateIdx: nat
    var maxCount: nat
    var link: M.Link
    var config: M.Config

    ghost function Snap(): M.Table
      reads this
    {
      M.Table(heap, bss, bssId, numBss, lastScanRes, nextId, updateIdx, maxCount, link, config)
    }

    /** The refresh list holds live entries, `numBss` of them. */
    ghost predicate Linked()
      reads this
    {
      |bss| == numBss && forall p :: p in bss ==> p in heap && p != M.NULL
    }

    constructor (config: M.Config, maxCount: nat)
      ensures Snap() == M.Table(map[], [], [], 0, [], 0, 0, maxCount,
                                M.Link(M.NULL, M.ZERO_ADDR, M.ZERO_ADDR, None, None), config)
      ensures Inv(Snap())
    {
      heap, bss, bssId, numBss, lastScanRes := map[], [], [], 0, [];
      nextId, updateIdx := 0, 0;
      this.maxCount, this.config := maxCount, config;
      link := M.Link(M.NULL, M.ZERO_ADDR, M.ZERO_ADDR, None, None);
    }

    /** Points the pending connect work from an entry to another one, or to none. */
    method UpdatePendingConnect(before: M.Ptr, after: M.Ptr)
      modifies this`link
      ensures link == M.RedirectPending(old(link), before, after)
    {
      var work := if link.sme.Some? then link.sme else link.connect;
      if work.None? { return; }
      if work.value.bss != before { return; }
      var redirected := work.value.(bss := after, removed := after == M.NULL || work.value.removed);
      if link.sme.Some? {
        link := link.(sme := Some(redirected));
      } else {
        link := link.(connect := Some(redirected));
      }
    }

    method Remove(p: M.Ptr)
      requires numBss > 0
      modifies this
      ensures Snap() == M.Remove(old(Snap()), p)
    {
      var i := 0;
      while i < |lastScanRes| && lastScanRes[i] != p
        invariant 0 <= i <= |lastScanRes| && forall j :: 0 <= j < i ==> lastScanRes[j] != p
      {
        i := i + 1;
      }
      UnlinkFirst(lastScanRes, p, i);
      if i < |lastScanRes| {
        lastScanRes := lastScanRes[..i] + lastScanRes[i + 1..];
      }
      UpdatePendingConnect(p, M.NULL);
      bss := M.Unlink(bss, p);
      bssId := M.Unlink(bssId, p);
      numBss := numBss - 1;
      heap := heap - {p};
    }

    method Get(bssid: M.Bssid, ssid: M.Ssid) returns (p: M.Ptr)
      requires Linked()
      ensures p == M.Get(Snap(), bssid, ssid) && (p == M.NULL || p in heap)
    {
      if !config.accepts(bssid) { return M.NULL; }
      for i := 0 to |bss|
        invariant forall j :: 0 <= j < i ==> !M.Matches(Snap(), bss[j], bssid, ssid)
      {
        assert bss[i] in bss;
        if heap[bss[i]].bssid == bssid && heap[bss[i]].ssid == ssid {
          FirstFound(bss, M.IsFor(Snap(), bssid, ssid), i);
          return bss[i];
        }
      }
      FirstNone(bss, M.IsFor(Snap(), bssid, ssid));
      return M.NULL;
    }

    method GetIdRange(idf: nat, idl: nat) returns (p: M.Ptr)
      requires Lists(Snap())
      ensures p == M.GetIdRange(Snap(), idf, idl)
    {
      for i := 0 to |bssId|
        invariant forall j :: 0 <= j < i ==> !M.HasIdIn(Snap(), idf, idl)(bssId[j])
      {
        assert bssId[i] in bssId;
        if heap[bssId[i]].id >= idf && heap[bssId[i]].id <= idl {
          FirstFound(bssId, M.HasIdIn(Snap(), idf, idl), i);
          return bssId[i];
        }
      }
      FirstNone(bssId, M.HasIdIn(Snap(), idf, idl));
      return M.NULL;
    }

    method InUse(p: M.Ptr) returns (r: bool)
      requires p in heap
      ensures r == M.InUse(Snap(), p)
    {
      if p == link.current { return true; }
      if link.current != M.NULL {
        var ssid := if link.current in heap then heap[link.current].ssid else config.freed;
        if heap[p].ssid != ssid { return false; }
      }
      return heap[p].bssid != M.ZERO_ADDR && (heap[p].bssid == link.own || heap[p].bssid == link.pending);
    }

    method Known(p: M.Ptr) returns (r: bool)
      requires p in heap
      ensures r == M.Known(config, heap[p])
    {
      if config.p2pPending(heap[p].bssid, heap[p].ies.probe) { return true; }
      return heap[p].ssid != "" && heap[p].ssid in config.networks;
    }

    method RemoveOldestUnknown() returns (removed: bool)
      requires Linked()
      modifies this
      ensures var v := M.First(old(bss), M.IsUnknown(old(Snap())));
              removed == (v != M.NULL) && (if removed then Snap() == M.Remove(old(Snap()), v) else Snap() == old(Snap()))
    {
      ghost var f := M.IsUnknown(Snap());
      for i := 0 to |bss|
        invariant Snap() == old(Snap())
        invariant forall j :: 0 <= j < i ==> !f(bss[j])
      {
        assert bss[i] in bss;
        var known := Known(bss[i]);
        if !known && !config.wpsCandidate(heap[bss[i]].ssid, heap[bss[i]].ies.probe) {
          FirstFound(bss, f, i);
          Remove(bss[i]);
          return true;
        }
      }
      FirstNone(bss, f);
      return false;
    }

    method RemoveOldest() returns (removed: bool)
      requires Linked()
      modifies this
      ensures var v := M.Victim(old(Snap()));
              removed == (v != M.NULL) && (if removed then Snap() == M.Remove(old(Snap()), v) else Snap() == old(Snap()))
    {
      removed := RemoveOldestUnknown();
      if removed { return; }
      ghost var f := M.IsIdle(Snap());
      for i := 0 to |bss|
        invariant Snap() == old(Snap())
        invariant forall j :: 0 <= j < i ==> !f(bss[j])
      {
        assert bss[i] in bss;
        var inUse := InUse(bss[i]);
        if !inUse {
          FirstFound(bss, f, i);
          Remove(bss[i]);
          return true;
        }
      }
      FirstNone(bss, f);
    }

    /** Evicts an entry if one more would be too many, or raises the limit if none can go. */
    method MakeRoom()
      requires Linked()
      modifies this
      ensures Snap() == M.MakeRoom(old(Snap()))
    {
      if numBss + 1 > maxCount {
        var removed := RemoveOldest();
        if !removed {
          maxCount := numBss + 1;
        }
      }
    }

    method Allocate(addr: M.Ptr, b: M.Bss)
      modifies this`heap, this`nextId
      ensures Snap() == old(Snap()).(heap := old(heap)[addr := b], nextId := old(nextId) + 1)
    {
      heap := heap[addr := b];
      nextId := nextId + 1;
    }

    method LinkLast(addr: M.Ptr)
      modifies this`bss, this`bssId, this`numBss
      ensures Snap() == old(Snap()).(bss := old(bss) + [addr], bssId := old(bssId) + [addr], num := old(numBss) + 1)
    {
      bss := bss + [addr];
      bssId := bssId + [addr];
      numBss := numBss + 1;
    }

    method Add(addr: M.Ptr, ssid: M.Ssid, res: M.ScanRes, fetch: int)
      requires Linked()
      modifies this
      ensures Snap() == M.Add(old(Snap()), addr, ssid, res, fetch)
    {
      var b := M.Bss(nextId, 0, updateIdx, res.bssid, ssid, res.freq, res.associated,
                     M.UpdateTime(fetch, res.age), res.ies);
      Allocate(addr, b);
      MakeRoom();
      LinkLast(addr);
    }

    /** Refreshes the entry at `p`, which may move to `moved`; `q` is where it is afterwards. */
    method Update(p: M.Ptr, res: M.ScanRes, fetch: int, moved: M.Ptr) returns (q: M.Ptr)
      requires p in heap && (moved == p || moved !in heap)
      modifies this
      ensures Snap() == M.Update(old(Snap()), p, res, fetch, moved)
      ensures q == M.Home(old(Snap()), p, res, fetch, moved)
    {
      var b := heap[p];
      q := p;
      if b.updateIdx == updateIdx {
        if b.associated || (!res.associated && !(b.lastUpdate < M.UpdateTime(fetch, res.age))) { return; }
      }
      ghost var refreshed := M.Refreshed(Snap(), b, res, fetch);
      b := b.(miss := 0, updateIdx := updateIdx, bssid := res.bssid, freq := res.freq,
              associated := res.associated, lastUpdate := M.UpdateTime(fetch, res.age));
      bss := M.Unlink(bss, p);
      RelinkSame(bssId, p);
      RelinkSame(lastScanRes, p);
      if config.hasP2p(b.ies.probe) && !config.hasP2p(res.ies.probe) {
        // the stored elements stay, so that the P2P information is not lost
      } else if b.ies.Size() >= res.ies.Size() {
        b := b.(ies := res.ies);
      } else {
        q := Reallocate(p, moved);
        b := b.(ies := res.ies);
      }
      assert b == refreshed;
      heap := (heap - {p})[q := b];
      bss := bss + [q];
    }

    /** The entry at `p` moves to `q`: everything that points to it follows. */
    method Reallocate(p: M.Ptr, moved: M.Ptr) returns (q: M.Ptr)
      requires p in heap && (moved == p || moved !in heap)
      modifies this`lastScanRes, this`link, this`bssId
      ensures q == moved
      ensures lastScanRes == M.Relink(old(lastScanRes), p, q) && bssId == M.Relink(old(bssId), p, q)
      ensures link == if q == p then old(link)
                      else M.RedirectPending(old(link).(current := if old(link.current) == p then q else old(link.current)), p, q)
    {
      q := moved;
      bssId := M.Relink(bssId, p, q);
      var i := 0;
      while i < |lastScanRes| && lastScanRes[i] != p
        invariant 0 <= i <= |lastScanRes| && forall j :: 0 <= j < i ==> lastScanRes[j] != p
      {
        i := i + 1;
      }
      RelinkFirst(lastScanRes, p, q, i);
      if i < |lastScanRes| {
        lastScanRes := lastScanRes[i := q];
      }
      if q != p {
        if link.current == p {
          link := link.(current := q);
        }
        UpdatePendingConnect(p, q);
      }
    }

    method UpdateStart()
      requires Inv(Snap())
      modifies this
      ensures Snap() == M.UpdateStart(old(Snap())) && Inv(Snap())
    {
      updateIdx := updateIdx + 1;
      lastScanRes := [];
    }

    method UpdateScanRes(res: M.ScanRes, fetch: int, addr: M.Ptr, inPlace: bool)
      requires Inv(Snap()) && Fresh(Snap(), addr)
      modifies this
      ensures Snap() == M.UpdateScanRes(old(Snap()), res, fetch, addr, inPlace) && Inv(Snap())
    {
      UpdateScanResKeepsInv(Snap(), res, fetch, addr, inPlace);
      if config.ignoreOld && M.UpdateTime(fetch, res.age) < config.scanTrigger { return; }
      if res.ssid.None? { return; }
      if |res.ssid.value| > M.SSID_MAX_LEN { return; }
      var p2p := config.hasP2p(res.ies.probe);
      if !p2p && config.p2pInterface { return; }
      if p2p && res.ssid.value == M.P2P_WILDCARD_SSID { return; }
      var ssid := if res.mesh.Some? && |res.mesh.value| <= M.SSID_MAX_LEN then res.mesh.value else res.ssid.value;
      Store(ssid, res, fetch, addr, inPlace);
    }

    /** Adds or refreshes the entry for a relevant scan result and lists it in the index. */
    method Store(ssid: M.Ssid, res: M.ScanRes, fetch: int, addr: M.Ptr, inPlace: bool)
      requires Linked() && addr !in heap
      modifies this
      ensures var t := old(Snap());
              var p := M.Get(t, res.bssid, ssid);
              Snap() == if p == M.NULL then
                          var u := M.Add(t, addr, ssid, res, fetch);
                          u.(scan := u.scan + [addr])
                        else if p !in t.heap then t
                        else
                          var moved := if inPlace then p else addr;
                          var u := M.Update(t, p, res, fetch, moved);
                          var q := M.Home(t, p, res, fetch, moved);
                          if q in u.scan then u else u.(scan := u.scan + [q])
    {
      var p := Get(res.bssid, ssid);
      if p == M.NULL {
        Add(addr, ssid, res, fetch);
        lastScanRes := lastScanRes + [addr];
      } else {
        var q := Update(p, res, fetch, if inPlace then p else addr);
        var i := 0;
        while i < |lastScanRes| && q != lastScanRes[i]
          invariant 0 <= i <= |lastScanRes| && forall j :: 0 <= j < i ==> lastScanRes[j] != q
        {
          i := i + 1;
        }
        if i < |lastScanRes| {
          assert q in lastScanRes;
          return;
        }
        lastScanRes := lastScanRes + [q];
      }
    }

    method Included(p: M.Ptr, info: Option<M.ScanInfo>) returns (r: bool)
      requires p in heap
      ensures r == M.Included(heap[p], info)
    {
      if info.None? { return true; }
      if |info.value.freqs| > 0 {
        var i := 0;
        while i < |info.value.freqs| && heap[p].freq != info.value.freqs[i]
          invariant 0 <= i <= |info.value.freqs| && forall j :: 0 <= j < i ==> heap[p].freq != info.value.freqs[j]
        {
          i := i + 1;
        }
        if i == |info.value.freqs| { return false; }
      }
      if |info.value.ssids| > 0 {
        var i := 0;
        while i < |info.value.ssids| && info.value.ssids[i] != "" && info.value.ssids[i] != heap[p].ssid
          invariant 0 <= i <= |info.value.ssids|
          invariant forall j :: 0 <= j < i ==> info.value.ssids[j] != "" && info.value.ssids[j] != heap[p].ssid
        {
          i := i + 1;
        }
        if i == |info.value.ssids| { return false; }
      }
      return true;
    }

    method UpdateEnd(info: Option<M.ScanInfo>, newScan: bool)
      requires Inv(Snap())
      modifies this
      ensures Snap() == M.UpdateEnd(old(Snap()), info, newScan) && Inv(Snap())
    {
      if info.Some? && info.value.aborted { return; }
      if !newScan { return; }
      var i: nat := 0;
      while i < |bss|
        invariant Inv(Snap()) && i <= |bss|
        invariant M.ExpireFrom(Snap(), i, info) == M.ExpireFrom(old(Snap()), 0, info)
        decreases |bss| - i
      {
        assert bss[i] in bss;
        ExpireTurnKeepsInv(Snap(), i, info);
        i := ExpireTurn(i, info);
      }
    }

    /** Counts a miss of the entry at position `i` if there is one, and removes it if it has too many. */
    method ExpireTurn(i: nat, info: Option<M.ScanInfo>) returns (j: nat)
      requires i < |bss| && bss[i] in heap && numBss > 0
      modifies this
      ensures (Snap(), j) == M.ExpireTurn(old(Snap()), i, info)
    {
      var p := bss[i];
      j := i + 1;
      var inUse := InUse(p);
      if inUse { return; }
      var included := Included(p, info);
      if !included { return; }
      if heap[p].updateIdx < updateIdx {
        heap := heap[p := heap[p].(miss := heap[p].miss + 1)];
      }
      if heap[p].miss >= config.expiry {
        Remove(p);
        j := i;
      }
    }

    method Flush()
      requires Inv(Snap())
      modifies this
      ensures Snap() == M.FlushFrom(old(Snap()), 0) && Inv(Snap())
    {
      FlushFromKeepsInv(Snap(), 0);
      var i := 0;
      while i < |bss|
        invariant Inv(Snap()) && i <= |bss|
        invariant M.FlushFrom(Snap(), i) == M.FlushFrom(old(Snap()), 0)
        decreases |bss| - i
      {
        assert bss[i] in bss;
        var inUse := InUse(bss[i]);
        if inUse {
          i := i + 1;
        } else {
          RemoveKeepsInv(Snap(), bss[i]);
          M.UnlinkShortens(bss, bss[i]);
          Remove(bss[i]);
        }
      }
    }

    /** Removes the entries not in use that were last updated before `cutoff`, up to the first that was not. */
    method FlushByAge(cutoff: int)
      requires Inv(Snap())
      modifies this
      ensures Snap() == M.FlushOldFrom(old(Snap()), 0, cutoff) && Inv(Snap())
      ensures forall x :: x in heap <==> x in old(heap) && !FlushedByAge(old(Snap()), 0, cutoff, x)
    {
      FlushOldFromKeepsInv(Snap(), 0, cutoff);
      forall x { FlushOldFromIs(Snap(), 0, cutoff, x); }
      var i := 0;
      while i < |bss|
        invariant Inv(Snap()) && i <= |bss|
        invariant M.FlushOldFrom(Snap(), i, cutoff) == M.FlushOldFrom(old(Snap()), 0, cutoff)
        decreases |bss| - i
      {
        assert bss[i] in bss;
        var inUse := InUse(bss[i]);
        if inUse {
          i := i + 1;
        } else {
          if heap[bss[i]].lastUpdate < cutoff {
            RemoveKeepsInv(Snap(), bss[i]);
            M.UnlinkShortens(bss, bss[i]);
            Remove(bss[i]);
          } else {
            return;
          }
        }
      }
    }
  }

  // ---------- loops and lists ----------

  lemma {:induction false} UnlinkFirst(s: seq<M.Ptr>, p: M.Ptr, i: nat)
    requires i <= |s| && (i < |s| ==> s[i] == p) && forall j :: 0 <= j < i ==> s[j] != p
    ensures M.Unlink(s, p) == if i < |s| then s[..i] + s[i + 1..] else s
  {
    if s != [] && i > 0 {
      UnlinkFirst(s[1..], p, i - 1);
      if i < |s| {
        assert M.Unlink(s, p) == [s[0]] + (s[1..][..i - 1] + s[1..][i..]);
      }
    }
  }

  lemma {:induction false} FirstFound(s: seq<M.Ptr>, f: M.Ptr -> bool, i: nat)
    requires i < |s| && f(s[i]) && forall j :: 0 <= j < i ==> !f(s[j])
    ensures M.First(s, f) == s[i]
  {
    if i > 0 {
      FirstFound(s[1..], f, i - 1);
    }
  }

  lemma {:induction false} FirstNone(s: seq<M.Ptr>, f: M.Ptr -> bool)
    requires forall j :: 0 <= j < |s| ==> !f(s[j])
    ensures M.First(s, f) == M.NULL
  {
    if s != [] {
      FirstNone(s[1..], f);
    }
  }

  lemma {:induction false} RelinkFirst(s: seq<M.Ptr>, p: M.Ptr, q: M.Ptr, i: nat)
    requires i <= |s| && (i < |s| ==> s[i] == p) && forall j :: 0 <= j < i ==> s[j] != p
    ensures M.Relink(s, p, q) == if i < |s| then s[i := q] else s
  {
    if s != [] && i > 0 {
      RelinkFirst(s[1..], p, q, i - 1);
      if i < |s| {
        assert s[i := q] == [s[0]] + s[1..][i - 1 := q];
      }
    }
  }

  lemma {:induction false} RelinkSame(s: seq<M.Ptr>, p: M.Ptr)
    ensures M.Relink(s, p, p) == s
  {
    if s != [] {
      RelinkSame(s[1..], p);
    }
  }
}
