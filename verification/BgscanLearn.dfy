/**
 The objects of the learning background scan: the list of BSS entries, the scan notification that fills it,
 and the data file it is saved to and loaded from.
 */
module BgscanLearn {
  import opened Common
  import opened LearnModel

  method BssidInArray(list: seq<Mac>, bssid: Mac) returns (found: bool)
    ensures found <==> bssid in list
  {
    for i := 0 to |list|
      invariant bssid !in list[..i]
    {
      if list[i] == bssid { return true; }
    }
    return false;
  }

  class Bss {
    const bssid: Mac
    var freq: int
    var neigh: seq<Mac>

    constructor (bssid: Mac, freq: int)
      ensures this.bssid == bssid && this.freq == freq && neigh == []
    {
      this.bssid, this.freq, neigh := bssid, freq, [];
    }

    ghost predicate Is(r: Rec)
      reads this
    {
      r == Rec(bssid, freq, neigh)
    }

    method AddNeighbor(addr: Mac)
      modifies this`neigh
      ensures neigh == WithNeighbor(bssid, old(neigh), addr)
    {
      if addr == bssid { return; }
      var known := BssidInArray(neigh, addr);
      if known { return; }
      neigh := neigh + [addr];
    }

    method AddNeighbors(addrs: seq<Mac>)
      modifies this`neigh
      ensures neigh == WithNeighbors(bssid, old(neigh), addrs)
    {
      for j := 0 to |addrs|
        invariant neigh == WithNeighbors(bssid, old(neigh), addrs[..j])
      {
        WithNeighborsLast(bssid, old(neigh), addrs, j);
        AddNeighbor(addrs[j]);
      }
      assert addrs[..|addrs|] == addrs;
    }
  }

  class Learner {
    var bss: seq<Bss>
    ghost var recs: seq<Rec>

    ghost predicate Valid()
      reads this, bss
    {
      && |bss| == |recs|
      && (forall i {:trigger bss[i]} :: 0 <= i < |bss| ==> bss[i].Is(recs[i]))
      && forall i, j :: 0 <= i < j < |bss| ==> bss[i] != bss[j]
    }

    constructor ()
      ensures Valid() && recs == []
    {
      bss, recs := [], [];
    }

    method GetBss(bssid: Mac) returns (e: Bss?, ghost p: nat)
      requires Valid()
      ensures p == Position(recs, bssid)
      ensures if p < |recs| then e == bss[p] else e == null
      ensures e != null ==> e in bss && e.bssid == bssid
    {
      for i := 0 to |bss|
        invariant forall j :: 0 <= j < i ==> recs[j].bssid != bssid
      {
        assert bss[i].Is(recs[i]);
        if bss[i].bssid == bssid {
          PositionIs(recs, bssid, i);
          return bss[i], i;
        }
      }
      PositionIs(recs, bssid, |recs|);
      return null, |recs|;
    }

    /** A new entry at the head of the list. */
    method AddHead(bssid: Mac, freq: int) returns (e: Bss)
      requires Valid()
      modifies this
      ensures Valid() && fresh(e) && bss == [e] + old(bss)
      ensures recs == [Rec(bssid, freq, [])] + old(recs)
    {
      e := new Bss(bssid, freq);
      bss := [e] + bss;
      recs := [Rec(bssid, freq, [])] + recs;
      assert forall i :: 1 <= i < |bss| ==> bss[i] == old(bss)[i - 1] && recs[i] == old(recs)[i - 1];
    }

    method SetFreq(ghost p: nat, e: Bss, freq: int)
      requires Valid() && p < |bss| && bss[p] == e
      modifies this`recs, e`freq
      ensures Valid() && recs == old(recs)[p := old(recs)[p].(freq := freq)]
    {
      assert e.Is(recs[p]);
      e.freq := freq;
      recs := recs[p := recs[p].(freq := freq)];
    }

    method Offer(ghost p: nat, e: Bss, addrs: seq<Mac>)
      requires Valid() && p < |bss| && bss[p] == e
      modifies this`recs, e`neigh
      ensures Valid()
      ensures recs == old(recs)[p := old(recs)[p].(neigh := WithNeighbors(old(recs)[p].bssid, old(recs)[p].neigh, addrs))]
    {
      assert e.Is(recs[p]);
      e.AddNeighbors(addrs);
      recs := recs[p := recs[p].(neigh := e.neigh)];
    }

    /** One matching scan result: the entry is found, updated or added, and joined with the addresses heard. */
    method Note(res: ScanRes, addrs: seq<Mac>)
      requires Valid()
      modifies this, bss
      ensures Valid() && (forall k {:trigger bss[k]} :: 0 <= k < |bss| ==> bss[k] in old(bss) || fresh(bss[k]))
      ensures recs == Join(Noted(old(recs), res.bssid, res.freq), res.bssid, addrs)
    {
      var e, p := GetBss(res.bssid);
      ghost var noted := Noted(recs, res.bssid, res.freq);
      if e != null {
        assert e.Is(recs[p]);
        if e.freq != res.freq {
          SetFreq(p, e, res.freq);
        }
        assert recs == noted;
        PositionIs(recs, res.bssid, p);
        Offer(p, e, addrs);
      } else {
        var added := AddHead(res.bssid, res.freq);
        PositionIs(recs, res.bssid, 0);
        Offer(0, added, addrs);
      }
    }

    /** The BSSIDs of the matching results, as many as the buffer holds. */
    method Collect(results: seq<ScanRes>) returns (addrs: seq<Mac>)
      ensures addrs == Heard(results)
    {
      addrs := [];
      for i := 0 to |results|
        invariant addrs == Heard(results[..i])
      {
        assert results[..i + 1][..i] == results[..i];
        if results[i].matches {
          if |addrs| < MAX_BSS {
            addrs := addrs + [results[i].bssid];
          }
        }
      }
      assert results[..|results|] == results;
    }

    method NotifyScan(results: seq<ScanRes>)
      requires Valid()
      modifies this, bss
      ensures Valid() && recs == Notify(old(recs), results)
      ensures forall k {:trigger bss[k]} :: 0 <= k < |bss| ==> bss[k] in old(bss) || fresh(bss[k])
    {
      var addrs := Collect(results);
      for i := 0 to |results|
        invariant Valid() && (forall k {:trigger bss[k]} :: 0 <= k < |bss| ==> bss[k] in old(bss) || fresh(bss[k]))
        invariant recs == NoteAll(old(recs), results[..i], addrs)
      {
        assert results[..i + 1][..i] == results[..i];
        if results[i].matches {
          Note(results[i], addrs);
        }
      }
      assert results[..|results|] == results;
    }

    /** The lines of the data file: the header, a line per entry, then a line per neighbor. */
    method Save() returns (lines: seq<Line>)
      requires Valid()
      ensures lines == Saved(recs)
    {
      lines := [Header];
      for i := 0 to |bss|
        invariant lines == [Header] + BssLines(recs[..i])
      {
        assert bss[i].Is(recs[i]);
        assert BssLines(recs[..i + 1]) == BssLines(recs[..i]) + [BssLine(Some(recs[i].bssid), recs[i].freq)];
        lines := lines + [BssLine(Some(bss[i].bssid), bss[i].freq)];
      }
      assert recs[..|recs|] == recs;
      for i := 0 to |bss|
        invariant lines == [Header] + BssLines(recs) + AllNeighborLines(recs[..i])
      {
        assert bss[i].Is(recs[i]);
        var e := bss[i];
        ghost var before := lines;
        for j := 0 to |e.neigh|
          invariant lines == before + NeighborLines(e.bssid, e.neigh)[..j]
        {
          lines := lines + [NeighborLine(Some(e.bssid), Some(e.neigh[j]))];
        }
        assert recs[..i + 1][..i] == recs[..i];
      }
    }

    method LoadOne(line: Line)
      requires Valid()
      modifies this, bss
      ensures Valid() && recs == LoadLine(old(recs), line)
      ensures forall k {:trigger bss[k]} :: 0 <= k < |bss| ==> bss[k] in old(bss) || fresh(bss[k])
    {
      match line
      case BssLine(addr, freq) =>
        if addr.None? { return; }
        var e := AddHead(addr.value, freq);
      case NeighborLine(owner, addr) =>
        if owner.None? { return; }
        var e, p := GetBss(owner.value);
        if e == null || addr.None? { return; }
        Offer(p, e, [addr.value]);
      case _ =>
    }

    /** Reads the data file, if there is one; a file without the header is refused. */
    method Load(file: Option<seq<Line>>) returns (ok: bool)
      requires Valid()
      modifies this, bss
      ensures Valid() && (ok <==> file.None? || (file.value != [] && file.value[0] == Header))
      ensures recs == if ok && file.Some? then LoadLines(old(recs), file.value[1..]) else old(recs)
    {
      if file.None? { return true; }
      if file.value == [] || file.value[0] != Header { return false; }
      var lines := file.value[1..];
      for i := 0 to |lines|
        invariant Valid() && (forall k {:trigger bss[k]} :: 0 <= k < |bss| ==> bss[k] in old(bss) || fresh(bss[k]))
        invariant recs == LoadLines(old(recs), lines[..i])
      {
        assert lines[..i + 1][..i] == lines[..i];
        LoadOne(lines[i]);
      }
      assert lines[..|lines|] == lines;
      return true;
    }
  }

  /** Saving a table and loading it into a fresh one gives the same entries in reversed order. */
  method Restart(data: Learner) returns (again: Learner)
    requires data.Valid() && Sound(data.recs)
    ensures again.Valid() && again.recs == Reversed(data.recs)
  {
    var lines := data.Save();
    again := new Learner();
    var ok := again.Load(Some(lines));
    LoadOfSave(data.recs);
    ReloadedLines(data.recs);
  }

  lemma ReloadedLines(recs: seq<Rec>)
    ensures Saved(recs) != [] && Saved(recs)[0] == Header
    ensures LoadLines([], Saved(recs)[1..]) == LoadLines([], Saved(recs))
  {
    LoadLinesSplit([], [Header], Saved(recs)[1..]);
    assert LoadLines([], [Header]) == [];
    assert [Header] + Saved(recs)[1..] == Saved(recs);
  }
}
