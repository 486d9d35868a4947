/**
 What the learning background scan remembers of an ESS: for each BSS the channel it was last heard on and
 the BSSes that were heard together with it. Values only; the objects that hold them are in BgscanLearn.
 */
module LearnModel {
  import opened Common

  type Mac = nat

  datatype Rec = Rec(bssid: Mac, freq: int, neigh: seq<Mac>)

  /** A scan result; `matches` says whether it carries the SSID of the network. */
  datatype ScanRes = ScanRes(bssid: Mac, freq: int, matches: bool)

  /** At most this many addresses of one scan are offered as neighbors. */
  const MAX_BSS := 50

  // ------------------------------------------------------------ the invariant

  ghost predicate Distinct(recs: seq<Rec>) {
    forall i, j :: 0 <= i < j < |recs| ==> recs[i].bssid != recs[j].bssid
  }

  ghost predicate NeighborsSound(r: Rec) {
    r.bssid !in r.neigh && forall i, j :: 0 <= i < j < |r.neigh| ==> r.neigh[i] != r.neigh[j]
  }

  ghost predicate AllNeighborsSound(recs: seq<Rec>) {
    forall i :: 0 <= i < |recs| ==> NeighborsSound(recs[i])
  }

  ghost predicate Sound(recs: seq<Rec>) {
    Distinct(recs) && AllNeighborsSound(recs)
  }

  // ------------------------------------------------------------ neighbors

  function WithNeighbor(owner: Mac, neigh: seq<Mac>, addr: Mac): seq<Mac> {
    if addr == owner || addr in neigh then neigh else neigh + [addr]
  }

  function WithNeighbors(owner: Mac, neigh: seq<Mac>, addrs: seq<Mac>): seq<Mac>
    decreases addrs
  {
    if addrs == [] then neigh else WithNeighbors(owner, WithNeighbor(owner, neigh, addrs[0]), addrs[1..])
  }

  lemma WithNeighborsLast(owner: Mac, neigh: seq<Mac>, addrs: seq<Mac>, j: nat)
    requires j < |addrs|
    ensures WithNeighbors(owner, neigh, addrs[..j + 1]) == WithNeighbor(owner, WithNeighbors(owner, neigh, addrs[..j]), addrs[j])
    decreases j
  {
    if j > 0 {
      WithNeighborsLast(owner, WithNeighbor(owner, neigh, addrs[0]), addrs[1..], j - 1);
      assert addrs[..j + 1][1..] == addrs[1..][..j] && addrs[..j][1..] == addrs[1..][..j - 1];
    }
  }

  /** The old neighbors stay in place, and exactly the offered addresses other than the owner's are added. */
  lemma {:induction false} NeighborsAre(owner: Mac, neigh: seq<Mac>, addrs: seq<Mac>)
    ensures var r := WithNeighbors(owner, neigh, addrs);
            && neigh <= r
            && (forall x :: x in r <==> x in neigh || (x in addrs && x != owner))
            && forall f :: NeighborsSound(Rec(owner, f, neigh)) ==> NeighborsSound(Rec(owner, f, r))
    decreases addrs
  {
    if addrs != [] {
      NeighborsAre(owner, WithNeighbor(owner, neigh, addrs[0]), addrs[1..]);
    }
  }

  /** What is already known adds nothing. */
  lemma {:induction false} NothingNew(owner: Mac, neigh: seq<Mac>, addrs: seq<Mac>)
    requires forall x :: x in addrs ==> x == owner || x in neigh
    ensures WithNeighbors(owner, neigh, addrs) == neigh
    decreases addrs
  {
    if addrs != [] {
      assert addrs[0] in addrs;
      NothingNew(owner, neigh, addrs[1..]);
    }
  }

  // ------------------------------------------------------------ the table

  /** The first entry for a BSSID, or the length of the table. */
  function Position(recs: seq<Rec>, bssid: Mac): (p: nat)
    ensures p <= |recs| && (p < |recs| ==> recs[p].bssid == bssid)
    ensures forall j :: 0 <= j < p ==> recs[j].bssid != bssid
  {
    if recs == [] || recs[0].bssid == bssid then 0 else 1 + Position(recs[1..], bssid)
  }

  function Lookup(recs: seq<Rec>, bssid: Mac): Option<Rec> {
    var p := Position(recs, bssid);
    if p < |recs| then Some(recs[p]) else None
  }

  function Bssids(recs: seq<Rec>): (r: seq<Mac>)
    ensures |r| == |recs| && forall i :: 0 <= i < |recs| ==> r[i] == recs[i].bssid
  {
    seq(|recs|, i requires 0 <= i < |recs| => recs[i].bssid)
  }

  /** The entry for a BSSID that has just been heard on a channel; a new one goes to the head of the list. */
  function Noted(recs: seq<Rec>, bssid: Mac, freq: int): seq<Rec> {
    var p := Position(recs, bssid);
    if p < |recs| then recs[p := recs[p].(freq := freq)] else [Rec(bssid, freq, [])] + recs
  }

  /** An entry is offered addresses as neighbors. */
  function Join(recs: seq<Rec>, bssid: Mac, addrs: seq<Mac>): seq<Rec> {
    var p := Position(recs, bssid);
    if p < |recs| then recs[p := recs[p].(neigh := WithNeighbors(bssid, recs[p].neigh, addrs))] else recs
  }

  // ------------------------------------------------------------ one scan

  /** The addresses of the first 50 matching results. */
  function Heard(results: seq<ScanRes>): (r: seq<Mac>)
    ensures |r| <= MAX_BSS
  {
    if results == [] then []
    else
      var n := |results| - 1;
      var before := Heard(results[..n]);
      if results[n].matches && |before| < MAX_BSS then before + [results[n].bssid] else before
  }

  function NoteAll(recs: seq<Rec>, results: seq<ScanRes>, addrs: seq<Mac>): seq<Rec> {
    if results == [] then recs
    else
      var n := |results| - 1;
      var before := NoteAll(recs, results[..n], addrs);
      var r := results[n];
      if r.matches then Join(Noted(before, r.bssid, r.freq), r.bssid, addrs) else before
  }

  /** The table after a scan. */
  function Notify(recs: seq<Rec>, results: seq<ScanRes>): seq<Rec> {
    NoteAll(recs, results, Heard(results))
  }

  /** The channel of the last matching result for a BSSID. */
  function LastFreq(results: seq<ScanRes>, bssid: Mac): Option<int> {
    if results == [] then None
    else
      var n := |results| - 1;
      if results[n].matches && results[n].bssid == bssid then Some(results[n].freq) else LastFreq(results[..n], bssid)
  }

  /** What a scan leaves of the entry for one BSSID. */
  function AfterScan(was: Option<Rec>, bssid: Mac, results: seq<ScanRes>, addrs: seq<Mac>): Option<Rec> {
    match LastFreq(results, bssid)
    case None => was
    case Some(f) => Some(Rec(bssid, f, WithNeighbors(bssid, if was.Some? then was.value.neigh else [], addrs)))
  }

  lemma NotedIs(recs: seq<Rec>, bssid: Mac, freq: int, b: Mac)
    ensures var r := Noted(recs, bssid, freq);
            Lookup(r, b) == if b != bssid then Lookup(recs, b)
                            else Some(Rec(b, freq, if Lookup(recs, b).Some? then Lookup(recs, b).value.neigh else []))
  {
    var r := Noted(recs, bssid, freq);
    var p := Position(recs, bssid);
    var q := Position(recs, b);
    PositionIs(r, b, if p < |recs| then q else if b == bssid then 0 else q + 1);
  }

  lemma JoinIs(recs: seq<Rec>, bssid: Mac, addrs: seq<Mac>, b: Mac)
    ensures var r := Join(recs, bssid, addrs);
            Lookup(r, b) == if b != bssid || Lookup(recs, b).None? then Lookup(recs, b)
                            else Some(Lookup(recs, b).value.(neigh := WithNeighbors(b, Lookup(recs, b).value.neigh, addrs)))
  {
    PositionIs(Join(recs, bssid, addrs), b, Position(recs, b));
  }

  /** A position is known from what Position promises about it. */
  lemma PositionIs(recs: seq<Rec>, b: Mac, p: nat)
    requires p <= |recs| && (p < |recs| ==> recs[p].bssid == b)
    requires forall j :: 0 <= j < p ==> recs[j].bssid != b
    ensures Position(recs, b) == p
  {
  }

  lemma {:induction false} NoteAllIs(recs: seq<Rec>, results: seq<ScanRes>, addrs: seq<Mac>, b: Mac)
    ensures Lookup(NoteAll(recs, results, addrs), b) == AfterScan(Lookup(recs, b), b, results, addrs)
  {
    if results != [] {
      var n := |results| - 1;
      var before := NoteAll(recs, results[..n], addrs);
      var r := results[n];
      NoteAllIs(recs, results[..n], addrs, b);
      if r.matches {
        NotedIs(before, r.bssid, r.freq, b);
        JoinIs(Noted(before, r.bssid, r.freq), r.bssid, addrs, b);
        if r.bssid == b {
          var neigh := if Lookup(recs, b).Some? then Lookup(recs, b).value.neigh else [];
          var known := WithNeighbors(b, neigh, addrs);
          NeighborsAre(b, neigh, addrs);
          NothingNew(b, known, addrs);
        }
      }
    }
  }

  /**
   What one scan does to the entry for any BSSID: an entry that was not heard stays as it was; one that was
   heard has the channel of its last result, and the addresses that were heard joined to its neighbors once,
   however often it occurs in the results.
   */
  lemma NotifyIs(recs: seq<Rec>, results: seq<ScanRes>, b: Mac)
    ensures Lookup(Notify(recs, results), b) == AfterScan(Lookup(recs, b), b, results, Heard(results))
  {
    NoteAllIs(recs, results, Heard(results), b);
  }

  lemma {:induction false} HeardIs(results: seq<ScanRes>, b: Mac)
    ensures b in Heard(results) ==> LastFreq(results, b).Some?
    ensures LastFreq(results, b).Some? && |Heard(results)| < MAX_BSS ==> b in Heard(results)
  {
    if results != [] {
      HeardIs(results[..|results| - 1], b);
    }
  }

  lemma HeardWith(recs: seq<Rec>, results: seq<ScanRes>, a: Mac, b: Mac)
    requires a != b && LastFreq(results, a).Some? && LastFreq(results, b).Some? && |Heard(results)| < MAX_BSS
    ensures var r := Lookup(Notify(recs, results), a);
            r.Some? && b in r.value.neigh
  {
    NotifyIs(recs, results, a);
    HeardIs(results, b);
    NeighborsAre(a, if Lookup(recs, a).Some? then Lookup(recs, a).value.neigh else [], Heard(results));
  }

  /** Two BSSes of a scan with fewer than 50 matching results become neighbors of each other. */
  lemma HeardTogether(recs: seq<Rec>, results: seq<ScanRes>, a: Mac, b: Mac)
    requires a != b && LastFreq(results, a).Some? && LastFreq(results, b).Some? && |Heard(results)| < MAX_BSS
    ensures var r := Notify(recs, results);
            && Lookup(r, a).Some? && b in Lookup(r, a).value.neigh
            && Lookup(r, b).Some? && a in Lookup(r, b).value.neigh
  {
    HeardWith(recs, results, a, b);
    HeardWith(recs, results, b, a);
  }

  lemma JoinKeepsSound(recs: seq<Rec>, bssid: Mac, addrs: seq<Mac>)
    ensures Bssids(Join(recs, bssid, addrs)) == Bssids(recs)
    ensures Distinct(recs) ==> Distinct(Join(recs, bssid, addrs))
    ensures AllNeighborsSound(recs) ==> AllNeighborsSound(Join(recs, bssid, addrs))
  {
    var p := Position(recs, bssid);
    if p < |recs| {
      NeighborsAre(bssid, recs[p].neigh, addrs);
      assert recs[p] == Rec(bssid, recs[p].freq, recs[p].neigh);
      var r := Join(recs, bssid, addrs);
      assert forall i :: 0 <= i < |r| ==> r[i].bssid == recs[i].bssid && (i != p ==> r[i] == recs[i]);
    }
  }

  lemma NotedKeepsSound(recs: seq<Rec>, bssid: Mac, freq: int)
    requires Sound(recs)
    ensures Sound(Noted(recs, bssid, freq))
  {
    var p := Position(recs, bssid);
    var r := Noted(recs, bssid, freq);
    if p < |recs| {
      assert NeighborsSound(recs[p]);
      assert Bssids(r) == Bssids(recs);
      forall i, j | 0 <= i < j < |r| ensures r[i].bssid != r[j].bssid {
        assert r[i].bssid == recs[i].bssid && r[j].bssid == recs[j].bssid;
      }
    }
  }

  lemma NotedKeepsBssids(recs: seq<Rec>, bssid: Mac, freq: int)
    ensures Bssids(Noted(recs, bssid, freq)) ==
            if Position(recs, bssid) < |recs| then Bssids(recs) else [bssid] + Bssids(recs)
  {
  }

  /** Scans keep BSSIDs distinct and neighbor lists free of repeats and of their owner. */
  lemma {:induction false} NoteAllKeepsSound(recs: seq<Rec>, results: seq<ScanRes>, addrs: seq<Mac>)
    requires Sound(recs)
    ensures Sound(NoteAll(recs, results, addrs))
  {
    if results != [] {
      var n := |results| - 1;
      var before := NoteAll(recs, results[..n], addrs);
      NoteAllKeepsSound(recs, results[..n], addrs);
      if results[n].matches {
        NotedKeepsSound(before, results[n].bssid, results[n].freq);
        JoinKeepsSound(Noted(before, results[n].bssid, results[n].freq), results[n].bssid, addrs);
      }
    }
  }

  predicate IsSuffix(s: seq<Mac>, of: seq<Mac>) {
    |s| <= |of| && of[|of| - |s|..] == s
  }

  lemma SuffixGrows(s: seq<Mac>, of: seq<Mac>, x: Mac)
    requires IsSuffix(s, of)
    ensures IsSuffix(s, [x] + of)
  {
    assert ([x] + of)[1 + |of| - |s|..] == of[|of| - |s|..];
  }

  /** Scans add entries only at the head of the list, and remove or move none. */
  lemma {:induction false} NoteAllKeepsOrder(recs: seq<Rec>, results: seq<ScanRes>, addrs: seq<Mac>)
    ensures IsSuffix(Bssids(recs), Bssids(NoteAll(recs, results, addrs)))
  {
    if results != [] {
      var n := |results| - 1;
      var before := NoteAll(recs, results[..n], addrs);
      var r := results[n];
      NoteAllKeepsOrder(recs, results[..n], addrs);
      if r.matches {
        NotedKeepsBssids(before, r.bssid, r.freq);
        JoinKeepsSound(Noted(before, r.bssid, r.freq), r.bssid, addrs);
        SuffixGrows(Bssids(recs), Bssids(before), r.bssid);
      }
    }
  }

  /** The table after any number of scans, the first one first. */
  function NotifyMany(recs: seq<Rec>, scans: seq<seq<ScanRes>>): seq<Rec>
    decreases scans
  {
    if scans == [] then recs else NotifyMany(Notify(recs, scans[0]), scans[1..])
  }

  lemma {:induction false} NotifyManyKeepsSound(recs: seq<Rec>, scans: seq<seq<ScanRes>>)
    requires Sound(recs)
    ensures Sound(NotifyMany(recs, scans))
    decreases scans
  {
    if scans != [] {
      NoteAllKeepsSound(recs, scans[0], Heard(scans[0]));
      NotifyManyKeepsSound(Notify(recs, scans[0]), scans[1..]);
    }
  }

  // ------------------------------------------------------------ the data file

  /** A line of the data file; an address that does not parse is None. */
  datatype Line =
    | Header
    | BssLine(addr: Option<Mac>, freq: int)
    | NeighborLine(owner: Option<Mac>, addr: Option<Mac>)
    | Other

  function BssLines(recs: seq<Rec>): (r: seq<Line>)
    ensures |r| == |recs|
  {
    seq(|recs|, i requires 0 <= i < |recs| => BssLine(Some(recs[i].bssid), recs[i].freq))
  }

  function NeighborLines(owner: Mac, neigh: seq<Mac>): (r: seq<Line>)
    ensures |r| == |neigh|
  {
    seq(|neigh|, i requires 0 <= i < |neigh| => NeighborLine(Some(owner), Some(neigh[i])))
  }

  function AllNeighborLines(recs: seq<Rec>): seq<Line> {
    if recs == [] then []
    else
      var n := |recs| - 1;
      AllNeighborLines(recs[..n]) + NeighborLines(recs[n].bssid, recs[n].neigh)
  }

  function Saved(recs: seq<Rec>): seq<Line> {
    [Header] + BssLines(recs) + AllNeighborLines(recs)
  }

  function LoadLine(recs: seq<Rec>, line: Line): seq<Rec> {
    match line
    case BssLine(Some(addr), freq) => [Rec(addr, freq, [])] + recs
    case NeighborLine(Some(owner), Some(addr)) => Join(recs, owner, [addr])
    case _ => recs
  }

  function LoadLines(recs: seq<Rec>, lines: seq<Line>): seq<Rec> {
    if lines == [] then recs
    else LoadLine(LoadLines(recs, lines[..|lines| - 1]), lines[|lines| - 1])
  }

  lemma {:induction false} LoadLinesSplit(recs: seq<Rec>, a: seq<Line>, b: seq<Line>)
    ensures LoadLines(recs, a + b) == LoadLines(LoadLines(recs, a), b)
  {
    if b == [] {
      assert a + b == a;
    } else {
      var n := |b| - 1;
      LoadLinesSplit(recs, a, b[..n]);
      assert (a + b)[..|a + b| - 1] == a + b[..n];
    }
  }

  function Reversed<T>(s: seq<T>): (r: seq<T>)
    ensures |r| == |s| && forall i :: 0 <= i < |s| ==> r[i] == s[|s| - 1 - i]
  {
    seq(|s|, i requires 0 <= i < |s| => s[|s| - 1 - i])
  }

  /** Entries before their neighbors are read. */
  function Bare(recs: seq<Rec>): (r: seq<Rec>)
    ensures |r| == |recs| && forall i :: 0 <= i < |recs| ==> r[i] == recs[i].(neigh := [])
  {
    seq(|recs|, i requires 0 <= i < |recs| => recs[i].(neigh := []))
  }

  lemma {:induction false} LoadBssLines(recs: seq<Rec>)
    ensures LoadLines([], BssLines(recs)) == Reversed(Bare(recs))
  {
    if recs != [] {
      var n := |recs| - 1;
      LoadBssLines(recs[..n]);
      assert BssLines(recs)[..n] == BssLines(recs[..n]);
      assert Reversed(Bare(recs)) == [recs[n].(neigh := [])] + Reversed(Bare(recs[..n]));
    }
  }

  /** The entries with the neighbors of the first n entries, and k neighbors of the next one, read back. */
  function Partly(recs: seq<Rec>, n: nat, k: nat): (r: seq<Rec>)
    requires n < |recs| && k <= |recs[n].neigh|
    ensures |r| == |recs|
    ensures forall i :: 0 <= i < |recs| ==>
              r[i] == recs[i].(neigh := if i < n then recs[i].neigh else if i == n then recs[n].neigh[..k] else [])
  {
    recs[..n] + [recs[n].(neigh := recs[n].neigh[..k])] + Bare(recs[n + 1..])
  }

  lemma ReversedUpdate<T>(s: seq<T>, i: nat, x: T)
    requires i < |s|
    ensures Reversed(s)[|s| - 1 - i := x] == Reversed(s[i := x])
  {
  }

  lemma ReversedPosition(s: seq<Rec>, i: nat)
    requires Distinct(s) && i < |s|
    ensures Position(Reversed(s), s[i].bssid) == |s| - 1 - i
  {
    PositionIs(Reversed(s), s[i].bssid, |s| - 1 - i);
  }

  lemma PartlyPosition(recs: seq<Rec>, n: nat, k: nat)
    requires Distinct(recs) && n < |recs| && k <= |recs[n].neigh|
    ensures Position(Reversed(Partly(recs, n, k)), recs[n].bssid) == |recs| - 1 - n
  {
    var p := Partly(recs, n, k);
    assert forall i :: 0 <= i < |p| ==> p[i].bssid == recs[i].bssid;
    ReversedPosition(p, n);
  }

  lemma OneMore(r: Rec, k: nat)
    requires NeighborsSound(r) && k < |r.neigh|
    ensures WithNeighbors(r.bssid, r.neigh[..k], [r.neigh[k]]) == r.neigh[..k + 1]
  {
    assert r.neigh[k] !in r.neigh[..k] && r.neigh[k] in r.neigh;
    assert r.neigh[..k + 1] == r.neigh[..k] + [r.neigh[k]];
  }

  lemma LoadNeighbor(recs: seq<Rec>, n: nat, k: nat)
    requires Sound(recs) && n < |recs| && k < |recs[n].neigh|
    ensures Join(Reversed(Partly(recs, n, k)), recs[n].bssid, [recs[n].neigh[k]]) == Reversed(Partly(recs, n, k + 1))
  {
    var p := Partly(recs, n, k);
    PartlyPosition(recs, n, k);
    OneMore(recs[n], k);
    var x := p[n].(neigh := recs[n].neigh[..k + 1]);
    assert p[n := x] == Partly(recs, n, k + 1);
    ReversedUpdate(p, n, x);
  }

  lemma {:induction false} LoadNeighborLines(recs: seq<Rec>, n: nat, k: nat)
    requires Sound(recs) && n < |recs| && k <= |recs[n].neigh|
    ensures LoadLines(Reversed(Partly(recs, n, 0)), NeighborLines(recs[n].bssid, recs[n].neigh)[..k]) == Reversed(Partly(recs, n, k))
    decreases k
  {
    if k > 0 {
      LoadNeighborLines(recs, n, k - 1);
      LoadNeighbor(recs, n, k - 1);
      var lines := NeighborLines(recs[n].bssid, recs[n].neigh);
      assert lines[..k][..k - 1] == lines[..k - 1];
    }
  }

  lemma PartlyStarts(recs: seq<Rec>, n: nat)
    requires n < |recs|
    ensures Partly(recs, n, 0) == recs[..n] + Bare(recs[n..])
    ensures Partly(recs, n, |recs[n].neigh|) == recs[..n + 1] + Bare(recs[n + 1..])
  {
    assert recs[n].neigh[..|recs[n].neigh|] == recs[n].neigh;
  }

  lemma {:induction false} LoadAllNeighborLines(recs: seq<Rec>, n: nat)
    requires Sound(recs) && n <= |recs|
    ensures LoadLines(Reversed(Bare(recs)), AllNeighborLines(recs[..n])) == Reversed(recs[..n] + Bare(recs[n..]))
    decreases n
  {
    if n == 0 {
      assert recs[..0] + Bare(recs[0..]) == Bare(recs);
    } else {
      var m := n - 1;
      var lines := NeighborLines(recs[m].bssid, recs[m].neigh);
      LoadAllNeighborLines(recs, m);
      PartlyStarts(recs, m);
      LoadNeighborLines(recs, m, |lines|);
      assert lines[..|lines|] == lines;
      LoadLinesSplit(Reversed(Bare(recs)), AllNeighborLines(recs[..m]), lines);
      assert recs[..n][..m] == recs[..m];
    }
  }

  /** Loading what was saved gives every entry back, with its channel and its neighbors in order, in reversed order. */
  lemma LoadOfSave(recs: seq<Rec>)
    requires Sound(recs)
    ensures LoadLines([], Saved(recs)) == Reversed(recs)
  {
    var lines := BssLines(recs) + AllNeighborLines(recs);
    assert Saved(recs) == [Header] + lines;
    LoadLinesSplit([], [Header], lines);
    assert LoadLines([], [Header]) == [];
    LoadLinesSplit([], BssLines(recs), AllNeighborLines(recs));
    LoadBssLines(recs);
    LoadAllNeighborLines(recs, |recs|);
    assert recs[..|recs|] == recs && recs + Bare(recs[|recs|..]) == recs;
  }

  lemma ReversedKeepsSound(recs: seq<Rec>)
    requires Sound(recs)
    ensures Sound(Reversed(recs)) && Reversed(Reversed(recs)) == recs
  {
    var r := Reversed(recs);
    forall i, j | 0 <= i < j < |r| ensures r[i].bssid != r[j].bssid {
      assert recs[|recs| - 1 - j].bssid != recs[|recs| - 1 - i].bssid;
    }
    forall i | 0 <= i < |r| ensures NeighborsSound(r[i]) {
      assert NeighborsSound(recs[|recs| - 1 - i]);
    }
  }

  /** Saving and loading twice gives the table back as it was. */
  lemma TwiceIsIdentity(recs: seq<Rec>)
    requires Sound(recs)
    ensures LoadLines([], Saved(LoadLines([], Saved(recs)))) == recs
  {
    LoadOfSave(recs);
    ReversedKeepsSound(recs);
    LoadOfSave(Reversed(recs));
  }

  /** The BSS lines of a file with an address that parses, the last one first. */
  function FileBssids(lines: seq<Line>): seq<Mac> {
    if lines == [] then []
    else
      var n := |lines| - 1;
      match lines[n]
      case BssLine(Some(addr), _) => [addr] + FileBssids(lines[..n])
      case _ => FileBssids(lines[..n])
  }

  lemma {:induction false} LoadLinesAre(lines: seq<Line>)
    ensures Bssids(LoadLines([], lines)) == FileBssids(lines)
    ensures AllNeighborsSound(LoadLines([], lines))
  {
    if lines != [] {
      var n := |lines| - 1;
      var before := LoadLines([], lines[..n]);
      LoadLinesAre(lines[..n]);
      match lines[n]
      case BssLine(Some(addr), freq) =>
        assert Bssids([Rec(addr, freq, [])] + before) == [addr] + Bssids(before);
      case NeighborLine(Some(owner), Some(addr)) =>
        JoinKeepsSound(before, owner, [addr]);
      case _ =>
    }
  }

  /**
   Loading does not look for an entry before it adds one: whatever the file holds, the neighbor lists come out
   sound, but the BSSIDs come out distinct exactly when no two BSS lines of the file name the same one.
   */
  lemma LoadIsSoundExactlyWhen(lines: seq<Line>)
    ensures var b := FileBssids(lines);
            Sound(LoadLines([], lines)) <==> forall i, j :: 0 <= i < j < |b| ==> b[i] != b[j]
  {
    LoadLinesAre(lines);
    var r := LoadLines([], lines);
    var b := FileBssids(lines);
    assert forall i :: 0 <= i < |r| ==> Bssids(r)[i] == r[i].bssid;
    if forall i, j :: 0 <= i < j < |b| ==> b[i] != b[j] {
      forall i, j | 0 <= i < j < |r| ensures r[i].bssid != r[j].bssid {
        assert b[i] != b[j];
      }
    }
    if Distinct(r) {
      forall i, j | 0 <= i < j < |b| ensures b[i] != b[j] {
        assert r[i].bssid != r[j].bssid;
      }
    }
  }

  /** Two lines for the same BSS give two entries for it. */
  lemma DuplicateLinesLoadTwice(b: Mac, f: int, g: int)
    ensures var lines := [BssLine(Some(b), f), BssLine(Some(b), g)];
            LoadLines([], lines) == [Rec(b, g, []), Rec(b, f, [])] && !Sound(LoadLines([], lines))
  {
    var lines := [BssLine(Some(b), f), BssLine(Some(b), g)];
    LoadLinesSplit([], lines[..1], lines[1..]);
    assert lines == lines[..1] + lines[1..] && lines[1..][..0] == [] && lines[..1][..0] == [];
    assert LoadLines([], lines[..1]) == [Rec(b, f, [])];
    assert LoadLines([], lines)[0].bssid == LoadLines([], lines)[1].bssid;
  }

  /** The table of a fresh start survives a restart of the daemon, whatever scans filled it. */
  lemma LearnedSurvivesRestart(scans: seq<seq<ScanRes>>)
    ensures LoadLines([], Saved(NotifyMany([], scans))) == Reversed(NotifyMany([], scans))
  {
    NotifyManyKeepsSound([], scans);
    LoadOfSave(NotifyMany([], scans));
  }
}
