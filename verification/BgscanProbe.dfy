/**
 The probe of the learning background scan: each scan covers the frequencies on which the ESS has
 been seen, and one supported frequency more, taken in turn. Frequency arrays end with a 0; a BSS with
 frequency 0, which a data file can bring in, hides what stands behind it in the array.
 */
module BgscanProbe {
  import opened Common
  import opened RoundRobin
  import opened ZeroTerminated

  /** Which supported frequencies have not been learned. */
  function Unlearned(supported: seq<int>, learned: seq<int>): seq<bool> {
    seq(|supported|, i requires 0 <= i < |supported| => supported[i] !in learned)
  }

  method InArray(list: Freqs, val: int) returns (found: bool)
    requires Ended(list)
    ensures found <==> val in Visible(list)
  {
    if list.None? { return false; }
    var s := list.value;
    var i := 0;
    while s[i] != 0
      invariant 0 <= i < |s| && forall j :: 0 <= j < i ==> s[j] != val && s[j] != 0
      decreases |s| - i
    {
      if s[i] == val {
        assert i < |Visible(list)| && Visible(list)[i] == val;
        return true;
      }
      i := i + 1;
    }
    UntilZeroIs(s, i);
    return false;
  }

  lemma UntilZeroGrows(s: seq<int>, i: nat)
    requires i < |s|
    ensures UntilZero(s[..i + 1]) == UntilZero(s[..i]) + if 0 !in s[..i] && s[i] != 0 then [s[i]] else []
  {
    var n := |UntilZero(s[..i])|;
    if n < i { assert s[..i][n] == 0; }
    UntilZeroIs(s[..i + 1], if n == i && s[i] != 0 then i + 1 else n);
  }

  /** Appends a frequency that is not in the array yet. */
  method AddNew(freqs: Freqs, freq: int) returns (r: Freqs)
    requires Ended(freqs)
    ensures Ended(r) && (Complete(r) <==> Complete(freqs) && freq != 0)
    ensures Visible(r) == if Complete(freqs) && freq != 0 && freq !in Visible(freqs) then Visible(freqs) + [freq] else Visible(freqs)
    ensures WellFormed(freqs) && freq != 0 ==>
              && r.Some? && WellFormed(r)
              && Values(r) == if freq in Values(freqs) then Values(freqs) else Values(freqs) + [freq]
  {
    r := freqs;
    var known := InArray(freqs, freq);
    AppendIs(freqs, freq);
    if !known { r := Append(freqs, freq); }
    AddNewIsWellFormed(freqs, freq, r);
  }

  lemma AddNewIsWellFormed(freqs: Freqs, freq: int, r: Freqs)
    requires Ended(freqs) && r == if freq in Visible(freqs) then freqs else Append(freqs, freq)
    ensures WellFormed(freqs) && freq != 0 ==>
              && r.Some? && WellFormed(r)
              && Values(r) == if freq in Values(freqs) then Values(freqs) else Values(freqs) + [freq]
  {
    if WellFormed(freqs) && freq != 0 {
      WellFormedIsComplete(freqs);
      AppendKeepsWellFormed(freqs, freq);
    }
  }

  /** The elements of a list in order of their first occurrence. */
  function Uniques(s: seq<int>): seq<int> {
    if s == [] then []
    else
      var before := Uniques(s[..|s| - 1]);
      if s[|s| - 1] in before then before else before + [s[|s| - 1]]
  }

  lemma {:induction false} UniquesAre(s: seq<int>)
    ensures forall f :: f in Uniques(s) <==> f in s
    ensures forall i, j :: 0 <= i < j < |Uniques(s)| ==> Uniques(s)[i] != Uniques(s)[j]
  {
    if s != [] {
      UniquesAre(s[..|s| - 1]);
      assert s == s[..|s| - 1] + [s[|s| - 1]];
    }
  }

  lemma UniquesStep(s: seq<int>, x: int)
    ensures Uniques(s + [x]) == if x in Uniques(s) then Uniques(s) else Uniques(s) + [x]
  {
    assert (s + [x])[..|s|] == s;
  }

  /** The array shows the frequencies of these entries, each once, as far as none is 0. */
  ghost predicate Shows(freqs: Freqs, seen: seq<int>) {
    Ended(freqs) && (Complete(freqs) <==> 0 !in seen) && Visible(freqs) == Uniques(UntilZero(seen))
  }

  lemma VisibleStep(seen: seq<int>, f: int)
    ensures var u := Uniques(UntilZero(seen));
            Uniques(UntilZero(seen + [f])) == if 0 !in seen && f != 0 && f !in u then u + [f] else u
  {
    assert (seen + [f])[..|seen|] == seen && (seen + [f])[..|seen| + 1] == seen + [f];
    UntilZeroGrows(seen + [f], |seen|);
    UniquesStep(UntilZero(seen), f);
    assert UntilZero(seen) + [] == UntilZero(seen);
  }

  method AddSeen(freqs: Freqs, ghost seen: seq<int>, f: int) returns (r: Freqs)
    requires Shows(freqs, seen)
    ensures Shows(r, seen + [f])
  {
    VisibleStep(seen, f);
    r := AddNew(freqs, f);
  }

  /** The frequencies of the entries of the ESS, each once, as far as no entry has the frequency 0. */
  method GetFreqs(seen: seq<int>) returns (freqs: Freqs)
    ensures Shows(freqs, seen)
  {
    freqs := None;
    for i := 0 to |seen|
      invariant Shows(freqs, seen[..i])
    {
      freqs := AddSeen(freqs, seen[..i], seen[i]);
      assert seen[..i + 1] == seen[..i] + [seen[i]];
    }
    assert seen[..|seen|] == seen;
  }

  datatype Channel = Channel(freq: int, disabled: bool)

  function EnabledOf(channels: seq<Channel>): seq<int> {
    if channels == [] then []
    else
      var n := |channels| - 1;
      EnabledOf(channels[..n]) + if channels[n].disabled then [] else [channels[n].freq]
  }

  /** The frequencies of the enabled channels of all modes. */
  function Enabled(modes: seq<seq<Channel>>): seq<int> {
    if modes == [] then [] else Enabled(modes[..|modes| - 1]) + EnabledOf(modes[|modes| - 1])
  }

  lemma {:induction false} EnabledOfIs(channels: seq<Channel>, f: int)
    ensures f in EnabledOf(channels) <==> Channel(f, false) in channels
  {
    if channels != [] {
      EnabledOfIs(channels[..|channels| - 1], f);
      assert channels == channels[..|channels| - 1] + [channels[|channels| - 1]];
    }
  }

  lemma {:induction false} EnabledIs(modes: seq<seq<Channel>>, f: int)
    ensures f in Enabled(modes) <==> exists i :: 0 <= i < |modes| && Channel(f, false) in modes[i]
  {
    if modes != [] {
      var n := |modes| - 1;
      EnabledIs(modes[..n], f);
      EnabledOfIs(modes[n], f);
    }
  }

  method AddChannels(before: Freqs, ghost done: seq<int>, channels: seq<Channel>) returns (freqs: Freqs)
    requires WellFormed(before) && Values(before) == Uniques(done) && (before.Some? ==> Values(before) != [])
    requires forall j :: 0 <= j < |channels| ==> channels[j].freq != 0
    ensures WellFormed(freqs) && Values(freqs) == Uniques(done + EnabledOf(channels)) && (freqs.Some? ==> Values(freqs) != [])
  {
    freqs := before;
    assert done + EnabledOf(channels[..0]) == done;
    for j := 0 to |channels|
      invariant WellFormed(freqs) && Values(freqs) == Uniques(done + EnabledOf(channels[..j]))
      invariant freqs.Some? ==> Values(freqs) != []
    {
      assert channels[..j + 1][..j] == channels[..j];
      if channels[j].disabled {
        assert EnabledOf(channels[..j + 1]) == EnabledOf(channels[..j]);
        continue;
      }
      WellFormedIsComplete(freqs);
      UniquesStep(done + EnabledOf(channels[..j]), channels[j].freq);
      assert done + EnabledOf(channels[..j + 1]) == (done + EnabledOf(channels[..j])) + [channels[j].freq];
      freqs := AddNew(freqs, channels[j].freq);
    }
    assert channels[..|channels|] == channels;
  }

  /** The enabled frequencies of all modes, each once. */
  method GetSuppFreqs(modes: seq<seq<Channel>>) returns (freqs: Freqs)
    requires forall i, j :: 0 <= i < |modes| && 0 <= j < |modes[i]| ==> modes[i][j].freq != 0
    ensures WellFormed(freqs) && Values(freqs) == Uniques(Enabled(modes)) && (freqs.Some? ==> Values(freqs) != [])
  {
    freqs := None;
    for i := 0 to |modes|
      invariant WellFormed(freqs) && Values(freqs) == Uniques(Enabled(modes[..i])) && (freqs.Some? ==> Values(freqs) != [])
    {
      assert modes[..i + 1][..i] == modes[..i];
      freqs := AddChannels(freqs, Enabled(modes[..i]), modes[i]);
    }
    assert modes[..|modes|] == modes;
  }

  /** What is known leaves the same supported frequencies unlearned as the entries do. */
  method KnownFreqs(seen: seq<int>, ghost supported: seq<int>) returns (freqs: Freqs)
    ensures Shows(freqs, seen) && Unlearned(supported, Visible(freqs)) == Unlearned(supported, UntilZero(seen))
  {
    freqs := GetFreqs(seen);
    UniquesAre(UntilZero(seen));
    SameUnlearned(supported, Visible(freqs), UntilZero(seen));
  }

  /** A search that started at `c` has missed `tried` positions and has come to `idx`. */
  ghost predicate Searching(m: seq<bool>, c: nat, idx: nat, tried: nat) {
    && c < |m| && idx < |m| && tried < |m|
    && idx == (if c + tried < |m| then c + tried else c + tried - |m|)
    && if idx >= c then forall j :: c <= j < idx ==> !m[j]
       else (forall j :: c <= j < |m| ==> !m[j]) && forall j :: 0 <= j < idx ==> !m[j]
  }

  lemma SearchHits(m: seq<bool>, c: nat, idx: nat, tried: nat)
    requires Searching(m, c, idx, tried) && m[idx]
    ensures Hit(m, c) == Some(idx)
  {
    if idx >= c { HitAhead(m, c, idx); } else { HitAround(m, c, idx); }
  }

  lemma SearchMisses(m: seq<bool>, c: nat, idx: nat, tried: nat)
    requires Searching(m, c, idx, tried) && !m[idx]
    ensures var next := if idx + 1 == |m| then 0 else idx + 1;
            if next == c then Hit(m, c) == None else tried + 1 < |m| && Searching(m, c, next, tried + 1)
  {
    if (if idx + 1 == |m| then 0 else idx + 1) == c {
      HitNone(m, c);
    }
  }

  class Probe {
    var suppFreqs: Freqs
    var probeIdx: nat

    /** There is at least one supported frequency, and the index points to one. */
    ghost predicate Valid()
      reads this
    {
      WellFormed(suppFreqs) && (suppFreqs.Some? ==> probeIdx < |suppFreqs.value| - 1)
    }

    constructor (supported: Freqs)
      requires WellFormed(supported) && (supported.Some? ==> Values(supported) != [])
      ensures Valid() && suppFreqs == supported && probeIdx == 0
    {
      suppFreqs, probeIdx := supported, 0;
    }

    /** Where the next search starts. */
    ghost function Cursor(): nat
      reads this
    {
      if suppFreqs.Some? then probeIdx else 0
    }

    /** Adds the supported frequency at `idx` and goes on after it. */
    method Take(freqs: Freqs, idx: nat) returns (r: Freqs)
      requires Valid() && Ended(freqs) && idx < |Values(suppFreqs)|
      modifies this`probeIdx
      ensures Valid() && r == Append(freqs, Values(suppFreqs)[idx])
      ensures probeIdx == if idx + 1 == |Values(suppFreqs)| then 0 else idx + 1
    {
      var s := suppFreqs.value;
      probeIdx := idx + 1;
      if s[probeIdx] == 0 { probeIdx := 0; }
      return Append(freqs, s[idx]);
    }

    /** Adds the next supported frequency in turn that is not in the array yet, if there is one. */
    method GetProbeFreq(freqs: Freqs) returns (r: Freqs)
      requires Valid() && Ended(freqs)
      modifies this`probeIdx
      ensures Valid() && Ended(r)
      ensures var supported := Values(suppFreqs);
              match Hit(Unlearned(supported, Visible(freqs)), old(Cursor()))
              case None => r == freqs && probeIdx == old(probeIdx)
              case Some(i) =>
                && i < |supported| && supported[i] !in Visible(freqs)
                && r == Append(freqs, supported[i])
                && probeIdx == (if i + 1 == |supported| then 0 else i + 1)
    {
      if suppFreqs.None? { return freqs; }
      var s := suppFreqs.value;
      ghost var m := Unlearned(Values(suppFreqs), Visible(freqs));
      ghost var n := |s| - 1;
      var idx: nat := probeIdx;
      ghost var tried: nat := 0;
      while true
        invariant probeIdx == old(probeIdx) && idx < n && Searching(m, probeIdx, idx, tried)
        decreases n - tried
      {
        var known := InArray(freqs, s[idx]);
        if !known {
          SearchHits(m, probeIdx, idx, tried);
          r := Take(freqs, idx);
          return;
        }
        SearchMisses(m, probeIdx, idx, tried);
        idx := idx + 1;
        if s[idx] == 0 { idx := 0; }
        tried := tried + 1;
        if idx == probeIdx { break; }
      }
      return freqs;
    }

    ghost predicate At(learned: seq<int>, probed: seq<int>, all: seq<nat>, left: nat)
      reads this
    {
      Valid() && Cursor() <= |Values(suppFreqs)| && Underway(Values(suppFreqs), learned, Cursor(), probed, all, left)
    }

    /** The timeout of the background scan: what it scans, and what it probes, if anything. */
    method Timeout(seen: seq<int>) returns (freqs: Freqs, probe: Option<int>)
      requires Valid()
      modifies this`probeIdx
      ensures Valid() && Ended(freqs)
      ensures var supported := Values(suppFreqs);
              match Hit(Unlearned(supported, UntilZero(seen)), old(Cursor()))
              case None => probe == None && Cursor() == old(Cursor())
              case Some(i) => i < |supported| && probe == Some(supported[i]) && Cursor() == (if i + 1 == |supported| then 0 else i + 1)
      ensures Visible(freqs) == Uniques(UntilZero(seen)) + if probe.Some? && 0 !in seen then [probe.value] else []
    {
      var known := KnownFreqs(seen, Values(suppFreqs));
      freqs := GetProbeFreq(known);
      probe := None;
      if freqs != known {
        probe := Some(freqs.value[|freqs.value| - 2]);
        AppendIs(known, probe.value);
      }
    }

    /** One of several timeouts. */
    method Advance(seen: seq<int>, probed: seq<int>, ghost all: seq<nat>, ghost left: nat) returns (more: seq<int>)
      requires At(UntilZero(seen), probed, all, left) && left > 0
      modifies this`probeIdx
      ensures if more == probed then Valid() && |all| == |probed| && At(UntilZero(seen), probed, all, 0)
              else |more| == |probed| + 1 && At(UntilZero(seen), more, all, left - 1)
    {
      ghost var c := Cursor();
      var freqs, probe := Timeout(seen);
      UnderwayStep(Values(suppFreqs), UntilZero(seen), c, probed, all, left);
      more := if probe.Some? then probed + [probe.value] else probed;
    }

    /** `k` successive timeouts, while the same entries are known. */
    method Timeouts(seen: seq<int>, k: nat) returns (probed: seq<int>)
      requires Valid()
      modifies this`probeIdx
      ensures Valid()
      ensures ProbedAt(Values(suppFreqs), probed, Probes(Values(suppFreqs), UntilZero(seen), old(Cursor()), k))
    {
      probed := [];
      ghost var all := Probes(Values(suppFreqs), UntilZero(seen), Cursor(), k);
      StartUnderway(Values(suppFreqs), UntilZero(seen), Cursor(), k);
      probed := Rest(seen, k, all);
    }

    method Rest(seen: seq<int>, k: nat, ghost all: seq<nat>) returns (probed: seq<int>)
      requires At(UntilZero(seen), [], all, k)
      modifies this`probeIdx
      ensures Valid() && ProbedAt(Values(suppFreqs), probed, all)
    {
      probed := [];
      var n := 0;
      while n < k
        invariant n <= k && At(UntilZero(seen), probed, all, k - n)
      {
        var more := Advance(seen, probed, all, k - n);
        if |more| == |probed| { return; }
        probed := more;
        n := n + 1;
      }
    }
  }

  /** The frequencies at these positions. */
  predicate ProbedAt(supported: seq<int>, probed: seq<int>, all: seq<nat>) {
    |probed| == |all| && forall j :: 0 <= j < |all| ==> all[j] < |supported| && probed[j] == supported[all[j]]
  }

  /** The frequencies probed so far are those at the first visits of `all`; the rest of the visits lies ahead. */
  predicate Underway(supported: seq<int>, learned: seq<int>, c: nat, probed: seq<int>, all: seq<nat>, left: nat)
    requires c <= |supported|
  {
    && |probed| <= |all| <= |probed| + left
    && ProbedAt(supported, probed, all[..|probed|])
    && all[|probed|..] == Probes(supported, learned, c, left)
  }

  lemma StartUnderway(supported: seq<int>, learned: seq<int>, c: nat, k: nat)
    requires c <= |supported|
    ensures Underway(supported, learned, c, [], Probes(supported, learned, c, k), k)
  {
    var all := Probes(supported, learned, c, k);
    VisitsLength(Unlearned(supported, learned), c, k);
    assert all[0..] == all;
  }

  /** Which frequencies are unlearned depends only on which are learned, not on their order. */
  lemma SameUnlearned(supported: seq<int>, a: seq<int>, b: seq<int>)
    requires forall f :: f in a <==> f in b
    ensures Unlearned(supported, a) == Unlearned(supported, b)
  {
    var m, n := Unlearned(supported, a), Unlearned(supported, b);
    forall i | 0 <= i < |supported| ensures m[i] == n[i] {
      var f := supported[i];
      assert f in a <==> f in b;
    }
  }

  /** One search goes on from what was probed to what is still ahead. */
  lemma ProbesStep(all: seq<nat>, supported: seq<int>, learned: seq<int>, c: nat, count: nat, k: nat)
    requires c <= |supported| && k > 0 && count <= |all| && all[count..] == Probes(supported, learned, c, k)
    ensures match Hit(Unlearned(supported, learned), c)
            case None => |all| == count
            case Some(i) => i < |supported| && count < |all| && all[count] == i &&
                            all[count + 1..] == Probes(supported, learned, if i + 1 == |supported| then 0 else i + 1, k - 1)
  {
    ProbesContinue(supported, learned, c, k);
    if Hit(Unlearned(supported, learned), c).Some? {
      assert all[count] == all[count..][0];
      assert all[count + 1..] == all[count..][1..];
    }
  }

  /** One timeout goes on from what was probed to what is still ahead, or finds nothing ahead any more. */
  lemma UnderwayStep(supported: seq<int>, learned: seq<int>, c: nat, probed: seq<int>, all: seq<nat>, left: nat)
    requires c <= |supported| && left > 0 && Underway(supported, learned, c, probed, all, left)
    ensures match Hit(Unlearned(supported, learned), c)
            case None => |all| == |probed| && Underway(supported, learned, c, probed, all, 0)
            case Some(i) => i < |supported| &&
                            Underway(supported, learned, if i + 1 == |supported| then 0 else i + 1, probed + [supported[i]], all, left - 1)
  {
    ProbesStep(all, supported, learned, c, |probed|, left);
    if Hit(Unlearned(supported, learned), c).Some? {
      var done := |probed| + 1;
      assert all[..done] == all[..|probed|] + [all[|probed|]];
      VisitsLength(Unlearned(supported, learned), if all[|probed|] + 1 == |supported| then 0 else all[|probed|] + 1, left - 1);
    }
  }

  /** The frequencies probed by `k` successive scans that start at index `c`, while nothing new is learned. */
  function Probes(supported: seq<int>, learned: seq<int>, c: nat, k: nat): seq<nat>
    requires c <= |supported|
  {
    Visits(Unlearned(supported, learned), c, k)
  }

  /** With n unlearned supported frequencies, any n successive scans probe each of them exactly once. */
  lemma ProbeFairness(supported: seq<int>, learned: seq<int>, c: nat, i: nat)
    requires c <= |supported| && i < |supported|
    ensures var n := |Positions(Unlearned(supported, learned), 0, |supported|)|;
            var v := Probes(supported, learned, c, n);
            && |v| == n && (supported[i] !in learned <==> i in v)
            && forall j, k :: 0 <= j < k < n ==> v[j] != v[k]
  {
    EachExactlyOnce(Unlearned(supported, learned), c, i);
  }

  /**
   What `Timeouts` returns after as many timeouts as there are unlearned supported frequencies: each of these
   once, and nothing else.
   */
  lemma RoundIsFair(supported: seq<int>, learned: seq<int>, c: nat, probed: seq<int>)
    requires c <= |supported| && forall i, j :: 0 <= i < j < |supported| ==> supported[i] != supported[j]
    requires ProbedAt(supported, probed, Probes(supported, learned, c, |Positions(Unlearned(supported, learned), 0, |supported|)|))
    ensures |probed| == |Positions(Unlearned(supported, learned), 0, |supported|)|
    ensures forall f :: f in probed <==> f in supported && f !in learned
    ensures forall j, k :: 0 <= j < k < |probed| ==> probed[j] != probed[k]
  {
    var n := |Positions(Unlearned(supported, learned), 0, |supported|)|;
    var v := Probes(supported, learned, c, n);
    forall i | 0 <= i < |supported| ensures supported[i] !in learned <==> i in v {
      ProbeFairness(supported, learned, c, i);
    }
    forall j, k | 0 <= j < k < |probed| ensures probed[j] != probed[k] {
      ProbeFairness(supported, learned, c, v[j]);
    }
    forall f ensures f in probed <==> f in supported && f !in learned {
      if f in supported && f !in learned {
        var i :| 0 <= i < |supported| && supported[i] == f;
        var j :| 0 <= j < |v| && v[j] == i;
        assert probed[j] == f;
      }
      if f in probed {
        var j :| 0 <= j < |probed| && probed[j] == f;
        assert v[j] in v;
      }
    }
    if |supported| > 0 {
      ProbeFairness(supported, learned, c, 0);
    }
  }

  /** The scan covers what the array shows: the probe is in it exactly if no entry has the frequency 0. */
  lemma ProbeIsSeen(known: Freqs, freq: int)
    requires Ended(known) && freq != 0 && freq !in Visible(known)
    ensures freq in Visible(Append(known, freq)) <==> Complete(known)
  {
    AppendIs(known, freq);
  }

  /** One scan probes what Probes says first and leaves the index where Probes goes on. */
  lemma ProbesContinue(supported: seq<int>, learned: seq<int>, c: nat, k: nat)
    requires c <= |supported| && k > 0
    ensures match Hit(Unlearned(supported, learned), c)
            case None => Probes(supported, learned, c, k) == []
            case Some(i) => i < |supported| && Probes(supported, learned, c, k) ==
                              [i] + Probes(supported, learned, if i + 1 == |supported| then 0 else i + 1, k - 1)
  {
    var m := Unlearned(supported, learned);
    HitRotates(m, c);
    CursorWraps(m, k - 1);
  }
}
