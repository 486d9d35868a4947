/** Frequency arrays as C keeps them: a pointer that may be NULL to numbers of which the last is 0. */
module ZeroTerminated {
  import opened Common

  type Freqs = Option<seq<int>>

  ghost predicate Terminated(s: seq<int>) {
    |s| > 0 && s[|s| - 1] == 0 && forall i :: 0 <= i < |s| - 1 ==> s[i] != 0
  }

  ghost predicate WellFormed(f: Freqs) {
    f.Some? ==> Terminated(f.value)
  }

  /** The frequencies in an array; a missing one is empty. */
  function Values(f: Freqs): seq<int> {
    if f.None? || f.value == [] then [] else f.value[..|f.value| - 1]
  }

  /** The array ends with a 0, and may hold another one before. */
  predicate Ended(f: Freqs) {
    f.Some? ==> |f.value| > 0 && f.value[|f.value| - 1] == 0
  }

  /** The numbers before the first 0. */
  function UntilZero(s: seq<int>): (r: seq<int>)
    ensures |r| <= |s| && r == s[..|r|] && 0 !in r && (|r| < |s| ==> s[|r|] == 0)
  {
    if s == [] || s[0] == 0 then [] else [s[0]] + UntilZero(s[1..])
  }

  /** What a reader of the array finds in it. */
  function Visible(f: Freqs): seq<int> {
    if f.None? then [] else UntilZero(f.value)
  }

  /** Nothing is hidden behind a 0. */
  predicate Complete(f: Freqs) {
    f.Some? ==> |Visible(f)| + 1 == |f.value|
  }

  lemma UntilZeroIs(s: seq<int>, n: nat)
    requires n <= |s| && (n < |s| ==> s[n] == 0) && forall i :: 0 <= i < n ==> s[i] != 0
    ensures UntilZero(s) == s[..n]
  {
  }

  lemma WellFormedIsComplete(f: Freqs)
    requires WellFormed(f)
    ensures Ended(f) && Complete(f) && Visible(f) == Values(f)
  {
    if f.Some? { UntilZeroIs(f.value, |f.value| - 1); }
  }

  /** Puts a frequency in the place of the last 0, and a new 0 after it. */
  function Append(f: Freqs, freq: int): (r: Freqs)
    requires Ended(f)
    ensures Ended(r)
  {
    Some(Values(f) + [freq, 0])
  }

  /** What is appended is visible exactly if nothing was hidden and it is not 0 itself. */
  lemma AppendIs(f: Freqs, freq: int)
    requires Ended(f)
    ensures Visible(Append(f, freq)) == Visible(f) + if Complete(f) && freq != 0 then [freq] else []
    ensures Complete(Append(f, freq)) <==> Complete(f) && freq != 0
  {
    var n, s := |Visible(f)|, Append(f, freq).value;
    assert s == Values(f) + [freq, 0];
    if Complete(f) && freq != 0 {
      assert n == |Values(f)|;
      UntilZeroIs(s, n + 1);
    } else {
      UntilZeroIs(s, n);
    }
  }

  lemma AppendKeepsWellFormed(f: Freqs, freq: int)
    requires WellFormed(f) && freq != 0
    ensures WellFormed(Append(f, freq)) && Values(Append(f, freq)) == Values(f) + [freq]
  {}
}
