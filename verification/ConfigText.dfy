/** Walking over the text of a configuration value, field by field. */
module ConfigText {
  import opened Common

  predicate IsSpace(c: char) {
    c == ' ' || '\t' <= c <= '\r'
  }

  function StripSpaces(s: string): (r: string)
    ensures |r| <= |s| && (r == "" || r[0] != ' ')
  {
    if s != "" && s[0] == ' ' then StripSpaces(s[1..]) else s
  }

  /** The first space at `from` or after it, or the length of the text. */
  function FindSpace(s: string, from: nat): (p: nat)
    requires from <= |s|
    ensures from <= p <= |s| && (p < |s| ==> s[p] == ' ') && ' ' !in s[from..p]
    decreases |s| - from
  {
    if from == |s| || s[from] == ' ' then from else FindSpace(s, from + 1)
  }

  lemma {:induction false} FindSpaceIs(s: string, from: nat, p: nat)
    requires from <= p <= |s| && (p < |s| ==> s[p] == ' ')
    requires forall i :: from <= i < p ==> s[i] != ' '
    ensures FindSpace(s, from) == p
    decreases p - from
  {
    if from < p {
      FindSpaceIs(s, from + 1, p);
    }
  }

  lemma Joined(a: string, b: string, c: string)
    ensures a + (b + c) == (a + b) + c
  {
  }

  lemma Regrouped(a: string, b: string, c: string, d: string)
    ensures (a + (b + c)) + d == a + (b + (c + d))
  {
  }

  method SkipBlanks(value: string, from: nat) returns (pos: nat)
    requires from <= |value|
    ensures from <= pos <= |value| && value[pos..] == StripSpaces(value[from..])
  {
    pos := from;
    while pos < |value| && value[pos] == ' '
      invariant from <= pos <= |value| && StripSpaces(value[pos..]) == StripSpaces(value[from..])
    {
      assert value[pos..][1..] == value[pos + 1..];
      pos := pos + 1;
    }
  }

  /** strchr: the next space of the text, if there is one. */
  method NextSpace(value: string, from: nat) returns (pos: Option<nat>)
    requires from <= |value|
    ensures pos.Some? ==> from <= pos.value < |value| && value[pos.value] == ' ' && ' ' !in value[from..pos.value]
    ensures pos.None? ==> ' ' !in value[from..]
  {
    var i := from;
    while i < |value|
      invariant from <= i <= |value| && ' ' !in value[from..i]
    {
      if value[i] == ' ' { return Some(i); }
      i := i + 1;
    }
    return None;
  }

  /** The text from the next space on, as NextSpace finds it. */
  lemma FoundSpace(value: string, at: nat, skip: nat, pos: Option<nat>)
    requires at + skip <= |value|
    requires pos.Some? ==> at + skip <= pos.value < |value| && value[pos.value] == ' ' && ' ' !in value[at + skip..pos.value]
    requires pos.None? ==> ' ' !in value[at + skip..]
    ensures value[at..][FindSpace(value[at..], skip)..] == if pos.Some? then value[pos.value..] else ""
  {
    var s := value[at..];
    var end := if pos.Some? then pos.value else |value|;
    forall i | skip <= i < end - at ensures s[i] != ' ' {
      assert s[i] == value[at + skip..end][i - skip];
    }
    FindSpaceIs(s, skip, end - at);
    assert s[end - at..] == value[end..];
  }
}
