/**
 The parser and the writer of frequency lists: the parser walks the text and fills an array that doubles
 when it is full; the writer prints into a buffer of a fixed size.
 */
module FreqList {
  import opened Common
  import opened ConfigText
  import opened FreqText
  import opened ZeroTerminated

  /** What is still to be read of the text; None when there is no further space. */
  ghost function Remaining(value: string, pos: Option<nat>): seq<int>
    requires pos.Some? ==> pos.value <= |value|
  {
    if pos.Some? then Parsed(value[pos.value..]) else []
  }

  lemma ParsedNext(value: string, from: nat, at: nat, pos: Option<nat>)
    requires from <= at < |value| && value[at..] == StripSpaces(value[from..]) && Atoi(value[at..]) != 0
    requires pos.Some? ==> at < pos.value < |value| && value[pos.value] == ' ' && ' ' !in value[at + 1..pos.value]
    requires pos.None? ==> ' ' !in value[at + 1..]
    ensures Parsed(value[from..]) == [Atoi(value[at..])] + Remaining(value, pos)
  {
    FoundSpace(value, at, 1, pos);
  }

  /** atoi at a position, and the next space when there is a number. */
  method ReadField(value: string, from: nat, at: nat, ghost rest: seq<int>) returns (v: int, next: Option<nat>, ghost after: seq<int>)
    requires from <= at <= |value| && value[at..] == StripSpaces(value[from..]) && rest == Parsed(value[from..])
    ensures next.Some? ==> at < next.value <= |value|
    ensures v == 0 ==> rest == [] && next.None?
    ensures v != 0 ==> rest == [v] + after && after == Remaining(value, next)
  {
    v := Atoi(value[at..]);
    next, after := None, [];
    if v != 0 {
      next := NextSpace(value, at + 1);
      ParsedNext(value, from, at, next);
      after := Remaining(value, next);
    }
  }

  lemma Shifted(a: seq<int>, v: int, rest: seq<int>, next: seq<int>)
    ensures rest == [v] + next ==> a + rest == (a + [v]) + next
  {
  }

  /** The first n elements are numbers and the others are 0. */
  ghost predicate Filled(freqs: array<int>, n: nat)
    reads freqs
  {
    n < freqs.Length && (forall i :: 0 <= i < n ==> freqs[i] != 0) && forall i :: n <= i < freqs.Length ==> freqs[i] == 0
  }

  /** An array of twice the size, with the old elements in front and zeros after them. */
  method Doubled(freqs: array<int>, len: nat) returns (n: array<int>)
    requires freqs.Length == len + 1 && Filled(freqs, len) && len > 0
    ensures fresh(n) && n.Length == len * 2 + 1 && Filled(n, len) && n[..len] == freqs[..len]
  {
    n := new int[len * 2 + 1](_ => 0);
    for i := 0 to len
      invariant n[..i] == freqs[..i] && Filled(n, i)
    {
      n[i] := freqs[i];
    }
  }

  /** Room for one more number and a 0 after it. */
  method MakeRoom(freqs: array<int>, n: nat, len: nat) returns (g: array<int>, size: nat)
    requires freqs.Length == len + 1 && Filled(freqs, n) && len > 0
    ensures g == freqs || fresh(g)
    ensures g.Length == size + 1 && n < size && Filled(g, n) && g[..n] == freqs[..n]
  {
    g, size := freqs, len;
    if n == len {
      g := Doubled(freqs, len);
      size := len * 2;
    }
  }

  method Store(freqs: array<int>, n: nat, v: int)
    requires Filled(freqs, n) && n + 1 < freqs.Length
    modifies freqs
    ensures if v == 0 then Filled(freqs, n) && freqs[..n] == old(freqs[..n])
            else Filled(freqs, n + 1) && freqs[..n + 1] == old(freqs[..n]) + [v]
  {
    freqs[n] := v;
  }

  /** The numbers of the text, in an array that is 0 after them. */
  method ParseIntArray(value: string) returns (freqs: array<int>, ghost used: nat)
    ensures fresh(freqs) && Filled(freqs, used) && freqs[..used] == Parsed(value)
  {
    ghost var all, rest := Parsed(value), Parsed(value);
    var n, len := 0, 10;
    freqs := new int[11](_ => 0);
    var pos: Option<nat> := Some(0);
    assert value[0..] == value;
    while pos.Some?
      invariant pos.Some? ==> pos.value <= |value|
      invariant fresh(freqs) && freqs.Length == len + 1 && len > 0 && Filled(freqs, n)
      invariant rest == Remaining(value, pos) && freqs[..n] + rest == all
      decreases if pos.Some? then |value| - pos.value + 1 else 0
    {
      var at := SkipBlanks(value, pos.value);
      freqs, len := MakeRoom(freqs, n, len);
      var v, next, after := ReadField(value, pos.value, at, rest);
      Shifted(freqs[..n], v, rest, after);
      Store(freqs, n, v);
      if v == 0 { break; }
      n, rest, pos := n + 1, after, next;
    }
    used := n;
    assert rest == [] && freqs[..n] + [] == freqs[..n];
  }

  /** An array as the list of a network: an array that starts with a 0 is none. */
  method AsList(freqs: array<int>, ghost used: nat) returns (list: Freqs)
    requires Filled(freqs, used)
    ensures WellFormed(list) && Values(list) == freqs[..used] && (list.Some? <==> used > 0)
  {
    if freqs[0] == 0 { return None; }
    var n := 1;
    while freqs[n] != 0
      invariant 1 <= n <= used
      decreases used - n
    {
      n := n + 1;
    }
    return Some(freqs[..n + 1]);
  }

  /** Reads the list of a network; a text without numbers leaves none. */
  method ParseFreqList(value: string) returns (list: Freqs)
    ensures WellFormed(list) && Values(list) == Parsed(value) && (list.Some? <==> Values(list) != [])
  {
    var freqs, used := ParseIntArray(value);
    list := AsList(freqs, used);
  }

  lemma FullStep(f: seq<int>, i: nat)
    requires Ints(f) && i < |f|
    ensures Full(f[..i + 1]) == Full(f[..i]) + Item(i, f[i])
  {
    assert f[..i + 1][..i] == f[..i];
  }

  lemma {:induction false} FullGrows(f: seq<int>, i: nat)
    requires Ints(f) && i <= |f|
    ensures Full(f[..i]) <= Full(f)
    decreases |f| - i
  {
    if i < |f| {
      FullGrows(f, i + 1);
      FullStep(f, i);
    } else {
      assert f[..i] == f;
    }
  }

  lemma CutItem(f: seq<int>, i: nat)
    requires Ints(f) && i < |f| && |Full(f[..i])| <= 10 * |f| < |Full(f[..i])| + |Item(i, f[i])|
    ensures Full(f[..i]) + Item(i, f[i])[..10 * |f| - |Full(f[..i])|] == Written(f)
  {
    FullStep(f, i);
    FullGrows(f, i + 1);
    PrefixOfSum(Full(f[..i]), Item(i, f[i]), 10 * |f|);
    assert Full(f)[..10 * |f|] == Full(f[..i + 1])[..10 * |f|];
  }

  /** The text of a list, cut where the buffer of ten characters for each element ends; NULL has no text. */
  method WriteFreqs(freqs: Freqs) returns (text: Option<string>)
    requires WellFormed(freqs) && Ints(Values(freqs))
    ensures text == if freqs.None? then None else Some(Written(Values(freqs)))
  {
    if freqs.None? { return None; }
    var a := freqs.value;
    ghost var f := Values(freqs);
    var count: nat := 0;
    while a[count] != 0
      invariant count < |a|
      decreases |a| - count
    {
      count := count + 1;
    }
    var size := 10 * count + 1;
    var buf: string := "";
    var i := 0;
    while a[i] != 0
      invariant i < |a| && buf == Full(f[..i]) && |buf| < size
      decreases |a| - i
    {
      var item := Item(i, a[i]);
      FullStep(f, i);
      if |item| >= size - |buf| {
        CutItem(f, i);
        return Some(buf + item[..size - |buf| - 1]);
      }
      buf := buf + item;
      i := i + 1;
    }
    assert f[..i] == f;
    return Some(buf);
  }

  /** A list of positive frequencies is read back after it was written exactly when all its text fits. */
  method WriteAndParse(list: Freqs) returns (again: Freqs)
    requires WellFormed(list) && Ints(Values(list)) && Positive(Values(list))
    ensures list.Some? && Values(list) != [] ==> (again == list <==> |Full(Values(list))| <= 10 * |Values(list)|)
    ensures list.None? || Values(list) == [] ==> again == None
  {
    var text := WriteFreqs(list);
    if text.None? { return None; }
    again := ParseFreqList(text.value);
    ReadBackExactlyWhen(Values(list));
    if Values(list) == [] {
      ParsedOfEmpty(text.value);
    } else if Values(again) == Values(list) {
      SameValues(again, list);
    }
  }

  lemma SameValues(a: Freqs, b: Freqs)
    requires WellFormed(a) && WellFormed(b) && Values(a) == Values(b) && Values(b) != []
    ensures a == b
  {
    var s, t := a.value, b.value;
    assert s == Values(a) + [s[|s| - 1]] && t == Values(b) + [t[|t| - 1]];
  }
}
