/** The parser and the writer of the address lists of a network. */
module AddrList {
  import opened Common
  import opened ConfigText
  import opened AddrText

  ghost function Remaining(value: string, pos: Option<nat>): string
    requires pos.Some? ==> pos.value <= |value|
  {
    if pos.Some? then value[pos.value..] else ""
  }

  /** hwaddr_mask_txt: the text of an entry, if it fits with its terminator. */
  method MaskText(room: nat, e: Entry) returns (r: Option<string>)
    ensures r == if |Encode(e)| < room then Some(Encode(e)) else None
  {
    var s := Encode(e);
    if |s| >= room { return None; }
    return Some(s);
  }

  lemma TextGrows(list: seq<Entry>, i: nat)
    requires 0 < i <= |list|
    ensures Text(list[i - 1..]) == (Text(list[i..]) + if i < |list| then [' '] else []) + Encode(list[i - 1])
  {
    assert list[i - 1..][1..] == list[i..];
  }

  /** The text in front of an entry, and the entry: prints into what is left of the buffer. */
  method Append(value: string, first: bool, size: nat, e: Entry) returns (text: string)
    requires |value| + 36 < size
    ensures text == (value + if first then [] else [' ']) + Encode(e)
    ensures |text| <= |value| + 36
  {
    text := if first then value else value + [' '];
    var res := MaskText(size - |text|, e);
    text := text + res.value;
  }

  class AddrList {
    var list: seq<Entry>

    /** Replaces the list by the addresses in a text; an error leaves it as it was. */
    method Parse(value: string, abortOnError: bool, masked: bool) returns (ok: bool)
      modifies this
      ensures ok <==> Read(value, [], abortOnError, masked).Some?
      ensures ok ==> Read(value, [], abortOnError, masked) == Some(list)
      ensures !ok ==> list == old(list)
    {
      var buf: seq<Entry> := [];
      var pos: Option<nat> := Some(0);
      assert value[0..] == value;
      while pos.Some? && pos.value < |value|
        invariant pos.Some? ==> pos.value <= |value|
        invariant list == old(list)
        invariant Read(Remaining(value, pos), buf, abortOnError, masked) == Read(value, [], abortOnError, masked)
        decreases if pos.Some? then |value| - pos.value + 1 else 0
      {
        var at := SkipBlanks(value, pos.value);
        var e := Decode(value[at..], masked);
        if e.None? {
          if abortOnError || |buf| == 0 { return false; }
        } else {
          buf := [e.value] + buf;
        }
        var next := NextSpace(value, at);
        FoundSpace(value, at, 0, next);
        pos := next;
      }
      list := buf;
      return true;
    }

    /** The text of the list, last element first; an empty list has none. The buffer is never too small. */
    method Write() returns (text: Option<string>)
      ensures text == if list == [] then None else Some(Text(list))
    {
      if |list| == 0 { return None; }
      ghost var l := list;
      var num := |list|;
      var size: nat := 40 * num;
      var value: string := "";
      var i := num;
      while i > 0
        invariant 0 <= i <= num && value == Text(l[i..]) && |value| + 36 * i + 4 * num <= size
        decreases i
      {
        TextGrows(l, i);
        value := Append(value, i == num, size, list[i - 1]);
        i := i - 1;
      }
      assert l[0..] == l;
      return Some(value);
    }

    /** Writing a list and parsing the text gives the list back exactly when its masks are allowed. */
    method Reload(abortOnError: bool, masked: bool) returns (ok: bool)
      requires list != []
      modifies this
      ensures ok && list == old(list) <==> AllAllowed(old(list), masked)
    {
      var text := Write();
      ReadBackExactlyWhen(list, abortOnError, masked);
      ok := Parse(text.value, abortOnError, masked);
    }
  }
}
