/**
 Address lists in the configuration text: addresses, each perhaps with a mask, and a space between two of
 them. The text of a list starts with its last element, and reading puts each address in front.
 */
module AddrText {
  import opened Common
  import opened ConfigText

  const ETH_ALEN := 6

  type Mac = a: seq<Octet> | |a| == ETH_ALEN witness [0, 0, 0, 0, 0, 0]

  datatype Entry = Entry(addr: Mac, mask: Mac)

  const ALL_ONES: Mac := [255, 255, 255, 255, 255, 255]

  // ------------------------------------------------------------ one address

  function HexNum(c: char): (r: Option<nat>)
    ensures r.Some? ==> r.value < 16
  {
    if '0' <= c <= '9' then Some(c as int - '0' as int)
    else if 'a' <= c <= 'f' then Some(c as int - 'a' as int + 10)
    else if 'A' <= c <= 'F' then Some(c as int - 'A' as int + 10)
    else None
  }

  function HexDigit(n: nat): (c: char)
    requires n < 16
    ensures HexNum(c) == Some(n) && c != ' '
  {
    if n < 10 then '0' + n as char else 'a' + (n - 10) as char
  }

  function HexByte(s: string): Option<Octet> {
    if |s| < 2 || HexNum(s[0]).None? || HexNum(s[1]).None? then None
    else Some(HexNum(s[0]).value * 16 + HexNum(s[1]).value)
  }

  function ByteText(b: Octet): (s: string)
    ensures |s| == 2 && ' ' !in s && HexByte(s) == Some(b)
  {
    [HexDigit(b / 16), HexDigit(b % 16)]
  }

  /** k octets in front of a text, with a colon between two of them, and the text after them. */
  function ReadOctets(s: string, k: nat): (r: Option<(seq<Octet>, string)>)
    ensures r.Some? ==> |r.value.0| == k
    decreases k
  {
    if k == 0 then Some(([], s))
    else if HexByte(s).None? then None
    else if k == 1 then Some(([HexByte(s).value], s[2..]))
    else if |s| < 3 || s[2] != ':' then None
    else match ReadOctets(s[3..], k - 1)
      case None => None
      case Some(rest) => Some(([HexByte(s).value] + rest.0, rest.1))
  }

  function MacText(a: seq<Octet>): (s: string)
    ensures ' ' !in s && (a != [] ==> |s| == 3 * |a| - 1)
  {
    if a == [] then "" else if |a| == 1 then ByteText(a[0]) else ByteText(a[0]) + [':'] + MacText(a[1..])
  }

  lemma ReadOfByte(b: Octet, t: string, k: nat)
    requires k > 0 && (k == 1 || (t != "" && t[0] == ':'))
    ensures ReadOctets(ByteText(b) + t, k) ==
            if k == 1 then Some(([b], t))
            else match ReadOctets(t[1..], k - 1) case None => None case Some(rest) => Some(([b] + rest.0, rest.1))
  {
    var s := ByteText(b) + t;
    assert s[2..] == t && HexByte(s) == Some(b);
    if k > 1 {
      assert s[3..] == t[1..] && s[2] == ':';
    }
  }

  lemma {:induction false} ReadOfText(a: seq<Octet>, t: string)
    requires a != []
    ensures ReadOctets(MacText(a) + t, |a|) == Some((a, t))
    decreases |a|
  {
    if |a| == 1 {
      ReadOfByte(a[0], t, 1);
      assert [a[0]] == a;
    } else {
      var rest := [':'] + (MacText(a[1..]) + t);
      assert MacText(a) + t == ByteText(a[0]) + rest;
      ReadOfByte(a[0], rest, |a|);
      assert rest[1..] == MacText(a[1..]) + t;
      ReadOfText(a[1..], t);
      assert [a[0]] + a[1..] == a;
    }
  }

  /** hwaddr_masked_aton: an address, with a mask after it where that is allowed. */
  function Decode(s: string, masked: bool): Option<Entry> {
    match ReadOctets(s, ETH_ALEN)
    case None => None
    case Some((addr, rest)) =>
      if rest == "" || IsSpace(rest[0]) then Some(Entry(addr, ALL_ONES))
      else if masked && rest[0] == '/' then
        match ReadOctets(rest[1..], ETH_ALEN)
        case None => None
        case Some((mask, _)) => Some(Entry(addr, mask))
      else None
  }

  /** hwaddr_mask_txt: the mask is written unless it is all ones. */
  function Encode(e: Entry): (s: string)
    ensures ' ' !in s && 17 <= |s| <= 35
  {
    MacText(e.addr) + if e.mask == ALL_ONES then "" else ['/'] + MacText(e.mask)
  }

  /** A written address is read back, and a mask that is not allowed makes it unreadable. */
  lemma DecodeOfEncode(e: Entry, t: string, masked: bool)
    requires t == "" || t[0] == ' '
    ensures Decode(Encode(e) + t, masked) == if masked || e.mask == ALL_ONES then Some(e) else None
  {
    if e.mask == ALL_ONES {
      ReadOfText(e.addr, t);
      assert Encode(e) + t == MacText(e.addr) + t;
    } else {
      var rest := ['/'] + (MacText(e.mask) + t);
      assert Encode(e) + t == MacText(e.addr) + rest;
      ReadOfText(e.addr, rest);
      ReadOfText(e.mask, t);
      assert rest[1..] == MacText(e.mask) + t;
    }
  }

  // ------------------------------------------------------------ lists

  /** The text from the next space on. */
  function NextAddress(t: string): string {
    t[FindSpace(t, 0)..]
  }

  /** Reads on from a text, with `got` already read; None is an error. */
  function Read(s: string, got: seq<Entry>, abortOnError: bool, masked: bool): Option<seq<Entry>>
    decreases |s|
  {
    if s == "" then Some(got)
    else
      var t := StripSpaces(s);
      match Decode(t, masked)
      case None => if abortOnError || got == [] then None else Read(NextAddress(t), got, abortOnError, masked)
      case Some(e) => Read(NextAddress(t), [e] + got, abortOnError, masked)
  }

  /** The text of a list. */
  function Text(list: seq<Entry>): string {
    if list == [] then ""
    else if |list| == 1 then Encode(list[0])
    else Text(list[1..]) + ([' '] + Encode(list[0]))
  }

  lemma {:induction false} TextSplit(list: seq<Entry>)
    requires |list| > 1
    ensures Text(list) == Encode(list[|list| - 1]) + ([' '] + Text(list[..|list| - 1]))
  {
    var n := |list| - 1;
    if n == 1 {
      assert list[1..] == [list[1]] && list[..1] == [list[0]];
    } else {
      TextSplit(list[1..]);
      assert list[1..][..n - 1] == list[..n][1..] && list[1..][n - 1] == list[n];
      Regrouped(Encode(list[n]), [' '], Text(list[..n][1..]), [' '] + Encode(list[0]));
    }
  }

  lemma NextOfFirst(e: Entry, t: string)
    requires t == "" || t[0] == ' '
    ensures StripSpaces(Encode(e) + t) == Encode(e) + t && NextAddress(Encode(e) + t) == t
  {
    var s := Encode(e) + t;
    assert s[0] in Encode(e);
    forall i | 0 <= i < |Encode(e)| ensures s[i] != ' ' {
      assert s[i] in Encode(e);
    }
    FindSpaceIs(s, 0, |Encode(e)|);
  }

  predicate Allowed(e: Entry, masked: bool) {
    masked || e.mask == ALL_ONES
  }

  lemma ReadFirst(e: Entry, t: string, got: seq<Entry>, abortOnError: bool, masked: bool)
    requires t == "" || t[0] == ' '
    ensures Read(Encode(e) + t, got, abortOnError, masked) ==
            if Allowed(e, masked) then Read(t, [e] + got, abortOnError, masked)
            else if abortOnError || got == [] then None
            else Read(t, got, abortOnError, masked)
  {
    NextOfFirst(e, t);
    DecodeOfEncode(e, t, masked);
  }

  lemma ReadAfterSpace(s: string, got: seq<Entry>, abortOnError: bool, masked: bool)
    requires s != "" && s[0] != ' '
    ensures Read([' '] + s, got, abortOnError, masked) == Read(s, got, abortOnError, masked)
  {
    assert ([' '] + s)[1..] == s;
    assert StripSpaces(s) == s;
  }

  lemma TextStarts(list: seq<Entry>)
    requires list != []
    ensures Text(list) != "" && Text(list)[0] != ' '
  {
    var e := list[|list| - 1];
    assert Encode(e)[0] in Encode(e);
    if |list| > 1 {
      TextSplit(list);
      assert Text(list)[0] == Encode(e)[0];
    }
  }

  ghost predicate AllAllowed(list: seq<Entry>, masked: bool) {
    forall i :: 0 <= i < |list| ==> Allowed(list[i], masked)
  }

  lemma AllowedSplit(list: seq<Entry>, masked: bool)
    requires list != []
    ensures AllAllowed(list, masked) <==> AllAllowed(list[..|list| - 1], masked) && Allowed(list[|list| - 1], masked)
  {
    var n := |list| - 1;
    if AllAllowed(list[..n], masked) && Allowed(list[n], masked) {
      forall i | 0 <= i < |list| ensures Allowed(list[i], masked) {
        assert i < n ==> list[i] == list[..n][i];
      }
    }
  }

  /** What is left of a list after the reader has taken its last element, which is the first in the text. */
  lemma ReadStep(list: seq<Entry>, got: seq<Entry>, abortOnError: bool, masked: bool)
    requires list != []
    ensures var e, init := list[|list| - 1], list[..|list| - 1];
            Read(Text(list), got, abortOnError, masked) ==
            if Allowed(e, masked) then Read(Text(init), [e] + got, abortOnError, masked)
            else if abortOnError || got == [] then None
            else Read(Text(init), got, abortOnError, masked)
  {
    var e, init := list[|list| - 1], list[..|list| - 1];
    if init == [] {
      assert Encode(e) + "" == Text(list);
      ReadFirst(e, "", got, abortOnError, masked);
    } else {
      TextSplit(list);
      TextStarts(init);
      ReadFirst(e, [' '] + Text(init), got, abortOnError, masked);
      ReadAfterSpace(Text(init), [e] + got, abortOnError, masked);
      ReadAfterSpace(Text(init), got, abortOnError, masked);
    }
  }

  lemma ReadOfEmpty(list: seq<Entry>, got: seq<Entry>, abortOnError: bool, masked: bool)
    requires |list| == 0
    ensures Read(Text(list), got, abortOnError, masked) == Some(got)
  {
  }

  lemma OneMore(list: seq<Entry>, got: seq<Entry>)
    requires list != []
    ensures list[..|list| - 1] + ([list[|list| - 1]] + got) == list + got
  {
  }

  /** Reading the text of a list puts the whole list in front of what was read before, if its masks are allowed. */
  lemma {:induction false} ReadOfList(list: seq<Entry>, got: seq<Entry>, abortOnError: bool, masked: bool)
    requires AllAllowed(list, masked)
    ensures Read(Text(list), got, abortOnError, masked) == Some(list + got)
    decreases |list|
  {
    if |list| == 0 {
      ReadOfEmpty(list, got, abortOnError, masked);
      assert list + got == got;
    } else {
      ReadStep(list, got, abortOnError, masked);
      ReadOfList(list[..|list| - 1], [list[|list| - 1]] + got, abortOnError, masked);
      OneMore(list, got);
    }
  }

  /** It never gives more elements than that, and fewer if a mask is not allowed. */
  lemma {:induction false} ReadNoMore(list: seq<Entry>, got: seq<Entry>, abortOnError: bool, masked: bool)
    ensures var r := Read(Text(list), got, abortOnError, masked);
            r.Some? ==> |r.value| <= |list| + |got| - (if AllAllowed(list, masked) then 0 else 1)
    decreases |list|
  {
    if |list| == 0 {
      ReadOfEmpty(list, got, abortOnError, masked);
    } else {
      var e, init := list[|list| - 1], list[..|list| - 1];
      ReadStep(list, got, abortOnError, masked);
      AllowedSplit(list, masked);
      ReadNoMore(init, if Allowed(e, masked) then [e] + got else got, abortOnError, masked);
    }
  }

  /** A written list is read back, in the same order, exactly when the reader allows the masks in it. */
  lemma ReadBackExactlyWhen(list: seq<Entry>, abortOnError: bool, masked: bool)
    ensures Read(Text(list), [], abortOnError, masked) == Some(list) <==> AllAllowed(list, masked)
  {
    ReadNoMore(list, [], abortOnError, masked);
    if AllAllowed(list, masked) {
      ReadOfList(list, [], abortOnError, masked);
      assert list + [] == list;
    }
  }
}
