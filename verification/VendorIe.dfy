/**
 The payload of a vendor specific information element that may be split over several elements: two walks
 over the element buffers of a BSS entry, written differently, against one reading of the bytes.
 The element format is that of section 9.4.2.1 of IEEE Std 802.11-2016: id, length, length octets.
 */
module VendorIe {
  import opened Common

  const VENDOR_SPECIFIC: Octet := 221

  datatype Element = Element(id: Octet, payload: seq<Octet>)

  // ------------------------------------------------------------ elements of a buffer

  /** The bytes start with a whole element. */
  predicate StartsWithElement(s: seq<Octet>) {
    |s| >= 2 && s[1] <= |s| - 2
  }

  function Elements(s: seq<Octet>): seq<Element>
    decreases |s|
  {
    if StartsWithElement(s) then [Element(s[0], s[2..2 + s[1]])] + Elements(s[2 + s[1]..]) else []
  }

  function EncodedOne(e: Element): (r: seq<Octet>)
    requires |e.payload| < 256
    ensures |r| == 2 + |e.payload| && r[0] == e.id && r[1] == |e.payload| && r[2..] == e.payload
  {
    var length: Octet := |e.payload|;
    [e.id, length] + e.payload
  }

  function Encoded(es: seq<Element>): seq<Octet>
    requires Short(es)
  {
    if es == [] then [] else EncodedOne(es[0]) + Encoded(es[1..])
  }

  predicate Short(es: seq<Element>) {
    forall i :: 0 <= i < |es| ==> |es[i].payload| < 256
  }

  lemma ElementsOfFirst(e: Element, rest: seq<Octet>)
    requires |e.payload| < 256
    ensures Elements(EncodedOne(e) + rest) == [e] + Elements(rest)
  {
    var s := EncodedOne(e) + rest;
    assert s[2..2 + s[1]] == e.payload && s[2 + s[1]..] == rest;
  }

  lemma Collected<T>(was: seq<T>, piece: seq<T>, rest: seq<T>)
    ensures was + (piece + rest) == (was + piece) + rest
  {
  }

  /** The elements read are all there are: they make up a prefix of the bytes that no whole element follows. */
  lemma {:induction false} ElementsArePrefix(s: seq<Octet>)
    ensures var es := Elements(s);
            Short(es) && Encoded(es) <= s && !StartsWithElement(s[|Encoded(es)|..])
    decreases |s|
  {
    if StartsWithElement(s) {
      var n := 2 + s[1] as int;
      var rest := Elements(s[n..]);
      ElementsArePrefix(s[n..]);
      var es := Elements(s);
      assert es[1..] == rest && Short(es);
      assert EncodedOne(es[0]) == s[..n];
      assert Encoded(es) == s[..n] + Encoded(rest);
      assert s == s[..n] + s[n..];
      assert s[n..][|Encoded(rest)|..] == s[n + |Encoded(rest)|..];
    }
  }

  /** And it is the longest such prefix: whatever elements the bytes start with are read first. */
  lemma {:induction false} ElementsAreLongest(es: seq<Element>, rest: seq<Octet>)
    requires Short(es)
    ensures Elements(Encoded(es) + rest) == es + Elements(rest)
  {
    if es == [] {
      assert Encoded(es) + rest == rest;
    } else {
      ElementsAreLongest(es[1..], rest);
      ElementsOfFirst(es[0], Encoded(es[1..]) + rest);
      Collected(EncodedOne(es[0]), Encoded(es[1..]), rest);
      Collected([es[0]], es[1..], Elements(rest));
      assert [es[0]] + es[1..] == es;
    }
  }

  // ------------------------------------------------------------ the vendor payload

  /** The four octets from `at` on as a number, most significant first. */
  function BigEndian(s: seq<Octet>, at: nat): (r: nat)
    requires at + 4 <= |s|
    ensures r < 0x1_0000_0000
  {
    s[at] as int * 0x100_0000 + s[at + 1] as int * 0x1_0000 + s[at + 2] as int * 0x100 + s[at + 3] as int
  }

  predicate Matches(e: Element, vendorType: nat) {
    e.id == VENDOR_SPECIFIC && |e.payload| >= 4 && BigEndian(e.payload, 0) == vendorType
  }

  function Piece(e: Element, vendorType: nat): seq<Octet> {
    if Matches(e, vendorType) then e.payload[4..] else []
  }

  /** The payloads of the matching elements one after the other, each without its type. */
  function Payload(es: seq<Element>, vendorType: nat): seq<Octet> {
    if es == [] then [] else Piece(es[0], vendorType) + Payload(es[1..], vendorType)
  }

  function VendorPayload(s: seq<Octet>, vendorType: nat): Option<seq<Octet>> {
    var p := Payload(Elements(s), vendorType);
    if p == [] then None else Some(p)
  }

  function TypeOctets(vendorType: nat): (r: seq<Octet>)
    requires vendorType < 0x1_0000_0000
    ensures |r| == 4 && BigEndian(r, 0) == vendorType
  {
    var high3 := vendorType / 256;
    var high2 := high3 / 256;
    var a: Octet, b: Octet, c: Octet, d: Octet := high2 / 256, high2 % 256, high3 % 256, vendorType % 256;
    [a, b, c, d]
  }

  function Fragment(piece: seq<Octet>, vendorType: nat): (r: Element)
    requires vendorType < 0x1_0000_0000
    ensures |r.payload| == 4 + |piece|
  {
    Element(VENDOR_SPECIFIC, TypeOctets(vendorType) + piece)
  }

  /** A payload cut into pieces, each in an element of its own. */
  function Fragments(pieces: seq<seq<Octet>>, vendorType: nat): (r: seq<Element>)
    requires vendorType < 0x1_0000_0000
    ensures |r| == |pieces| && forall i :: 0 <= i < |r| ==> |r[i].payload| == 4 + |pieces[i]|
  {
    seq(|pieces|, i requires 0 <= i < |pieces| => Fragment(pieces[i], vendorType))
  }

  function Joined(pieces: seq<seq<Octet>>): seq<Octet> {
    if pieces == [] then [] else pieces[0] + Joined(pieces[1..])
  }

  lemma BigEndianOfTypeOctets(vendorType: nat, piece: seq<Octet>)
    requires vendorType < 0x1_0000_0000
    ensures var p := TypeOctets(vendorType) + piece;
            BigEndian(p, 0) == vendorType && p[4..] == piece
  {
  }

  lemma {:induction false} PayloadOfFragments(pieces: seq<seq<Octet>>, vendorType: nat)
    requires vendorType < 0x1_0000_0000
    ensures Payload(Fragments(pieces, vendorType), vendorType) == Joined(pieces)
  {
    if pieces != [] {
      var es := Fragments(pieces, vendorType);
      assert es[1..] == Fragments(pieces[1..], vendorType);
      PayloadOfFragments(pieces[1..], vendorType);
      BigEndianOfTypeOctets(vendorType, pieces[0]);
    }
  }

  lemma FirstOfSum<T>(a: seq<T>, b: seq<T>)
    requires a != []
    ensures (a + b)[0] == a[0] && (a + b)[1..] == a[1..] + b
  {
  }

  lemma {:induction false} PayloadSplit(a: seq<Element>, b: seq<Element>, vendorType: nat)
    ensures Payload(a + b, vendorType) == Payload(a, vendorType) + Payload(b, vendorType)
  {
    if a == [] {
      assert a + b == b;
    } else {
      PayloadSplit(a[1..], b, vendorType);
      FirstOfSum(a, b);
      Collected(Piece(a[0], vendorType), Payload(a[1..], vendorType), Payload(b, vendorType));
    }
  }

  lemma {:induction false} NoPayload(es: seq<Element>, vendorType: nat)
    requires forall i :: 0 <= i < |es| ==> !Matches(es[i], vendorType)
    ensures Payload(es, vendorType) == []
  {
    if es != [] {
      NoPayload(es[1..], vendorType);
    }
  }

  lemma ShortSum(a: seq<Element>, b: seq<Element>)
    requires Short(a) && Short(b)
    ensures Short(a + b)
  {
  }

  /**
   A payload that was cut into pieces of up to 251 octets comes back whole, whatever other elements stand
   before and after it and whatever incomplete element ends the buffer.
   */
  lemma FragmentsComeBack(pieces: seq<seq<Octet>>, vendorType: nat, before: seq<Element>, after: seq<Element>, tail: seq<Octet>)
    requires vendorType < 0x1_0000_0000 && !StartsWithElement(tail)
    requires forall i :: 0 <= i < |pieces| ==> |pieces[i]| <= 251
    requires Short(before) && Short(after)
    requires forall i :: 0 <= i < |before| ==> !Matches(before[i], vendorType)
    requires forall i :: 0 <= i < |after| ==> !Matches(after[i], vendorType)
    ensures var es := before + Fragments(pieces, vendorType) + after;
            Short(es) && VendorPayload(Encoded(es) + tail, vendorType) ==
                           if Joined(pieces) == [] then None else Some(Joined(pieces))
  {
    var fs := Fragments(pieces, vendorType);
    var es := before + fs + after;
    ShortSum(before, fs);
    ShortSum(before + fs, after);
    ElementsAreLongest(es, tail);
    assert es + Elements(tail) == es;
    PayloadSplit(before + fs, after, vendorType);
    PayloadSplit(before, fs, vendorType);
    NoPayload(before, vendorType);
    NoPayload(after, vendorType);
    PayloadOfFragments(pieces, vendorType);
    assert [] + Joined(pieces) + [] == Joined(pieces);
  }

  // ------------------------------------------------------------ the two walks

  /** An output buffer of a fixed size; putting data never goes past it. */
  class WpaBuf {
    const data: array<Octet>
    var used: nat

    ghost predicate Valid()
      reads this
    {
      used <= data.Length
    }

    ghost function Contents(): seq<Octet>
      requires Valid()
      reads this, data
    {
      data[..used]
    }

    constructor (size: nat)
      ensures Valid() && fresh(data) && data.Length == size && used == 0
    {
      data := new Octet[size](_ => 0);
      used := 0;
    }

    method PutData(s: seq<Octet>)
      requires Valid() && used + |s| <= data.Length
      modifies this, data
      ensures Valid() && Contents() == old(Contents()) + s && used == old(used) + |s|
    {
      for i := 0 to |s|
        invariant used == old(used)
        invariant data[..old(used)] == old(data[..used])
        invariant data[old(used)..old(used) + i] == s[..i]
      {
        data[used + i] := s[i];
      }
      assert data[..used + |s|] == data[..used] + data[used..used + |s|];
      used := used + |s|;
    }

    /** What was put, or none if nothing was. */
    method Result() returns (r: Option<seq<Octet>>)
      requires Valid()
      ensures r == if Contents() == [] then None else Some(Contents())
    {
      if used == 0 { return None; }
      return Some(data[..used]);
    }
  }

  /** What a walk at `pos` has still to collect. */
  function Rest(ies: seq<Octet>, pos: nat, end: nat, vendorType: nat): seq<Octet>
    requires pos <= end <= |ies|
  {
    Payload(Elements(ies[pos..end]), vendorType)
  }

  lemma SliceOfSlice<T>(s: seq<T>, a: nat, b: nat, c: nat, d: nat)
    requires a <= b <= |s| && c <= d <= b - a
    ensures s[a..b][c..d] == s[a + c..a + d]
  {
    forall i | 0 <= i < d - c ensures s[a..b][c..d][i] == s[a + c..a + d][i] {
      assert s[a..b][c + i] == s[a + c + i];
    }
  }

  lemma RestStep(ies: seq<Octet>, pos: nat, end: nat, vendorType: nat)
    requires pos + 2 <= end <= |ies| && pos + 2 + ies[pos + 1] as int <= end
    ensures var next := pos + 2 + ies[pos + 1] as int;
            Rest(ies, pos, end, vendorType) ==
            Piece(Element(ies[pos], ies[pos + 2..next]), vendorType) + Rest(ies, next, end, vendorType)
  {
    var s := ies[pos..end];
    var n := 2 + ies[pos + 1] as int;
    assert s[1] == ies[pos + 1];
    SliceOfSlice(ies, pos, end, 2, n);
    SliceOfSlice(ies, pos, end, n, end - pos);
    assert s[n..] == s[n..end - pos];
    assert Elements(s)[1..] == Elements(s[n..]);
  }

  lemma RestStop(ies: seq<Octet>, pos: nat, end: nat, vendorType: nat)
    requires pos <= end <= |ies| && (end - pos > 1 ==> ies[pos + 1] as int > end - pos - 2)
    ensures Rest(ies, pos, end, vendorType) == []
  {
  }

  /** What the element whose `len` octets stand at `pos` adds to what was collected. */
  lemma Taken(ies: seq<Octet>, pos: nat, len: nat, end: nat, vendorType: nat, got: seq<Octet>, rest: seq<Octet>)
      returns (piece: seq<Octet>, after: seq<Octet>)
    requires 2 <= pos && pos + len <= end <= |ies| && len == ies[pos - 1] as int
    requires rest == Rest(ies, pos - 2, end, vendorType)
    ensures piece == Piece(Element(ies[pos - 2], ies[pos..pos + len]), vendorType)
    ensures after == Rest(ies, pos + len, end, vendorType) && got + rest == (got + piece) + after
  {
    RestStep(ies, pos - 2, end, vendorType);
    piece := Piece(Element(ies[pos - 2], ies[pos..pos + len]), vendorType);
    after := Rest(ies, pos + len, end, vendorType);
    Collected(got, piece, after);
  }

  /** The payload of an element is that of the octets in place. */
  lemma PieceInPlace(ies: seq<Octet>, ie: Octet, pos: nat, len: nat, vendorType: nat)
    requires pos + len <= |ies|
    ensures Piece(Element(ie, ies[pos..pos + len]), vendorType) ==
            if ie == VENDOR_SPECIFIC && len >= 4 && vendorType == BigEndian(ies, pos) then ies[pos + 4..pos + len] else []
  {
    var p := ies[pos..pos + len];
    if len >= 4 {
      assert BigEndian(p, 0) == BigEndian(ies, pos);
      SliceOfSlice(ies, pos, pos + len, 4, len);
      assert p[4..] == p[4..len];
    }
  }

  /** Adds the payload of an element of `len` octets at `pos` to the buffer, if it is of the vendor type. */
  method PutMatching(buf: WpaBuf, ies: seq<Octet>, ie: Octet, pos: nat, len: nat, vendorType: nat, ghost piece: seq<Octet>)
    requires buf.Valid() && pos + len <= |ies| && buf.used + len <= buf.data.Length
    requires piece == Piece(Element(ie, ies[pos..pos + len]), vendorType)
    modifies buf, buf.data
    ensures buf.Valid() && buf.used <= old(buf.used) + len && buf.Contents() == old(buf.Contents()) + piece
  {
    PieceInPlace(ies, ie, pos, len, vendorType);
    if ie == VENDOR_SPECIFIC && len >= 4 && vendorType == BigEndian(ies, pos) {
      buf.PutData(ies[pos + 4..pos + len]);
    }
  }

  /** One element of a walk, with its octets from `pos` to `next`: the buffer grows by what is no longer left to collect. */
  method TakeElement(buf: WpaBuf, ies: seq<Octet>, ie: Octet, pos: nat, next: nat, vendorType: nat, ghost end: nat, ghost rest: seq<Octet>)
      returns (ghost after: seq<Octet>)
    requires buf.Valid() && 2 <= pos <= next <= end <= |ies| && buf.used + next - pos <= buf.data.Length
    requires ie == ies[pos - 2] && next - pos == ies[pos - 1] as int
    requires rest == Rest(ies, pos - 2, end, vendorType)
    modifies buf, buf.data
    ensures buf.Valid() && buf.used <= old(buf.used) + next - pos
    ensures after == Rest(ies, next, end, vendorType)
    ensures old(buf.Contents()) + rest == buf.Contents() + after
  {
    ghost var piece;
    piece, after := Taken(ies, pos, next - pos, end, vendorType, buf.Contents(), rest);
    PutMatching(buf, ies, ie, pos, next - pos, vendorType, piece);
  }

  /** The walk of the first reader: takes id and length out first and steps over them. */
  method WalkByHeader(buf: WpaBuf, ies: seq<Octet>, end: nat, vendorType: nat)
    requires buf.Valid() && buf.used == 0 && end <= |ies| && end <= buf.data.Length
    modifies buf, buf.data
    ensures buf.Valid() && buf.used <= end && buf.Contents() == Rest(ies, 0, end, vendorType)
  {
    var pos: nat := 0;
    ghost var rest := Rest(ies, 0, end, vendorType);
    ghost var all := rest;
    while end - pos > 1
      invariant pos <= end && buf.Valid() && buf.used <= pos
      invariant rest == Rest(ies, pos, end, vendorType) && buf.Contents() + rest == all
      decreases end - pos
    {
      var ie, len := ies[pos], ies[pos + 1] as int;
      if len > end - pos - 2 { break; }
      pos := pos + 2;
      var next := pos + len;
      rest := TakeElement(buf, ies, ie, pos, next, vendorType, end, rest);
      pos := next;
    }
    RestStop(ies, pos, end, vendorType);
    assert buf.Contents() + [] == buf.Contents();
  }

  /** The walk of the second reader: compares positions and steps over whole elements. */
  method WalkByElement(buf: WpaBuf, ies: seq<Octet>, from: nat, end: nat, vendorType: nat)
    requires buf.Valid() && buf.used == 0 && from <= end <= |ies| && end - from <= buf.data.Length
    modifies buf, buf.data
    ensures buf.Valid() && buf.used <= end - from && buf.Contents() == Rest(ies, from, end, vendorType)
  {
    var pos := from;
    ghost var rest := Rest(ies, from, end, vendorType);
    ghost var all := rest;
    while end - pos > 1
      invariant from <= pos <= end && buf.Valid() && buf.used <= pos - from
      invariant rest == Rest(ies, pos, end, vendorType) && buf.Contents() + rest == all
      decreases end - pos
    {
      if 2 + ies[pos + 1] as int > end - pos { break; }
      var next := pos + 2 + ies[pos + 1] as int;
      rest := TakeElement(buf, ies, ies[pos], pos + 2, next, vendorType, end, rest);
      pos := next;
    }
    RestStop(ies, pos, end, vendorType);
    assert buf.Contents() + [] == buf.Contents();
  }

  /** Reads the `ieLen` octets of the elements of the last frame. */
  method GetVendorIeMulti(ies: seq<Octet>, ieLen: nat, vendorType: nat) returns (r: Option<seq<Octet>>)
    requires ieLen <= |ies|
    ensures r == VendorPayload(ies[0..ieLen], vendorType)
    ensures r.Some? ==> |r.value| <= ieLen
  {
    var buf := new WpaBuf(ieLen);
    WalkByHeader(buf, ies, ieLen, vendorType);
    r := buf.Result();
  }

  /** Reads the `beaconIeLen` octets of the elements of the last beacon, which follow the first `ieLen` octets. */
  method GetVendorIeMultiBeacon(ies: seq<Octet>, ieLen: nat, beaconIeLen: nat, vendorType: nat) returns (r: Option<seq<Octet>>)
    requires ieLen + beaconIeLen <= |ies|
    ensures r == VendorPayload(ies[ieLen..ieLen + beaconIeLen], vendorType)
    ensures r.Some? ==> |r.value| <= beaconIeLen
  {
    var buf := new WpaBuf(beaconIeLen);
    WalkByElement(buf, ies, ieLen, ieLen + beaconIeLen, vendorType);
    r := buf.Result();
  }
}
