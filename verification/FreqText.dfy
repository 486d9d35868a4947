/**
 Frequency lists in the configuration text: decimal numbers with a space between two of them. The reading of
 any text, the writing of any list, and what a list reads as after it was written.
 */
module FreqText {
  import opened ConfigText

  // ------------------------------------------------------------ numbers

  predicate IsDigit(c: char) {
    '0' <= c <= '9'
  }

  function DigitOf(d: nat): (c: char)
    requires d < 10
    ensures IsDigit(c) && c as int - '0' as int == d
  {
    '0' + d as char
  }

  /** The number in front of a text, with the digits before it already read. */
  function Number(s: string, before: nat): nat
    decreases |s|
  {
    if s != "" && IsDigit(s[0]) then Number(s[1..], 10 * before + (s[0] as int - '0' as int)) else before
  }

  function SkipSpace(s: string): string {
    if s != "" && IsSpace(s[0]) then SkipSpace(s[1..]) else s
  }

  /** What atoi gives for a text. */
  function Atoi(s: string): (v: int)
    ensures s == "" ==> v == 0
  {
    var t := SkipSpace(s);
    if t != "" && t[0] == '-' then -(Number(t[1..], 0) as int)
    else if t != "" && t[0] == '+' then Number(t[1..], 0)
    else Number(t, 0)
  }

  function Decimal(n: nat): (s: string)
    ensures s != "" && forall i :: 0 <= i < |s| ==> IsDigit(s[i])
  {
    if n < 10 then [DigitOf(n)] else Decimal(n / 10) + [DigitOf(n % 10)]
  }

  lemma {:induction false} NumberOfDecimal(n: nat, t: string)
    ensures Number(Decimal(n) + t, 0) == Number(t, n)
    decreases n
  {
    if n < 10 {
      assert (Decimal(n) + t)[1..] == t;
    } else {
      var d := [DigitOf(n % 10)];
      assert Decimal(n) + t == Decimal(n / 10) + (d + t);
      NumberOfDecimal(n / 10, d + t);
      assert (d + t)[1..] == t;
    }
  }

  lemma AtoiOfDigits(s: string)
    requires s != "" && IsDigit(s[0])
    ensures Atoi(s) == Number(s, 0)
  {
  }

  lemma NumberStops(s: string, n: nat)
    requires s == "" || !IsDigit(s[0])
    ensures Number(s, n) == n
  {
  }

  lemma AtoiOfDecimal(n: nat, t: string)
    requires t == "" || !IsDigit(t[0])
    ensures Atoi(Decimal(n) + t) == n
  {
    assert IsDigit(Decimal(n)[0]);
    AtoiOfDigits(Decimal(n) + t);
    NumberOfDecimal(n, t);
    NumberStops(t, n);
  }

  lemma {:induction false} SkipBlank(blank: string, s: string)
    requires (forall i :: 0 <= i < |blank| ==> IsSpace(blank[i])) && (s == "" || !IsSpace(s[0]))
    ensures SkipSpace(blank + s) == s
    decreases |blank|
  {
    if |blank| == 0 {
      assert blank + s == s;
    } else {
      assert (blank + s)[1..] == blank[1..] + s;
      SkipBlank(blank[1..], s);
    }
  }

  /** White space, a sign or none, and digits are read as the number, whatever other text follows the digits. */
  lemma AtoiOfSigned(blank: string, sign: char, n: nat, t: string)
    requires (forall i :: 0 <= i < |blank| ==> IsSpace(blank[i])) && (sign == '-' || sign == '+')
    requires t == "" || !IsDigit(t[0])
    ensures Atoi(blank + ([sign] + (Decimal(n) + t))) == if sign == '-' then -(n as int) else n
  {
    var digits := Decimal(n) + t;
    var s := [sign] + digits;
    SkipBlank(blank, s);
    assert s[1..] == digits;
    NumberOfDecimal(n, t);
    NumberStops(t, n);
  }

  /** Text that does not start with a number reads as 0. */
  lemma AtoiOfOther(blank: string, s: string)
    requires forall i :: 0 <= i < |blank| ==> IsSpace(blank[i])
    requires s == "" || !(IsSpace(s[0]) || IsDigit(s[0]) || s[0] == '-' || s[0] == '+')
    ensures Atoi(blank + s) == 0
  {
    SkipBlank(blank, s);
    NumberStops(s, 0);
  }

  /** A decimal text that is cut short is the text of a smaller number. */
  lemma {:induction false} DecimalCut(n: nat, k: nat) returns (m: nat)
    requires n > 0 && 0 < k < |Decimal(n)|
    ensures Decimal(n)[..k] == Decimal(m) && 0 < m < n
    decreases n
  {
    m := n / 10;
    if k < |Decimal(n)| - 1 {
      assert Decimal(n)[..k] == Decimal(n / 10)[..k];
      m := DecimalCut(n / 10, k);
    } else {
      assert Decimal(n)[..k] == Decimal(m);
    }
  }

  function Power10(k: nat): nat {
    if k == 0 then 1 else 10 * Power10(k - 1)
  }

  lemma {:induction false} DecimalLength(n: nat, k: nat)
    requires k > 0
    ensures |Decimal(n)| <= k <==> n < Power10(k)
    decreases k
  {
    if k > 1 {
      if n >= 10 {
        DecimalLength(n / 10, k - 1);
      } else {
        Power10Grows(k - 1);
      }
    } else {
      assert Power10(1) == 10;
    }
  }

  lemma {:induction false} Power10Grows(k: nat)
    ensures Power10(k) >= 1
  {
    if k > 0 {
      Power10Grows(k - 1);
    }
  }

  // ------------------------------------------------------------ reading

  /** The text from the next space on. */
  function NextField(s: string): (r: string)
    requires s != ""
    ensures |r| < |s|
  {
    s[FindSpace(s, 1)..]
  }

  /** The numbers in a text up to the first that reads as 0. */
  function Parsed(s: string): seq<int>
    decreases |s|
  {
    var t := StripSpaces(s);
    var v := Atoi(t);
    if v == 0 then [] else [v] + Parsed(NextField(t))
  }

  // ------------------------------------------------------------ writing

  ghost predicate Positive(f: seq<int>) {
    forall i :: 0 <= i < |f| ==> f[i] > 0
  }

  /** An int printed as an unsigned int of 32 bits. */
  function Unsigned(f: int): (r: nat)
    requires -0x8000_0000 <= f < 0x8000_0000
    ensures r < 0x1_0000_0000 && (f >= 0 ==> r == f) && (f != 0 ==> r > 0)
  {
    if f < 0 then f + 0x1_0000_0000 else f
  }

  ghost predicate Ints(f: seq<int>) {
    forall i :: 0 <= i < |f| ==> -0x8000_0000 <= f[i] < 0x8000_0000
  }

  /** The text of one element, with the space that sets it off. */
  function Item(i: nat, f: int): (s: string)
    requires -0x8000_0000 <= f < 0x8000_0000
    ensures |s| > 0
  {
    (if i == 0 then "" else " ") + Decimal(Unsigned(f))
  }

  /** The whole text of a list. */
  function Full(f: seq<int>): string
    requires Ints(f)
  {
    if f == [] then "" else Full(f[..|f| - 1]) + Item(|f| - 1, f[|f| - 1])
  }

  /** What fits of it: ten characters for each element. */
  function Written(f: seq<int>): string
    requires Ints(f)
  {
    if |Full(f)| <= 10 * |f| then Full(f) else Full(f)[..10 * |f|]
  }

  lemma FullOfOne(f: seq<int>)
    requires Ints(f) && |f| == 1
    ensures Full(f) == Decimal(Unsigned(f[0]))
  {
    assert f[..0] == [];
  }

  lemma FullOfRest(f: seq<int>)
    requires Ints(f) && |f| > 2
    ensures Full(f[1..]) == Full(f[..|f| - 1][1..]) + (" " + Decimal(Unsigned(f[|f| - 1])))
  {
    var n := |f| - 1;
    assert f[1..][..n - 1] == f[..n][1..] && f[1..][n - 1] == f[n];
  }

  lemma {:induction false} FullSplit(f: seq<int>)
    requires Ints(f) && |f| > 1
    ensures Full(f) == Decimal(Unsigned(f[0])) + (" " + Full(f[1..]))
  {
    var n := |f| - 1;
    var last := Decimal(Unsigned(f[n]));
    if n == 1 {
      FullOfOne(f[..1]);
      FullOfOne(f[1..]);
    } else {
      FullSplit(f[..n]);
      FullOfRest(f);
      Regrouped(Decimal(Unsigned(f[0])), " ", Full(f[..n][1..]), " " + last);
    }
  }

  // ------------------------------------------------------------ written, then read

  lemma NextFieldOfDecimal(n: nat, t: string)
    requires t == "" || t[0] == ' '
    ensures NextField(Decimal(n) + t) == t
  {
    var s := Decimal(n) + t;
    forall i | 1 <= i < |Decimal(n)| ensures s[i] != ' ' {
      assert IsDigit(Decimal(n)[i]);
    }
    FindSpaceIs(s, 1, |Decimal(n)|);
  }

  lemma ParsedIs(s: string, v: int, rest: string)
    requires s != "" && s[0] != ' ' && Atoi(s) == v && v != 0 && NextField(s) == rest
    ensures Parsed(s) == [v] + Parsed(rest)
  {
    assert StripSpaces(s) == s;
  }

  lemma ParsedFirst(n: nat, t: string)
    requires n > 0 && (t == "" || t[0] == ' ')
    ensures Parsed(Decimal(n) + t) == [n] + Parsed(t)
  {
    assert IsDigit(Decimal(n)[0]);
    AtoiOfDecimal(n, t);
    NextFieldOfDecimal(n, t);
    ParsedIs(Decimal(n) + t, n, t);
  }

  lemma ParsedAfterSpace(s: string)
    ensures Parsed(" " + s) == Parsed(s)
  {
    assert (" " + s)[1..] == s;
  }

  lemma ParsedOfEmpty(s: string)
    requires |s| == 0
    ensures Parsed(s) == []
  {
  }

  predicate Blank(s: string) {
    |s| == 0 || (|s| == 1 && s[0] == ' ')
  }

  lemma ParsedOfBlank(s: string)
    requires Blank(s)
    ensures Parsed(s) == []
  {
    if |s| == 0 {
      ParsedOfEmpty(s);
    } else {
      assert s == " " + s[1..];
      ParsedAfterSpace(s[1..]);
      ParsedOfEmpty(s[1..]);
    }
  }

  lemma FullText(f: seq<int>, end: string)
    requires Ints(f) && Positive(f) && |f| > 1
    ensures Full(f) + end == Decimal(f[0]) + (" " + (Full(f[1..]) + end))
  {
    FullSplit(f);
    Regrouped(Decimal(f[0]), " ", Full(f[1..]), end);
  }

  lemma ParsedStep(f: seq<int>, end: string)
    requires Ints(f) && Positive(f) && |f| > 1
    ensures Parsed(Full(f) + end) == [f[0]] + Parsed(Full(f[1..]) + end)
  {
    var rest := Full(f[1..]) + end;
    FullText(f, end);
    ParsedFirst(f[0], " " + rest);
    ParsedAfterSpace(rest);
  }

  lemma ParsedOfOne(n: nat, end: string)
    requires n > 0 && Blank(end)
    ensures Parsed(Decimal(n) + end) == [n]
  {
    ParsedFirst(n, end);
    ParsedOfBlank(end);
  }

  lemma ParsedOfShort(f: seq<int>, end: string)
    requires Ints(f) && Positive(f) && |f| <= 1 && Blank(end)
    ensures Parsed(Full(f) + end) == f
  {
    if |f| == 0 {
      assert Full(f) + end == end;
      ParsedOfBlank(end);
    } else {
      FullOfOne(f);
      ParsedOfOne(f[0], end);
    }
  }

  lemma FirstAndRest(f: seq<int>)
    requires f != []
    ensures [f[0]] + f[1..] == f
  {
  }

  /** The whole text of a list of positive numbers reads as the list, also with a space after it. */
  lemma {:induction false} ParsedOfFull(f: seq<int>, end: string)
    requires Ints(f) && Positive(f) && Blank(end)
    ensures Parsed(Full(f) + end) == f
    decreases |f|
  {
    if |f| <= 1 {
      ParsedOfShort(f, end);
    } else {
      ParsedStep(f, end);
      ParsedOfFull(f[1..], end);
      FirstAndRest(f);
    }
  }

  /** The text of a list in front of its last number. */
  function Lead(f: seq<int>): string
    requires Ints(f) && f != []
  {
    Full(f[..|f| - 1]) + if |f| == 1 then "" else " "
  }

  lemma FullOfLast(f: seq<int>)
    requires Ints(f) && f != []
    ensures Full(f) == Lead(f) + Decimal(Unsigned(f[|f| - 1]))
  {
    Joined(Full(f[..|f| - 1]), if |f| == 1 then "" else " ", Decimal(Unsigned(f[|f| - 1])));
  }

  lemma SmallerLast(f: seq<int>, m: nat) returns (g: seq<int>)
    requires Ints(f) && Positive(f) && f != [] && 0 < m < f[|f| - 1]
    ensures Ints(g) && Positive(g) && g != f && Full(g) == Lead(f) + Decimal(m)
  {
    var n := |f| - 1;
    g := f[..n] + [m];
    assert g[n] != f[n] && g[..n] == f[..n];
    FullOfLast(g);
  }

  lemma PrefixOfSum(a: string, b: string, k: nat)
    requires |a| <= k <= |a| + |b|
    ensures (a + b)[..k] == a + b[..k - |a|]
  {
  }

  /** The end of the text of a list, cut inside its last number. */
  lemma LastCut(f: seq<int>, k: nat) returns (g: seq<int>)
    requires Ints(f) && Positive(f) && f != []
    requires |Full(f)| - |Decimal(f[|f| - 1])| < k < |Full(f)|
    ensures Ints(g) && Positive(g) && g != f && Full(f)[..k] == Full(g)
  {
    FullOfLast(f);
    var last := Decimal(f[|f| - 1]);
    var m := DecimalCut(f[|f| - 1], k - |Lead(f)|);
    g := SmallerLast(f, m);
    PrefixOfSum(Lead(f), last, k);
  }

  lemma FullPrefix(f: seq<int>, k: nat)
    requires Ints(f) && Positive(f) && f != [] && k <= |Full(f)| - |Decimal(f[|f| - 1])|
    ensures var init := Full(f[..|f| - 1]);
            Full(f)[..k] == if k <= |init| then init[..k] else init + " "
  {
  }

  /** Any shorter beginning of the text is the text of another list, perhaps with a space after it. */
  lemma {:induction false} FullCut(f: seq<int>, k: nat) returns (g: seq<int>, end: string)
    requires Ints(f) && Positive(f) && k < |Full(f)|
    ensures Ints(g) && Positive(g) && g != f && Blank(end) && Full(f)[..k] == Full(g) + end
    decreases |f|
  {
    var init := f[..|f| - 1];
    end := "";
    if |Full(f)| - |Decimal(f[|f| - 1])| < k {
      g := LastCut(f, k);
    } else {
      FullPrefix(f, k);
      if k < |Full(init)| {
        g, end := FullCut(init, k);
        if g == f { CutIsShorter(f, k, g, end); }
      } else {
        g, end := init, if k == |Full(init)| then "" else " ";
      }
    }
  }

  lemma CutIsShorter(f: seq<int>, k: nat, g: seq<int>, end: string)
    requires Ints(f) && Ints(g) && k < |Full(f)| && Full(f)[..k] == Full(g) + end
    ensures g != f
  {
  }

  /**
   A list of positive numbers is read back exactly when its whole text takes at most ten characters for each
   element.
   */
  lemma ReadBackExactlyWhen(f: seq<int>)
    requires Ints(f) && Positive(f)
    ensures Parsed(Written(f)) == f <==> |Full(f)| <= 10 * |f|
  {
    if |Full(f)| <= 10 * |f| {
      var none := Full(f)[..0];
      ParsedOfFull(f, none);
      assert Full(f) + none == Full(f);
    } else {
      var g, end := FullCut(f, 10 * |f|);
      ParsedOfFull(g, end);
    }
  }

  lemma BillionIs()
    ensures Power10(9) == 1_000_000_000
  {
    assert Power10(3) == 1000;
    assert Power10(6) == 1_000_000;
  }

  lemma {:induction false} FullLength(f: seq<int>)
    requires Ints(f) && forall i :: 0 <= i < |f| ==> 0 < f[i] < 1_000_000_000
    ensures |Full(f)| <= 10 * |f|
    decreases |f|
  {
    if f != [] {
      FullLength(f[..|f| - 1]);
      DecimalLength(f[|f| - 1], 9);
      BillionIs();
    }
  }

  /** Numbers below 10^9 always fit, so lists of them are read back. */
  lemma ReadBack(f: seq<int>)
    requires Ints(f) && forall i :: 0 <= i < |f| ==> 0 < f[i] < 1_000_000_000
    ensures Written(f) == Full(f) && Parsed(Written(f)) == f
  {
    FullLength(f);
    ReadBackExactlyWhen(f);
  }

  lemma TenDigits(n: nat)
    requires n >= 1_000_000_000
    ensures |Decimal(n)| >= 10
  {
    DecimalLength(n, 9);
    BillionIs();
  }

  /** Two numbers of ten digits do not fit. */
  lemma TenDigitsAreCut(f: seq<int>)
    requires Ints(f) && |f| == 2 && f[0] >= 1_000_000_000 && f[1] >= 1_000_000_000
    ensures Parsed(Written(f)) != f
  {
    TenDigits(f[0]);
    TenDigits(f[1]);
    FullSplit(f);
    FullOfOne(f[1..]);
    ReadBackExactlyWhen(f);
  }
}
