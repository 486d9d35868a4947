/**
 Sequence numbers of the AKA vectors, Annex C.3.2 of 3GPP TS 33.102: SQN is SEQ followed by IND, and
 both are counted up for every vector. Shifts are multiplications by powers of two here, and the
 `or` of SEQ shifted and IND, which occupy different bits, is their sum.
 */
module Sqn {
  /** `1 << len` is defined for an `int` of 32 bits up to this length; the option parser admits 31 and 32 too. */
  const MAX_IND_LEN := 30

  function Pow2(n: nat): (r: nat)
    ensures r > 0
  {
    if n == 0 then 1 else 2 * Pow2(n - 1)
  }

  /** The number in the bytes, most significant first. */
  function Value(s: seq<nat>): nat {
    if s == [] then 0 else 256 * Value(s[..|s| - 1]) + s[|s| - 1]
  }

  function Seq(v: nat, len: nat): nat {
    var m := Pow2(len);
    QuotientIsNat(v, m);
    v / m
  }

  lemma QuotientIsNat(v: nat, m: nat)
    requires m > 0
    ensures v / m >= 0
  {
    assert v == v / m * m + v % m;
  }

  function Ind(v: nat, len: nat): nat { v % Pow2(len) }

  /** One step on the whole number. */
  function Next(v: nat, len: nat): nat {
    (Seq(v, len) + 1) * Pow2(len) + (v + 1) % Pow2(len)
  }

  function Iterate(v: nat, len: nat, n: nat): nat {
    if n == 0 then v else Next(Iterate(v, len, n - 1), len)
  }

  predicate Bytes(s: seq<nat>) {
    |s| == 6 && forall i :: 0 <= i < 6 ==> s[i] < 256
  }

  const LIMIT := 0x1_0000_0000_0000

  lemma ValueOfSix(s: seq<nat>)
    requires Bytes(s)
    ensures Value(s) == s[0] * 0x100_0000_0000 + s[1] * 0x1_0000_0000 + s[2] * 0x100_0000 +
                        s[3] * 0x1_0000 + s[4] * 0x100 + s[5]
    ensures Value(s) < LIMIT
  {
    assert s[..5][..4] == s[..4] && s[..4][..3] == s[..3] && s[..3][..2] == s[..2] && s[..2][..1] == s[..1];
    assert Value(s[..1]) == s[0];
    assert Value(s[..2]) == 256 * Value(s[..1]) + s[1];
    assert Value(s[..3]) == 256 * Value(s[..2]) + s[2];
    assert Value(s[..4]) == 256 * Value(s[..3]) + s[3];
    assert Value(s[..5]) == 256 * Value(s[..4]) + s[4];
  }

  /** Increments the big-endian number in place; beyond 48 bits it wraps. Nothing is promised where the shift is undefined. */
  method IncSqn(sqn: array<nat>, indLen: nat) returns (defined: bool)
    requires sqn.Length == 6 && Bytes(sqn[..])
    modifies sqn
    ensures defined <==> indLen <= MAX_IND_LEN
    ensures defined ==> Bytes(sqn[..]) && Value(sqn[..]) == Next(Value(old(sqn[..])), indLen) % LIMIT
  {
    if indLen > MAX_IND_LEN { return false; }
    var val := GetBytes(sqn);
    val := Increment(val, indLen);
    PutBytes(sqn, val);
    return true;
  }

  method Increment(val: nat, indLen: nat) returns (r: nat)
    ensures r == Next(val, indLen)
  {
    var m := Pow2(indLen);
    var seq_ := Seq(val, indLen) + 1;
    var ind := (val + 1) % m;
    return seq_ * m + ind;
  }

  /** Four bytes and two bytes, put together. */
  method GetBytes(sqn: array<nat>) returns (val: nat)
    requires sqn.Length == 6 && Bytes(sqn[..])
    ensures val == Value(sqn[..])
  {
    ValueOfSix(sqn[..]);
    var high := sqn[0] * 0x100_0000 + sqn[1] * 0x1_0000 + sqn[2] * 0x100 + sqn[3];
    return high * 0x1_0000 + (sqn[4] * 0x100 + sqn[5]);
  }

  /** Stores the low 48 bits: four bytes of the number shifted by 16, then the two lowest. */
  method PutBytes(sqn: array<nat>, val: nat)
    requires sqn.Length == 6
    modifies sqn
    ensures Bytes(sqn[..]) && Value(sqn[..]) == val % LIMIT
  {
    var high, low := (val / 0x1_0000) % 0x1_0000_0000, val % 0x1_0000;
    sqn[0], sqn[1], sqn[2], sqn[3] := high / 0x100_0000, high / 0x1_0000 % 0x100, high / 0x100 % 0x100, high % 0x100;
    sqn[4], sqn[5] := low / 0x100, low % 0x100;
    ValueOfSix(sqn[..]);
    SplitHigh(high);
    SplitLow(val, high, low);
  }

  lemma SplitHigh(high: nat)
    requires high < 0x1_0000_0000
    ensures high / 0x100_0000 < 0x100
    ensures high == high / 0x100_0000 * 0x100_0000 + high / 0x1_0000 % 0x100 * 0x1_0000 +
                    high / 0x100 % 0x100 * 0x100 + high % 0x100
  {
    var a, b := high / 0x100, high / 0x1_0000;
    assert b == a / 0x100 && high / 0x100_0000 == b / 0x100;
  }

  lemma SplitLow(val: nat, high: nat, low: nat)
    requires high == (val / 0x1_0000) % 0x1_0000_0000 && low == val % 0x1_0000
    ensures val % LIMIT == high * 0x1_0000 + low
  {
    var a := val / 0x1_0000;
    var b := a / 0x1_0000_0000;
    assert val == b * LIMIT + (high * 0x1_0000 + low);
  }

  // ---------- what the steps add up to ----------

  lemma MulApart(p: nat, q: nat, m: nat)
    requires p < q
    ensures q * m >= p * m + m
  {
    assert q * m == p * m + m + (q - p - 1) * m;
    assert (q - p - 1) * m >= 0;
  }

  /** Quotient and remainder are unique. */
  lemma DivUnique(x: nat, m: nat, q: nat, r: nat)
    requires m > 0 && x == q * m + r && r < m
    ensures x / m == q && x % m == r
  {
    var p := x / m;
    assert x == p * m + x % m;
    if q > p { MulApart(p, q, m); }
    if p > q { MulApart(q, p, m); }
  }

  lemma AddMod(a: nat, b: nat, m: nat)
    requires m > 0
    ensures (a + b) % m == (a % m + b) % m
  {
    var c := a % m + b;
    assert a == a / m * m + a % m && c == c / m * m + c % m;
    assert a + b == (a / m + c / m) * m + c % m by {
      assert (a / m + c / m) * m == a / m * m + c / m * m;
    }
    DivUnique(a + b, m, a / m + c / m, c % m);
  }

  /** One step adds one to SEQ, and one to IND in its range; so the whole number grows. */
  lemma NextParts(v: nat, len: nat)
    ensures Seq(Next(v, len), len) == Seq(v, len) + 1
    ensures Ind(Next(v, len), len) == (Ind(v, len) + 1) % Pow2(len)
    ensures Next(v, len) > v
  {
    var m := Pow2(len);
    DivUnique(Next(v, len), m, Seq(v, len) + 1, (v + 1) % m);
    AddMod(v, 1, m);
    NextBlock(v, m);
  }

  lemma NextBlock(v: nat, m: nat)
    requires m > 0
    ensures (v / m + 1) * m > v
  {
    assert v == v / m * m + v % m;
    assert (v / m + 1) * m == v / m * m + m;
  }

  /** After n steps SEQ has grown by n, and IND by n in its range. */
  lemma {:induction false} IterateParts(v: nat, len: nat, n: nat)
    ensures Seq(Iterate(v, len, n), len) == Seq(v, len) + n
    ensures Ind(Iterate(v, len, n), len) == (Ind(v, len) + n) % Pow2(len)
  {
    if n == 0 {
      DivUnique(Ind(v, len), Pow2(len), 0, Ind(v, len));
    } else {
      IterateParts(v, len, n - 1);
      NextParts(Iterate(v, len, n - 1), len);
      AddMod(Ind(v, len) + n - 1, 1, Pow2(len));
    }
  }

  /** The numbers increase strictly. */
  lemma {:induction false} IterateIncreases(v: nat, len: nat, i: nat, j: nat)
    requires i < j
    ensures Iterate(v, len, i) < Iterate(v, len, j)
  {
    NextParts(Iterate(v, len, j - 1), len);
    if i < j - 1 { IterateIncreases(v, len, i, j - 1); }
  }

  /** Two numbers with the same IND differ in SEQ by a positive multiple of the size of its range. */
  lemma SameIndFarApart(v: nat, len: nat, i: nat, j: nat) returns (k: nat)
    requires i < j
    ensures Ind(Iterate(v, len, i), len) == Ind(Iterate(v, len, j), len) ==>
              k > 0 && Seq(Iterate(v, len, j), len) - Seq(Iterate(v, len, i), len) == k * Pow2(len)
  {
    IterateParts(v, len, i);
    IterateParts(v, len, j);
    k := 0;
    if Ind(Iterate(v, len, i), len) == Ind(Iterate(v, len, j), len) {
      k := Multiple(Ind(v, len) + i, Ind(v, len) + j, Pow2(len));
    }
  }

  lemma Multiple(a: nat, b: nat, m: nat) returns (k: nat)
    requires a < b && m > 0 && a % m == b % m
    ensures k > 0 && b - a == k * m
  {
    var p, q := a / m, b / m;
    assert a == p * m + a % m && b == q * m + b % m;
    DivMonotone(a, b, m);
    k := q - p;
    assert k * m == q * m - p * m;
  }

  // ---------- in 48 bits ----------

  lemma {:induction false} Pow2Splits(a: nat, b: nat)
    ensures Pow2(a + b) == Pow2(b) * Pow2(a)
  {
    if b > 0 { Pow2Splits(a, b - 1); }
  }

  lemma LimitIs()
    ensures LIMIT == Pow2(48)
  {
    assert Pow2(4) == 16;
    Pow2Splits(4, 4);
    Pow2Splits(8, 8);
    Pow2Splits(16, 16);
    Pow2Splits(32, 16);
  }

  /** How many values SEQ has. */
  function SeqRange(len: nat): nat
    requires len <= 48
  {
    Pow2(48 - len)
  }

  lemma MulGrows(p: nat, q: nat, m: nat)
    requires p <= q
    ensures p * m <= q * m
  {
    if p < q { MulApart(p, q, m); }
  }

  /** Taking whole multiples of `k * m` away takes multiples of `k` from the quotient by `m`. */
  lemma DivOfRest(v: nat, k: nat, m: nat, limit: nat)
    requires m > 0 && k > 0 && limit == k * m
    ensures limit > 0 && (v % limit) / m == (v / m) % k && (v % limit) % m == v % m
    ensures v / m == v / limit * k + (v % limit) / m
  {
    MulGrows(1, k, m);
    var q, r := v / limit, v % limit;
    QuotientIsNat(v, limit);
    QuotientIsNat(r, m);
    var a, b := r / m, r % m;
    assert r == a * m + b;
    RestOnTop(q, a, b, k, m);
    DivUnique(v, m, q * k + a, b);
    if a >= k { MulGrows(k, a, m); }
    DivUnique(q * k + a, k, q, a);
  }

  lemma RestOnTop(q: nat, a: nat, b: nat, k: nat, m: nat)
    ensures q * (k * m) + (a * m + b) == (q * k + a) * m + b
  {
    assert q * (k * m) == (q * k) * m;
    assert (q * k + a) * m == (q * k) * m + a * m;
  }

  /** Both ranges together make up the 48 bits. */
  lemma RangesMakeLimit(len: nat)
    requires len <= 48
    ensures LIMIT == SeqRange(len) * Pow2(len)
  {
    LimitIs();
    Pow2Splits(len, 48 - len);
  }

  /** What SEQ and IND are in the low 48 bits. */
  lemma PartsOfRest(v: nat, len: nat)
    requires len <= 48
    ensures Seq(v % LIMIT, len) == Seq(v, len) % SeqRange(len)
    ensures Ind(v % LIMIT, len) == Ind(v, len)
  {
    RangesMakeLimit(len);
    DivOfRest(v, SeqRange(len), Pow2(len), LIMIT);
  }

  /** Cutting off what does not fit does not matter for the next step. */
  lemma NextOfRest(v: nat, len: nat)
    requires len <= 48
    ensures Next(v % LIMIT, len) % LIMIT == Next(v, len) % LIMIT
  {
    RangesMakeLimit(len);
    var k, m := SeqRange(len), Pow2(len);
    DivOfRest(v, k, m, LIMIT);
    QuotientIsNat(v, LIMIT);
    NextOnTop(v, v / LIMIT, v % LIMIT, k, len);
    AddMultiple(v / LIMIT, Next(v % LIMIT, len), LIMIT);
  }

  lemma NextOnTop(v: nat, q: nat, r: nat, k: nat, len: nat)
    requires Seq(v, len) == q * k + Seq(r, len) && Ind(v, len) == Ind(r, len)
    ensures Next(v, len) == q * (k * Pow2(len)) + Next(r, len)
  {
    var m := Pow2(len);
    AddMod(v, 1, m);
    AddMod(r, 1, m);
    RestOnTop(q, Seq(r, len) + 1, (r + 1) % m, k, m);
  }

  lemma AddMultiple(q: nat, x: nat, limit: nat)
    requires limit > 0
    ensures (q * limit + x) % limit == x % limit
  {
    QuotientIsNat(x, limit);
    var p := x / limit;
    assert q * limit + x == (q + p) * limit + x % limit by {
      assert x == p * limit + x % limit;
      assert (q + p) * limit == q * limit + p * limit;
    }
    DivUnique(q * limit + x, limit, q + p, x % limit);
  }

  /** `n` increments in place: SEQ and IND have each grown by `n` in their ranges. */
  method IncSqnTimes(sqn: array<nat>, indLen: nat, n: nat) returns (defined: bool)
    requires sqn.Length == 6 && Bytes(sqn[..])
    modifies sqn
    ensures defined <==> n == 0 || indLen <= MAX_IND_LEN
    ensures defined && indLen <= MAX_IND_LEN ==>
              && Bytes(sqn[..]) && Value(sqn[..]) == Iterate(Value(old(sqn[..])), indLen, n) % LIMIT
              && Seq(Value(sqn[..]), indLen) == (Seq(Value(old(sqn[..])), indLen) + n) % SeqRange(indLen)
              && Ind(Value(sqn[..]), indLen) == (Ind(Value(old(sqn[..])), indLen) + n) % Pow2(indLen)
  {
    ghost var v := Value(sqn[..]);
    ValueOfSix(sqn[..]);
    for i := 0 to n
      invariant Bytes(sqn[..]) && Value(sqn[..]) == Iterate(v, indLen, i) % LIMIT
      invariant i > 0 ==> indLen <= MAX_IND_LEN
    {
      defined := IncSqn(sqn, indLen);
      if !defined { return; }
      NextOfRest(Iterate(v, indLen, i), indLen);
    }
    defined := true;
    if indLen <= MAX_IND_LEN {
      IterateParts(v, indLen, n);
      PartsOfRest(Iterate(v, indLen, n), indLen);
    }
  }

  lemma DivMonotone(a: nat, b: nat, m: nat)
    requires a <= b && m > 0
    ensures a / m <= b / m
  {
    assert a == a / m * m + a % m && b == b / m * m + b % m;
    if a / m > b / m { MulApart(b / m, a / m, m); }
  }
}
