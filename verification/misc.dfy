/**
  The integer and text helpers of `misc.cpp`: integer power by squaring,
  fixed-width zero-padded decimal rendering into a character buffer, the
  `YYYY/MM/DD HH:MM:SS` date layout, and the lookup of a probe's one-letter
  name from its 8-byte bus address.
 */
module Misc {
  import opened Ticks

  const NUL: char := 0 as char

  // ---------------------------------------------------------------------
  // ipow

  /** `b` to the power `e`, the reference definition. */
  function Pow(b: int, e: nat): int
    decreases e
  {
    if e == 0 then 1 else b * Pow(b, e - 1)
  }

  lemma {:induction false} PowAdd(b: int, x: nat, y: nat)
    ensures Pow(b, x + y) == Pow(b, x) * Pow(b, y)
    decreases x
  {
    if x > 0 {
      PowAdd(b, x - 1, y);
      assert Pow(b, x + y) == b * Pow(b, x - 1 + y);
    }
  }

  lemma {:induction false} PowSquare(b: int, e: nat)
    ensures Pow(b * b, e) == Pow(b, 2 * e)
    decreases e
  {
    if e > 0 {
      PowSquare(b, e - 1);
      PowAdd(b, 2, 2 * (e - 1));
      assert Pow(b, 2) == b * b;
    }
  }

  /** One squaring step: `b^e` is `(b*b)^(e/2)`, times `b` when `e` is odd. */
  lemma PowHalve(b: int, e: nat)
    ensures Pow(b, e) == (if e % 2 == 1 then b else 1) * Pow(b * b, e / 2)
  {
    PowSquare(b, e / 2);
    if e % 2 == 1 {
      assert e == 2 * (e / 2) + 1;
      PowAdd(b, 1, 2 * (e / 2));
    } else {
      assert e == 2 * (e / 2);
    }
  }

  /** `ipow(base, exponent)`: exponentiation by squaring. `exponent & 1` and
      `exponent >>= 1` are written `% 2` and `/ 2`, which agree with the
      two's-complement bit operations for every `int`. */
  method IPow(base: int, exponent: int) returns (result: int)
    requires exponent >= 0
    ensures result == Pow(base, exponent)
    ensures exponent == 0 ==> result == 1
  {
    result := 1;
    var b := base;
    var e := exponent;
    while e != 0
      invariant e >= 0
      invariant result * Pow(b, e) == Pow(base, exponent)
      decreases e
    {
      PowHalve(b, e);
      var odd := e % 2 == 1;
      if odd {
        result := result * b;
      }
      assert result * Pow(b * b, e / 2) == Pow(base, exponent) by {
        if !odd {
          assert Pow(b, e) == Pow(b * b, e / 2);
        }
      }
      e := e / 2;
      b := b * b;
    }
  }

  /** The value of the exponent after `k` iterations of `exponent >>= 1`. */
  function Halvings(e: int, k: nat): int
    decreases k
  {
    if k == 0 then e else Halvings(e / 2, k - 1)
  }

  /** With a negative exponent the arithmetic shift never reaches 0, so the
      loop of `ipow` does not terminate: the model requires `exponent >= 0`. */
  lemma {:induction false} NegativeExponentNeverHalvesToZero(e: int, k: nat)
    requires e < 0
    ensures Halvings(e, k) < 0
    decreases k
  {
    if k > 0 {
      NegativeExponentNeverHalvesToZero(e / 2, k - 1);
    }
  }

  // ---------------------------------------------------------------------
  // num2char

  /** C's `/` on `int`: truncates toward zero. */
  function CDiv(a: int, b: int): (q: int)
    requires b > 0
    ensures a >= 0 ==> q == a / b
  {
    if a >= 0 then a / b else -((-a) / b)
  }

  /** C's `%` on `int`: the remainder takes the sign of the dividend. */
  function CRem(a: int, b: int): (r: int)
    requires b > 0
    ensures -b < r < b
    ensures a >= 0 ==> r == a % b
    ensures a < 0 ==> r == -((-a) % b)
  {
    a - b * CDiv(a, b)
  }

  /** `(num / div) % 10 + '0'`. */
  function DigitChar(num: int, div: int): (c: char)
    requires div > 0
    ensures num >= 0 ==> '0' <= c <= '9'
  {
    (CRem(CDiv(num, div), 10) + '0' as int) as char
  }

  /** `10^k`, which `ipow(10, k)` computes. */
  function Pow10(k: nat): (p: nat)
    ensures p >= 1
    decreases k
  {
    if k == 0 then 1 else 10 * Pow10(k - 1)
  }

  lemma {:induction false} Pow10IsPow(k: nat)
    ensures Pow10(k) == Pow(10, k)
    decreases k
  {
    if k > 0 {
      Pow10IsPow(k - 1);
    }
  }

  /** The `n` characters the loop of `num2char` writes, one per power of
      ten from `10^(n-1)` down to `10^0`. */
  function Digits(num: int, n: nat): (s: seq<char>)
    ensures |s| == n
  {
    seq(n, i requires 0 <= i < n => DigitChar(num, Pow10(n - 1 - i)))
  }

  /** The characters written for a non-negative number are digits. */
  lemma DigitsAreDigits(num: nat, n: nat)
    ensures forall i :: 0 <= i < n ==> IsDigit(Digits(num, n)[i])
  {
    forall i | 0 <= i < n
      ensures IsDigit(Digits(num, n)[i])
    {
      var c := DigitChar(num, Pow10(n - 1 - i));
      assert Digits(num, n)[i] == c;
    }
  }

  predicate IsDigit(c: char) {
    '0' <= c <= '9'
  }

  /** The number a string of decimal digits denotes, most significant
      first: the inverse reading of what `num2char` writes. */
  function DecodeDigits(s: seq<char>): int
    decreases |s|
  {
    if |s| == 0 then 0
    else 10 * DecodeDigits(s[..|s| - 1]) + (s[|s| - 1] as int - '0' as int)
  }

  /** `num2char(num, &buffer[start], n)`: writes the `n` least significant
      decimal digits of `num`, zero-padded and most significant first, at
      `buffer[start..start+n]`, then a NUL at `buffer[start+n]`; no other
      character of the buffer changes. */
  function Num2Char(num: int, buffer: seq<char>, start: nat, n: Byte): (r: seq<char>)
    requires start + n < |buffer|
    ensures |r| == |buffer|
    ensures forall j :: 0 <= j < |buffer| && (j < start || start + n < j) ==> r[j] == buffer[j]
    ensures r[start + n] == NUL
    ensures r[start..start + n] == Digits(num, n)
    ensures num >= 0 ==> forall j :: start <= j < start + n ==> IsDigit(r[j])
    ensures num >= 0 ==> DecodeDigits(r[start..start + n]) == num % Pow10(n)
  {
    var r := buffer[..start] + Digits(num, n) + [NUL] + buffer[start + n + 1..];
    assert r[start..start + n] == Digits(num, n);
    if num >= 0 then DigitsDecode(num, n); DigitsAreDigits(num, n); r else r
  }

  lemma MulAtLeast(d: int, k: int)
    requires d > 0 && k >= 1
    ensures d * k >= d
    decreases k
  {
    assert d * k == d * (k - 1) + d;
    if k > 1 {
      MulAtLeast(d, k - 1);
    }
  }

  /** Quotient and remainder are the only pair with `a == d*q + r` and
      `0 <= r < d`. */
  lemma DivModUnique(a: int, d: int, q: int, r: int)
    requires d > 0 && 0 <= r < d && a == d * q + r
    ensures a / d == q && a % d == r
  {
    var q', r' := a / d, a % d;
    assert a == d * q' + r';
    assert d * q - d * q' == r' - r;
    assert d * (q - q') == d * q - d * q';
    if q > q' {
      MulAtLeast(d, q - q');
      assert false;
    } else if q < q' {
      MulAtLeast(d, q' - q);
      assert false;
    }
  }

  /** Dividing by `10*c` is dividing by 10 and then by `c`; the remainders
      combine accordingly. */
  lemma DivTen(a: nat, c: int)
    requires c > 0
    ensures a / (10 * c) == (a / 10) / c
    ensures 10 * ((a / 10) % c) + a % 10 == a % (10 * c)
  {
    var q1, r1 := a / 10, a % 10;
    var q2, r2 := q1 / c, q1 % c;
    assert q1 == c * q2 + r2;
    assert a == 10 * q1 + r1;
    assert 10 * q1 == (10 * c) * q2 + 10 * r2;
    assert a == (10 * c) * q2 + (10 * r2 + r1);
    assert 10 * r2 + r1 < 10 * c;
    DivModUnique(a, 10 * c, q2, 10 * r2 + r1);
  }

  /** The digits of a non-negative number read back as the number modulo
      `10^n`: `num2char` keeps the `n` least significant digits. */
  lemma {:induction false} DigitsDecode(num: nat, n: nat)
    ensures DecodeDigits(Digits(num, n)) == num % Pow10(n)
    decreases n
  {
    var s := Digits(num, n);
    if n > 0 {
      var p := Pow10(n - 1);
      var s' := Digits(num / 10, n - 1);
      forall i | 0 <= i < n - 1
        ensures s[i] == s'[i]
      {
        var k := n - 2 - i;
        assert n - 1 - i == k + 1;
        assert Pow10(k + 1) == 10 * Pow10(k);
        DivTen(num, Pow10(k));
        assert CDiv(num, Pow10(k + 1)) == CDiv(num / 10, Pow10(k));
        assert s[i] == DigitChar(num, Pow10(k + 1));
        assert s'[i] == DigitChar(num / 10, Pow10(k));
      }
      assert s[..n - 1] == s';
      assert s[n - 1] == DigitChar(num, Pow10(0));
      assert s == s' + [s[n - 1]];
      DigitsDecode(num / 10, n - 1);
      DivTen(num, p);
    }
  }

  // ---------------------------------------------------------------------
  // calc_date

  /** An RTC date and time: six bytes, the year stored as an offset from
      2000. */
  datatype DateTime = DateTime(yOff: Byte, m: Byte, d: Byte, hh: Byte, mm: Byte, ss: Byte)

  /** `year()`: a `uint16_t`, always four decimal digits. */
  function Year(t: DateTime): (y: int)
    ensures 2000 <= y <= 2255
    ensures y - 2000 == t.yOff
  {
    2000 + t.yOff
  }

  /** Each field below 100, as in any date and time of day. */
  predicate TwoDigitFields(t: DateTime) {
    t.m < 100 && t.d < 100 && t.hh < 100 && t.mm < 100 && t.ss < 100
  }

  /** `num2char(v, &buffer[start], n); buffer[start + n] = sep;`: one field
      of the date and the separator written over its terminating NUL. */
  function PutField(buffer: seq<char>, start: nat, n: Byte, v: int, sep: char): (r: seq<char>)
    requires start + n < |buffer|
    ensures |r| == |buffer|
    ensures r[..start] == buffer[..start]
    ensures r[start..start + n] == Digits(v, n)
    ensures r[start + n] == sep
    ensures r[start + n + 1..] == buffer[start + n + 1..]
  {
    var w := Num2Char(v, buffer, start, n);
    var r := w[start + n := sep];
    assert r[..start] == buffer[..start];
    assert r[start..start + n] == w[start..start + n];
    assert r[start + n + 1..] == buffer[start + n + 1..];
    r
  }

  lemma PrefixSlice(s: seq<char>, t: seq<char>, k: nat, lo: nat, hi: nat)
    requires k <= |s| && k <= |t| && s[..k] == t[..k]
    requires lo <= hi <= k
    ensures s[lo..hi] == t[lo..hi]
  {
    forall i | 0 <= i < hi - lo
      ensures s[lo..hi][i] == t[lo..hi][i]
    {
      assert s[lo..hi][i] == s[..k][lo + i];
      assert t[lo..hi][i] == t[..k][lo + i];
    }
  }

  /** `calc_date(t, buffer)`: the `YYYY/MM/DD HH:MM:SS` layout. Each field
      is its value's least significant digits, zero-padded; the separators
      replace the NULs that `num2char` leaves behind, the last NUL ends the
      string at index 19, and nothing after it is written. */
  function CalcDate(t: DateTime, buffer: seq<char>): (r: seq<char>)
    requires |buffer| >= 20
    ensures |r| == |buffer|
    ensures r[0..4] == Digits(Year(t), 4) && r[4] == '/'
    ensures r[5..7] == Digits(t.m, 2) && r[7] == '/'
    ensures r[8..10] == Digits(t.d, 2) && r[10] == ' '
    ensures r[11..13] == Digits(t.hh, 2) && r[13] == ':'
    ensures r[14..16] == Digits(t.mm, 2) && r[16] == ':'
    ensures r[17..19] == Digits(t.ss, 2) && r[19] == NUL
    ensures r[20..] == buffer[20..]
  {
    var b0 := PutField(buffer, 0, 4, Year(t), '/');
    var b1 := PutField(b0, 5, 2, t.m, '/');
    var b2 := PutField(b1, 8, 2, t.d, ' ');
    var b3 := PutField(b2, 11, 2, t.hh, ':');
    var b4 := PutField(b3, 14, 2, t.mm, ':');
    var r := PutField(b4, 17, 2, t.ss, NUL);
    CalcDateFields(b0, b1, b2, b3, b4, r);
    assert r[20..] == b4[20..] == b3[20..] == b2[20..] == b1[20..] == b0[20..] == buffer[20..];
    r
  }

  /** The later fields of `calc_date` leave the earlier ones in place. */
  lemma CalcDateFields(b0: seq<char>, b1: seq<char>, b2: seq<char>, b3: seq<char>, b4: seq<char>, r: seq<char>)
    requires |b0| == |b1| == |b2| == |b3| == |b4| == |r| >= 20
    requires b1[..5] == b0[..5] && b2[..8] == b1[..8] && b3[..11] == b2[..11]
    requires b4[..14] == b3[..14] && r[..17] == b4[..17]
    ensures r[0..5] == b0[0..5]
    ensures r[5..8] == b1[5..8]
    ensures r[8..11] == b2[8..11]
    ensures r[11..14] == b3[11..14]
    ensures r[14..17] == b4[14..17]
  {
    PrefixSlice(r, b4, 17, 0, 14);
    PrefixSlice(b4, b3, 14, 0, 11);
    PrefixSlice(b3, b2, 11, 0, 8);
    PrefixSlice(b2, b1, 8, 0, 5);
    PrefixSlice(r, b4, 17, 14, 17);
    PrefixSlice(r, b4, 17, 11, 14);
    PrefixSlice(b4, b3, 14, 11, 14);
    PrefixSlice(r, b4, 17, 8, 11);
    PrefixSlice(b4, b3, 14, 8, 11);
    PrefixSlice(b3, b2, 11, 8, 11);
    PrefixSlice(r, b4, 17, 5, 8);
    PrefixSlice(b4, b3, 14, 5, 8);
    PrefixSlice(b3, b2, 11, 5, 8);
    PrefixSlice(b2, b1, 8, 5, 8);
    PrefixSlice(r, b4, 17, 0, 5);
    PrefixSlice(b4, b3, 14, 0, 5);
    PrefixSlice(b3, b2, 11, 0, 5);
    PrefixSlice(b2, b1, 8, 0, 5);
    PrefixSlice(b1, b0, 5, 0, 5);
  }

  /** The six numbers of a date, as read back from its text. */
  datatype Fields = Fields(year: int, month: int, day: int, hour: int, minute: int, second: int)

  /** Reads the six numeric fields back from a formatted date. */
  function ParseDate(s: seq<char>): Fields
    requires |s| >= 19
  {
    Fields(DecodeDigits(s[0..4]), DecodeDigits(s[5..7]), DecodeDigits(s[8..10]),
           DecodeDigits(s[11..13]), DecodeDigits(s[14..16]), DecodeDigits(s[17..19]))
  }

  /** Reading a formatted date back gives the year exactly (it is below
      10^4) and every other field modulo 100. */
  lemma CalcDateRoundTrip(t: DateTime, buffer: seq<char>)
    requires |buffer| >= 20
    ensures ParseDate(CalcDate(t, buffer)) ==
      Fields(Year(t), t.m % 100, t.d % 100, t.hh % 100, t.mm % 100, t.ss % 100)
  {
    var r := CalcDate(t, buffer);
    FourDigitField(r[0..4], Year(t));
    TwoDigitField(r[5..7], t.m);
    TwoDigitField(r[8..10], t.d);
    TwoDigitField(r[11..13], t.hh);
    TwoDigitField(r[14..16], t.mm);
    TwoDigitField(r[17..19], t.ss);
  }

  /** A date whose month, day and time fields have at most two digits
      reads back exactly. */
  lemma CalcDateExact(t: DateTime, buffer: seq<char>)
    requires |buffer| >= 20
    requires TwoDigitFields(t)
    ensures ParseDate(CalcDate(t, buffer)) == Fields(Year(t), t.m, t.d, t.hh, t.mm, t.ss)
  {
    CalcDateRoundTrip(t, buffer);
  }

  lemma TwoDigitField(field: seq<char>, v: nat)
    requires field == Digits(v, 2)
    ensures DecodeDigits(field) == v % 100
  {
    DigitsDecode(v, 2);
    assert Pow10(2) == 100 by {
      assert Pow10(1) == 10;
    }
  }

  lemma FourDigitField(field: seq<char>, v: nat)
    requires field == Digits(v, 4)
    ensures DecodeDigits(field) == v % 10000
  {
    DigitsDecode(v, 4);
    assert Pow10(4) == 10000 by {
      assert Pow10(3) == 1000 by {
        assert Pow10(2) == 100 by {
          assert Pow10(1) == 10;
        }
      }
    }
  }

  // ---------------------------------------------------------------------
  // lookup_probe_name

  /** A one-wire `DeviceAddress`: eight bytes. */
  type Address = s: seq<Byte> | |s| == 8 witness [0, 0, 0, 0, 0, 0, 0, 0]

  const NUM_KNOWN_SENSORS: int := 2

  /** The addresses of the known probes, named 'A', 'B', ... in order. */
  const KNOWN_ADRS: seq<Address> := [
    [0x28, 0xFF, 0xF4, 0x4D, 0x56, 0x14, 0x03, 0x13],
    [0x28, 0xFF, 0x6C, 0xB6, 0x55, 0x14, 0x03, 0x9B]]

  /** The name of a probe: 'A' plus the lowest index of a known address
      equal to `adr`, or NUL when none is. The reference definition. */
  function ProbeName(adr: Address, from: nat): (c: char)
    requires from <= |KNOWN_ADRS|
    decreases |KNOWN_ADRS| - from
  {
    if from == |KNOWN_ADRS| then NUL
    else if KNOWN_ADRS[from] == adr then ('A' as int + from) as char
    else ProbeName(adr, from + 1)
  }

  /** `lookup_probe_name(adr)`: for each known address in order, compare
      all eight bytes (a mismatch clears the match flag and goes on with the next
      byte), and answer with the first full match. */
  method LookupProbeName(adr: Address) returns (name: char)
    ensures name == ProbeName(adr, 0)
    ensures name != NUL <==> adr in KNOWN_ADRS
    ensures name != NUL ==>
      var a := name as int - 'A' as int;
      && 0 <= a < NUM_KNOWN_SENSORS
      && KNOWN_ADRS[a] == adr
      && forall a' :: 0 <= a' < a ==> KNOWN_ADRS[a'] != adr
  {
    var a := 0;
    while a < NUM_KNOWN_SENSORS
      invariant 0 <= a <= NUM_KNOWN_SENSORS
      invariant forall a' :: 0 <= a' < a ==> KNOWN_ADRS[a'] != adr
      invariant ProbeName(adr, 0) == ProbeName(adr, a)
    {
      var matched := true;
      var b := 0;
      while b < 8
        invariant 0 <= b <= 8
        invariant matched <==> forall k :: 0 <= k < b ==> adr[k] == KNOWN_ADRS[a][k]
      {
        if adr[b] != KNOWN_ADRS[a][b] {
          matched := false;
          b := b + 1;
          continue;
        }
        b := b + 1;
      }
      if matched {
        assert KNOWN_ADRS[a] == adr;
        return ('A' as int + a) as char;
      }
      a := a + 1;
    }
    return NUL;
  }

  /** Both known probes are found, under different names. */
  lemma KnownProbesNamed()
    ensures ProbeName(KNOWN_ADRS[0], 0) == 'A'
    ensures ProbeName(KNOWN_ADRS[1], 0) == 'B'
  {
    assert KNOWN_ADRS[1] != KNOWN_ADRS[0] by {
      assert KNOWN_ADRS[1][2] != KNOWN_ADRS[0][2];
    }
  }
}
