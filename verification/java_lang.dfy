/** The parts of `java.lang` the listener relies on: the narrowing done by
    `Number.intValue()` / `Number.longValue()` on integral numbers, the decimal
    parsers `Integer.parseInt` / `Long.parseLong`, and the decimal rendering
    `Long.toString` used by `String.valueOf` on a number. */
module JavaLang {
  import opened Wrappers

  const TWO_32: int := 0x1_0000_0000
  const TWO_64: int := 0x1_0000_0000_0000_0000
  const INT_MIN: int := -0x8000_0000
  const INT_MAX: int := 0x7fff_ffff
  const LONG_MIN: int := -0x8000_0000_0000_0000
  const LONG_MAX: int := 0x7fff_ffff_ffff_ffff

  /** Java `int` and `long`. */
  type Int32 = x: int | INT_MIN <= x <= INT_MAX
  type Int64 = x: int | LONG_MIN <= x <= LONG_MAX

  lemma ProductBounds(a: int, m: int)
    requires m > 0
    ensures a >= 1 ==> a * m >= m
    ensures a <= -1 ==> a * m <= -m
  {
  }

  lemma MultipleHasNoRemainder(q: int, m: int)
    requires m > 0
    ensures (q * m) % m == 0
  {
    var d := (q * m) / m;
    var r := (q * m) % m;
    assert q * m == d * m + r;
    assert (q - d) * m == r;
    ProductBounds(q - d, m);
  }

  /** Two's-complement narrowing of an integer to `width` bits, as Java's
      primitive narrowing and `BigInteger.intValue/longValue` do: the low
      `width` bits are kept and read back as a signed value. */
  function Narrow(n: int, modulus: int): (r: int)
    requires modulus >= 2 && modulus % 2 == 0
    ensures -modulus / 2 <= r < modulus / 2
    ensures (-modulus / 2 <= n < modulus / 2) <==> r == n
    ensures (n - r) % modulus == 0
  {
    NarrowFacts(n, modulus);
    (n + modulus / 2) % modulus - modulus / 2
  }

  lemma NarrowFacts(n: int, modulus: int)
    requires modulus >= 2 && modulus % 2 == 0
    ensures var r := (n + modulus / 2) % modulus - modulus / 2;
      && -modulus / 2 <= r < modulus / 2
      && ((-modulus / 2 <= n < modulus / 2) <==> r == n)
      && (n - r) % modulus == 0
  {
    var h := modulus / 2;
    assert modulus == 2 * h;
    var x := n + h;
    var q := x / modulus;
    var low := x % modulus;
    assert x == q * modulus + low && 0 <= low < modulus;
    ProductBounds(q, modulus);
    assert -h <= n < h ==> q == 0;
    assert n - (low - h) == q * modulus;
    MultipleHasNoRemainder(q, modulus);
  }

  /** `Number.intValue()` of an integral number (Integer, Long, BigInteger). */
  function IntValue(n: int): (r: Int32)
    ensures INT_MIN <= n <= INT_MAX <==> r == n
    ensures (n - r) % TWO_32 == 0
  {
    Narrow(n, TWO_32)
  }

  /** `Number.longValue()` of an integral number (Integer, Long, BigInteger). */
  function LongValue(n: int): (r: Int64)
    ensures LONG_MIN <= n <= LONG_MAX <==> r == n
    ensures (n - r) % TWO_64 == 0
  {
    Narrow(n, TWO_64)
  }

  // ----- decimal syntax -----

  predicate IsDigit(c: char) {
    '0' <= c <= '9'
  }

  predicate AllDigits(s: string) {
    forall i :: 0 <= i < |s| ==> IsDigit(s[i])
  }

  function DigitValue(c: char): nat
    requires IsDigit(c)
  {
    c as int - '0' as int
  }

  function DigitChar(d: nat): char
    requires d < 10
  {
    ('0' as int + d) as char
  }

  /** The value of a run of decimal digits, read most significant first. */
  function Decimal(ds: string): nat
    requires AllDigits(ds)
  {
    if ds == [] then 0 else Decimal(ds[..|ds| - 1]) * 10 + DigitValue(ds[|ds| - 1])
  }

  /** The language both `Integer.parseInt` and `Long.parseLong` accept before
      their range check: an optional `+` or `-` followed by one or more digits. */
  function SignedDecimal(s: string): Option<int> {
    if |s| > 0 && (s[0] == '-' || s[0] == '+') then
      if |s| > 1 && AllDigits(s[1..]) then
        Some(if s[0] == '-' then 0 - Decimal(s[1..]) else Decimal(s[1..]))
      else None
    else if |s| > 0 && AllDigits(s) then Some(Decimal(s))
    else None
  }

  /** A signed decimal whose value lies in `[lo, hi]`, or nothing. */
  function ParseInRange(s: string, lo: int, hi: int): (r: Option<int>)
    ensures r.Some? ==> lo <= r.value <= hi
  {
    match SignedDecimal(s)
    case Some(v) => if lo <= v <= hi then Some(v) else None
    case None => None
  }

  /** `Integer.parseInt(s)`; `None` stands for `NumberFormatException`. */
  function ParseInt(s: string): (r: Option<int>)
    ensures r.Some? ==> INT_MIN <= r.value <= INT_MAX
  {
    ParseInRange(s, INT_MIN, INT_MAX)
  }

  /** `Long.parseLong(s)`; `None` stands for `NumberFormatException`. */
  function ParseLong(s: string): (r: Option<int>)
    ensures r.Some? ==> LONG_MIN <= r.value <= LONG_MAX
  {
    ParseInRange(s, LONG_MIN, LONG_MAX)
  }

  /** Java's `/` on integers: the quotient truncated toward zero. */
  function JavaDiv(a: int, b: int): int
    requires b > 0
  {
    if a >= 0 then a / b else -((-a) / b)
  }

  /** `Character.digit(c, 10)` restricted to ASCII: the digit's value, or -1. */
  function JavaDigit(c: char): (d: int)
    ensures d >= 0 <==> IsDigit(c)
    ensures d >= 0 ==> d == DigitValue(c)
  {
    if IsDigit(c) then c as int - '0' as int else -1
  }

  lemma {:induction false} DecimalOfPrefix(ds: string, j: nat)
    requires AllDigits(ds) && j <= |ds|
    ensures AllDigits(ds[..j])
    ensures Decimal(ds[..j]) <= Decimal(ds)
    decreases |ds| - j
  {
    if j < |ds| {
      var init := ds[..|ds| - 1];
      assert init[..j] == ds[..j];
      DecimalOfPrefix(init, j);
    } else {
      assert ds[..j] == ds;
    }
  }

  lemma DecimalSnoc(p: string, c: char)
    requires AllDigits(p) && IsDigit(c)
    ensures AllDigits(p + [c])
    ensures Decimal(p + [c]) == Decimal(p) * 10 + DigitValue(c)
  {
    assert (p + [c])[..|p|] == p;
  }

  /** A digit run whose prefix already exceeds a bound exceeds it too. */
  lemma OverflowPersists(s: string, start: nat, i: nat, bound: int)
    requires start <= i <= |s|
    requires AllDigits(s[start..i]) && Decimal(s[start..i]) > bound
    requires AllDigits(s[start..])
    ensures Decimal(s[start..]) > bound
  {
    assert s[start..][..i - start] == s[start..i];
    DecimalOfPrefix(s[start..], i - start);
  }

  /** The algorithm of `Integer.parseInt` / `Long.parseLong` (radix 10) over a
      type whose largest value is `max` and smallest `-max - 1`: the magnitude is
      accumulated as a negative number, and overflow is caught before each
      multiply (`result < multmin`) and before each subtract
      (`result < limit + digit`), so no intermediate value leaves the range. */
  method ParseSigned(s: string, max: int) returns (r: Option<int>)
    requires max >= 10
    ensures r == ParseInRange(s, -max - 1, max)
  {
    if |s| == 0 {
      return None;
    }
    var negative := false;
    var limit := -max;
    var i := 0;
    var first := s[0];
    if first < '0' {
      if first == '-' {
        negative := true;
        limit := -max - 1;
      } else if first != '+' {
        assert !IsDigit(s[0]);
        return None;
      }
      if |s| == 1 {
        return None;
      }
      i := 1;
    }
    var start := i;
    assert start == 0 ==> s[0] != '-' && s[0] != '+';
    assert start == 1 ==> s[1..] == s[start..];
    var multmin := JavaDiv(limit, 10);
    var result := 0;
    while i < |s|
      invariant start <= i <= |s|
      invariant AllDigits(s[start..i])
      invariant result == 0 - Decimal(s[start..i])
      invariant limit <= result <= 0
    {
      var digit := JavaDigit(s[i]);
      if digit < 0 {
        assert !AllDigits(s[start..]) by {
          assert s[start..][i - start] == s[i];
        }
        return None;
      }
      DecimalSnoc(s[start..i], s[i]);
      assert s[start..i + 1] == s[start..i] + [s[i]];
      if result < multmin {
        assert 0 - Decimal(s[start..i + 1]) < limit;
        if AllDigits(s[start..]) {
          OverflowPersists(s, start, i + 1, -limit);
        }
        return None;
      }
      result := result * 10;
      if result < limit + digit {
        if AllDigits(s[start..]) {
          OverflowPersists(s, start, i + 1, -limit);
        }
        return None;
      }
      result := result - digit;
      i := i + 1;
    }
    assert s[start..i] == s[start..];
    r := Some(if negative then result else -result);
  }

  /** `Integer.parseInt` by Java's algorithm agrees with its specification. */
  method ParseIntJava(s: string) returns (r: Option<int>)
    ensures r == ParseInt(s)
  {
    r := ParseSigned(s, INT_MAX);
  }

  /** `Long.parseLong` by Java's algorithm agrees with its specification. */
  method ParseLongJava(s: string) returns (r: Option<int>)
    ensures r == ParseLong(s)
  {
    r := ParseSigned(s, LONG_MAX);
  }

  // ----- decimal rendering -----

  function NatToString(n: nat): string
  {
    if n < 10 then [DigitChar(n)] else NatToString(n / 10) + [DigitChar(n % 10)]
  }

  /** `Long.toString(n)` (and `Integer.toString`, `BigInteger.toString`): an
      optional minus sign and the digits of the magnitude, no leading zeros. */
  function IntToString(n: int): (r: string)
    ensures SignedDecimal(r) == Some(n)
    ensures |r| >= 1 && r[0] != '+'
    ensures (r[0] == '-') <==> n < 0
    ensures var m := if n < 0 then r[1..] else r; |m| == 1 || m[0] != '0'
  {
    if n < 0 then
      NatToStringDigits(-n);
      var s := "-" + NatToString(-n);
      assert s[1..] == NatToString(-n);
      s
    else
      NatToStringDigits(n);
      NatToString(n)
  }

  function Pow10(k: nat): (p: nat)
    ensures p >= 1
  {
    if k == 0 then 1 else 10 * Pow10(k - 1)
  }

  lemma {:induction false} NatToStringDigits(n: nat)
    ensures |NatToString(n)| >= 1
    ensures AllDigits(NatToString(n))
    ensures Decimal(NatToString(n)) == n
    ensures NatToString(n)[0] != '-' && NatToString(n)[0] != '+'
    ensures n >= 10 ==> NatToString(n)[0] != '0'
    decreases n
  {
    if n >= 10 {
      NatToStringDigits(n / 10);
      if n / 10 < 10 {
        assert NatToString(n / 10) == [DigitChar(n / 10)];
      }
      DecimalSnoc(NatToString(n / 10), DigitChar(n % 10));
    }
  }

  /** The rendering of `n` has at most `k` characters exactly when `n < 10^k`. */
  lemma {:induction false} NatToStringLength(n: nat, k: nat)
    requires k >= 1
    ensures |NatToString(n)| <= k <==> n < Pow10(k)
    decreases n
  {
    if n >= 10 {
      if k == 1 {
        NatToStringDigits(n / 10);
      } else {
        NatToStringLength(n / 10, k - 1);
        assert n / 10 < Pow10(k - 1) <==> n < Pow10(k);
      }
    }
  }

  /** `Long.parseLong(Long.toString(n)) == n` for every `long`. */
  lemma ParseLongOfToString(n: Int64)
    ensures ParseLong(IntToString(n)) == Some(n)
  {
  }

  /** `Integer.parseInt(Integer.toString(n)) == n` for every `int`. */
  lemma ParseIntOfToString(n: Int32)
    ensures ParseInt(IntToString(n)) == Some(n)
  {
  }

  /** Everything `parseInt`/`parseLong` accept is made of signs and digits only. */
  lemma SignedDecimalHasOnlyDigits(s: string, c: char)
    requires SignedDecimal(s).Some?
    requires c !in "+-" && !IsDigit(c)
    ensures c !in s
  {
    forall i | 0 <= i < |s|
      ensures s[i] != c
    {
      if i > 0 && (s[0] == '-' || s[0] == '+') {
        assert s[1..][i - 1] == s[i];
      }
    }
  }
}
