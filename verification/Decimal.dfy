/** std::to_string and std::stoll. */
module Decimal {
  import opened Options
  import opened Text

  const INT64_MIN: int := -0x8000_0000_0000_0000
  const INT64_MAX: int := 0x7FFF_FFFF_FFFF_FFFF

  type Int64 = n: int | INT64_MIN <= n <= INT64_MAX

  type Int32 = n: int | -0x8000_0000 <= n <= 0x7FFF_FFFF

  /** A conversion to 32 bits keeps the low half. */
  function Wrap32(n: int): Int32 {
    (n + 0x8000_0000) % 0x1_0000_0000 - 0x8000_0000
  }

  predicate IsDigit(c: char) {
    '0' <= c <= '9'
  }

  predicate AllDigits(s: string) {
    forall i :: 0 <= i < |s| ==> IsDigit(s[i])
  }

  function Digits(n: nat): (s: string)
    ensures s != [] && AllDigits(s)
  {
    if n < 10 then ["0123456789"[n]] else Digits(n / 10) + ["0123456789"[n % 10]]
  }

  function ToString(n: int): string {
    if n < 0 then "-" + Digits(-n) else Digits(n)
  }

  function DigitsValue(s: string): nat
    requires AllDigits(s)
  {
    if s == [] then 0
    else 10 * DigitsValue(s[..|s| - 1]) + (s[|s| - 1] as int - '0' as int)
  }

  function DigitPrefix(s: string): (d: string)
    ensures AllDigits(d)
  {
    if s != [] && IsDigit(s[0]) then [s[0]] + DigitPrefix(s[1..]) else []
  }

  function SkipSpaces(s: string): string {
    if s != [] && IsSpace(s[0]) then SkipSpaces(s[1..]) else s
  }

  /** White space, an optional sign, then digits; what follows the digits is ignored. No digit
      at all, or a value outside 64 bits, throws. */
  function Stoll(s: string): Option<Int64> {
    var t := SkipSpaces(s);
    var signed := t != [] && (t[0] == '-' || t[0] == '+');
    var digits := DigitPrefix(if signed then t[1..] else t);
    if digits == [] then None
    else
      var n: int := DigitsValue(digits);
      var v: int := if signed && t[0] == '-' then -n else n;
      if INT64_MIN <= v <= INT64_MAX then Some(v) else None
  }

  lemma {:induction false} DigitsRoundTrip(n: nat)
    ensures DigitsValue(Digits(n)) == n
  {
    if n >= 10 {
      DigitsRoundTrip(n / 10);
      var s := Digits(n);
      assert s[..|s| - 1] == Digits(n / 10);
    }
  }

  lemma PrintShape(n: int)
    ensures n >= 0 ==> AllDigits(ToString(n))
    ensures n < 0 ==> ToString(n)[0] == '-' && AllDigits(ToString(n)[1..])
    ensures ColonFree(ToString(n))
  {
  }

  lemma DigitsInjective(m: nat, n: nat)
    requires Digits(m) == Digits(n)
    ensures m == n
  {
    DigitsRoundTrip(m);
    DigitsRoundTrip(n);
  }

  lemma SameSign(m: int, n: int)
    requires ToString(m) == ToString(n)
    ensures m < 0 <==> n < 0
  {
    PrintShape(m);
    PrintShape(n);
    assert ToString(m)[0] == ToString(n)[0];
  }

  /** Printing is one-to-one. */
  lemma PrintInjective(m: int, n: int)
    requires ToString(m) == ToString(n)
    ensures m == n
  {
    SameSign(m, n);
    if m < 0 {
      assert Digits(-m) == ToString(m)[1..] && Digits(-n) == ToString(n)[1..];
      DigitsInjective(-m, -n);
    } else {
      DigitsInjective(m, n);
    }
  }

  /** Reading back a printed 64-bit number. */
  lemma ParsePrinted(n: Int64)
    ensures Stoll(ToString(n)) == Some(n)
  {
    var v: int := n;
    var m: nat := if v < 0 then -v else v;
    var sign := if v < 0 then "-" else "";
    DigitsRoundTrip(m);
    StollReads("", sign, Digits(m), "");
    assert "" + (sign + (Digits(m) + "")) == ToString(n);
  }

  // ---------- the decimal notation, digit by digit ----------

  function Pow10(k: nat): (p: nat)
    ensures p >= 1
  {
    if k == 0 then 1 else 10 * Pow10(k - 1)
  }

  lemma ScaledOrder(p: nat, a: nat, b: nat)
    requires a <= b
    ensures p * a <= p * b
  {
  }

  lemma QuotientIs(n: nat, p: nat, q: nat, s: nat)
    requires n == p * q + s && s < p
    ensures n / p == q
  {
    var d := n / p;
    assert n == p * d + n % p;
    assert p * (q + 1) == p * q + p && p * (d + 1) == p * d + p;
    if d > q {
      ScaledOrder(p, q + 1, d);
    } else if d < q {
      ScaledOrder(p, d + 1, q);
    }
  }

  lemma DivTwice(n: nat, k: nat)
    ensures n / 10 / Pow10(k) == n / Pow10(k + 1)
  {
    var p := Pow10(k);
    var q, r := n / 10 / p, n / 10 % p;
    assert n / 10 == p * q + r;
    assert n == 10 * (p * q) + 10 * r + n % 10;
    assert 10 * (p * q) == (10 * p) * q;
    QuotientIs(n, 10 * p, q, 10 * r + n % 10);
  }

  /** The k-th character from the right is the digit of weight 10^k. */
  lemma {:induction false} DigitAt(n: nat, k: nat)
    requires k < |Digits(n)|
    ensures Digits(n)[|Digits(n)| - 1 - k] as int == '0' as int + n / Pow10(k) % 10
  {
    if n < 10 {
      assert k == 0 && "0123456789"[n] as int == '0' as int + n;
    } else if k == 0 {
      assert "0123456789"[n % 10] as int == '0' as int + n % 10;
    } else {
      DigitAt(n / 10, k - 1);
      DivTwice(n, k - 1);
    }
  }

  /** There is no leading zero but in "0" itself. */
  lemma {:induction false} NoLeadingZero(n: nat)
    ensures Digits(n)[0] == '0' <==> n == 0
    ensures n < Pow10(|Digits(n)|)
  {
    if n >= 10 {
      NoLeadingZero(n / 10);
      assert Digits(n)[0] == Digits(n / 10)[0];
      assert |Digits(n)| == |Digits(n / 10)| + 1;
    }
  }

  /** So a printed number is a minus sign, if it is negative, and the decimal digits of its magnitude. */
  lemma PrintIsDecimal(n: int)
    ensures var (s, m) := (ToString(n), if n < 0 then -n else n);
      var start := if n < 0 then 1 else 0;
      && |s| > start && (n < 0 ==> s[0] == '-')
      && (s[start] == '0' <==> n == 0) && m < Pow10(|s| - start)
      && forall k :: 0 <= k < |s| - start ==> s[|s| - 1 - k] as int == '0' as int + m / Pow10(k) % 10
  {
    var m := if n < 0 then -n else n;
    NoLeadingZero(m);
    forall k | 0 <= k < |Digits(m)|
      ensures Digits(m)[|Digits(m)| - 1 - k] as int == '0' as int + m / Pow10(k) % 10
    {
      DigitAt(m, k);
    }
  }

  // ---------- what the reader accepts ----------

  lemma {:induction false} SkipsSpaces(spaces: string, t: string)
    requires forall i :: 0 <= i < |spaces| ==> IsSpace(spaces[i])
    requires t != [] && !IsSpace(t[0])
    ensures SkipSpaces(spaces + t) == t
  {
    if spaces == [] {
      assert spaces + t == t;
    } else {
      SkipsSpaces(spaces[1..], t);
      assert (spaces + t)[1..] == spaces[1..] + t;
    }
  }

  lemma {:induction false} DigitPrefixStops(digits: string, rest: string)
    requires AllDigits(digits) && (rest != [] ==> !IsDigit(rest[0]))
    ensures DigitPrefix(digits + rest) == digits
  {
    if digits == [] {
      assert digits + rest == rest;
    } else {
      DigitPrefixStops(digits[1..], rest);
      assert (digits + rest)[1..] == digits[1..] + rest;
      assert digits == [digits[0]] + digits[1..];
    }
  }

  function Signed(sign: string, n: int): int {
    if sign == "-" then -n else n
  }

  lemma StollOfSigned(t: string, sign: string, digits: string, rest: string)
    requires sign in ["", "+", "-"] && t == sign + (digits + rest)
    requires digits != [] && AllDigits(digits) && (rest != [] ==> !IsDigit(rest[0]))
    ensures t != [] && !IsSpace(t[0])
    ensures var signed := t[0] == '-' || t[0] == '+';
      && (signed <==> sign != "") && (t[0] == '-' <==> sign == "-")
      && DigitPrefix(if signed then t[1..] else t) == digits
  {
    DigitPrefixStops(digits, rest);
    if sign == "" {
      assert t == digits + rest && t[0] == digits[0];
    } else if sign == "+" {
      assert t[0] == '+' && t[1..] == digits + rest;
    } else {
      assert sign == "-";
      assert t[0] == '-' && t[1..] == digits + rest;
    }
  }

  /** Spaces and one sign may stand before the digits, zeros among them and any text after them; only a
      value that 64 bits cannot hold is refused. */
  lemma StollReads(spaces: string, sign: string, digits: string, rest: string)
    requires forall i :: 0 <= i < |spaces| ==> IsSpace(spaces[i])
    requires sign in ["", "+", "-"]
    requires digits != [] && AllDigits(digits) && (rest != [] ==> !IsDigit(rest[0]))
    ensures var v := Signed(sign, DigitsValue(digits));
      Stoll(spaces + (sign + (digits + rest))) == if INT64_MIN <= v <= INT64_MAX then Some(v) else None
  {
    var t := sign + (digits + rest);
    StollOfSigned(t, sign, digits, rest);
    SkipsSpaces(spaces, t);
  }

  /** Wrap32 is the only 32-bit number that differs by a multiple of 2^32. */
  lemma Wrap32IsModular(n: int, m: Int32)
    ensures m == Wrap32(n) <==> (n - m) % 0x1_0000_0000 == 0
  {
  }
}
