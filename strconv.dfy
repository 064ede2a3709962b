/** Go's strconv.Atoi for a 64-bit `int`, the conversion scanArgs applies to --StopTimeout. */
module Strconv {

  const MaxInt: int := 0x7FFF_FFFF_FFFF_FFFF
  const MinInt: int := -0x8000_0000_0000_0000

  predicate IsDigit(c: char) {
    '0' <= c <= '9'
  }

  predicate AllDigits(s: string) {
    forall k :: 0 <= k < |s| ==> IsDigit(s[k])
  }

  function DigitValue(c: char): (d: nat)
    requires IsDigit(c)
    ensures d < 10
  {
    (c as int) - ('0' as int)
  }

  /** The value of a string of decimal digits, most significant first. */
  function Decimal(s: string): nat
    requires AllDigits(s)
    decreases |s|
  {
    if s == [] then 0 else Decimal(s[..|s| - 1]) * 10 + DigitValue(s[|s| - 1])
  }

  /** The text after an optional leading `+` or `-`. */
  function Unsigned(s: string): string {
    if s != [] && (s[0] == '+' || s[0] == '-') then s[1..] else s
  }

  /** An optional sign followed by at least one decimal digit. */
  predicate IsNumeral(s: string) {
    Unsigned(s) != [] && AllDigits(Unsigned(s))
  }

  /** The mathematical value of a numeral, before any range check. */
  function NumeralValue(s: string): int
    requires IsNumeral(s)
  {
    var d: int := Decimal(Unsigned(s));
    if s[0] == '-' then -d else d
  }

  /** Go returns a value together with an error; `ok` stands for a nil error. */
  datatype Parsed = Parsed(value: int, ok: bool)

  /** The largest value of a uint64, the bound ParseUint checks its digits against. */
  const MaxUint: int := 0xFFFF_FFFF_FFFF_FFFF

  /** The longest run of decimal digits at the start of s. */
  function DigitPrefix(s: string): (p: string)
    ensures |p| <= |s| && p == s[..|p|] && AllDigits(p)
    ensures |p| < |s| ==> !IsDigit(s[|p|])
  {
    if s == [] || !IsDigit(s[0]) then []
    else
      var rest := DigitPrefix(s[1..]);
      assert [s[0]] + rest == s[..|rest| + 1];
      [s[0]] + rest
  }

  /** A string of digits is its own digit prefix. */
  lemma DigitPrefixWhole(s: string)
    ensures AllDigits(s) <==> DigitPrefix(s) == s
  {
  }

  /** The bound of the 64-bit range on the side of the sign. */
  function Bound(s: string): int {
    if s != [] && s[0] == '-' then MinInt else MaxInt
  }

  /**
   * strconv.Atoi, through ParseInt and ParseUint: after an optional sign the
   * characters are read left to right. A non-digit is a syntax error and
   * gives (0, error), unless the digits before it already exceed the uint64
   * range: then reading stops there with a range error and the bound of the
   * sign's side. A numeral outside the 64-bit range also yields that bound
   * and an error. (Atoi's shortcut for strings under 19 bytes cannot
   * overflow and gives the same results.)
   */
  function Atoi(s: string): (r: Parsed)
    ensures r.ok <==> IsNumeral(s) && MinInt <= NumeralValue(s) <= MaxInt
    ensures r.ok ==> r.value == NumeralValue(s)
    ensures IsNumeral(s) && !(MinInt <= NumeralValue(s) <= MaxInt) ==> r == Parsed(Bound(s), false)
    ensures !IsNumeral(s) && Decimal(DigitPrefix(Unsigned(s))) <= MaxUint ==> r == Parsed(0, false)
    ensures Decimal(DigitPrefix(Unsigned(s))) > MaxUint ==> r == Parsed(Bound(s), false)
    ensures MinInt <= r.value <= MaxInt
  {
    var u := Unsigned(s);
    var p := DigitPrefix(u);
    if u == [] then Parsed(0, false)
    else if Decimal(p) > MaxUint then
      DigitPrefixWhole(u);
      Parsed(Bound(s), false)
    else if p != u then Parsed(0, false)
    else
      var n := NumeralValue(s);
      if n > MaxInt then Parsed(MaxInt, false)
      else if n < MinInt then Parsed(MinInt, false)
      else Parsed(n, true)
  }

  function DigitChar(d: nat): (c: char)
    requires d < 10
    ensures IsDigit(c) && DigitValue(c) == d
  {
    (('0' as int) + d) as char
  }

  /** The decimal rendering of a natural number (strconv.Itoa on n >= 0). */
  function FormatNat(n: nat): (s: string)
    ensures s != [] && AllDigits(s)
    decreases n
  {
    if n < 10 then [DigitChar(n)] else FormatNat(n / 10) + [DigitChar(n % 10)]
  }

  /** strconv.Itoa */
  function Itoa(n: int): string {
    if n < 0 then "-" + FormatNat(-n) else FormatNat(n)
  }

  lemma {:induction false} DecimalOfFormat(n: nat)
    ensures Decimal(FormatNat(n)) == n
    decreases n
  {
    if n >= 10 {
      DecimalOfFormat(n / 10);
      var s := FormatNat(n);
      assert s[..|s| - 1] == FormatNat(n / 10);
    }
  }

  /** Reading back a rendered 64-bit integer gives the integer and no error. */
  lemma AtoiItoa(n: int)
    requires MinInt <= n <= MaxInt
    ensures Atoi(Itoa(n)) == Parsed(n, true)
  {
    if n < 0 {
      var digits := FormatNat(-n);
      assert Unsigned("-" + digits) == digits by {
        assert ("-" + digits)[1..] == digits;
      }
      DecimalOfFormat(-n);
      assert NumeralValue("-" + digits) == n;
    } else {
      var digits := FormatNat(n);
      assert Unsigned(digits) == digits by {
        assert IsDigit(digits[0]);
      }
      DecimalOfFormat(n);
      assert NumeralValue(digits) == n;
    }
  }

  function Pow10(k: nat): nat {
    if k == 0 then 1 else 10 * Pow10(k - 1)
  }

  /** k nines, the largest numeral of k digits. */
  function Nines(k: nat): (s: string)
    ensures |s| == k && AllDigits(s)
  {
    seq(k, _ => '9')
  }

  lemma {:induction false} DecimalNines(k: nat)
    ensures Decimal(Nines(k)) == Pow10(k) - 1
  {
    if k > 0 {
      assert Nines(k)[..k - 1] == Nines(k - 1);
      DecimalNines(k - 1);
    }
  }

  /** The digit prefix of digits followed by a non-digit is those digits. */
  lemma DigitPrefixBefore(d: string, c: char, rest: string)
    requires AllDigits(d) && !IsDigit(c)
    ensures DigitPrefix(d + [c] + rest) == d
  {
    var s := d + [c] + rest;
    var p := DigitPrefix(s);
    assert s[..|d|] == d && s[|d|] == c;
    assert p == s[..|d|];
  }

  /**
   * Twenty nines overflow the uint64 range before the 'x' after them is
   * read, so Atoi reports a range error with the largest int, whatever
   * follows, and not a syntax error with 0.
   */
  lemma AtoiOverflowBeforeJunk(rest: string)
    ensures Atoi(Nines(20) + "x" + rest) == Parsed(MaxInt, false)
  {
    var s := Nines(20) + "x" + rest;
    DigitPrefixBefore(Nines(20), 'x', rest);
    DecimalNines(20);
    assert Pow10(20) > MaxUint + 1 by {
      assert Pow10(4) == 10000;
      assert Pow10(8) == 100000000 by { PowSplit(4, 4); }
      assert Pow10(16) == 10000000000000000 by { PowSplit(8, 8); }
      PowSplit(16, 4);
    }
    assert s[0] == '9';
    assert Unsigned(s) == s;
  }

  lemma {:induction false} PowSplit(a: nat, b: nat)
    ensures Pow10(a + b) == Pow10(a) * Pow10(b)
    decreases b
  {
    if b > 0 {
      PowSplit(a, b - 1);
      assert Pow10(a + b) == 10 * Pow10(a + b - 1);
    }
  }
}
