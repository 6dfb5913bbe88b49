/**
 * Reading and displaying rupiah amounts in the amount inputs.
 * `parseIDR(s)` is `parseInt(s.replace(/\D/g, ''), 10) || 0`: drop every
 * character that is not an ASCII decimal digit, read the rest in base 10,
 * and fall back to 0 when nothing is left (parseInt gives NaN).
 * The locale formatter (`Intl.NumberFormat('id-ID', …)`) is not modelled; it
 * is a parameter `fmt`.
 */
module Currency {
  import opened Wrappers

  predicate IsDigit(c: char) {
    '0' <= c <= '9'
  }

  predicate AllDigits(s: string) {
    forall i :: 0 <= i < |s| ==> IsDigit(s[i])
  }

  function DigitValue(c: char): (v: nat)
    requires IsDigit(c)
    ensures v < 10
  {
    (c as int) - ('0' as int)
  }

  function DigitChar(v: nat): (c: char)
    requires v < 10
    ensures IsDigit(c) && DigitValue(c) == v
  {
    (('0' as int) + v) as char
  }

  /** `s.replace(/\D/g, '')`: the decimal digits of `s`, in order. */
  function DigitsOf(s: string): (r: string)
    ensures AllDigits(r)
    ensures |r| <= |s|
    ensures AllDigits(s) ==> r == s
    ensures (forall i :: 0 <= i < |s| ==> !IsDigit(s[i])) ==> r == []
  {
    if s == [] then []
    else
      assert s == [s[0]] + s[1..];
      (if IsDigit(s[0]) then [s[0]] else []) + DigitsOf(s[1..])
  }

  /** Base-10 value of a digit string, read left to right (Horner's rule). */
  function DecimalValue(d: string): nat
    requires AllDigits(d)
  {
    if d == [] then 0 else DecimalValue(d[..|d| - 1]) * 10 + DigitValue(d[|d| - 1])
  }

  /** `parseInt(d, 10)` on a string of digits only: NaN (here None) exactly when `d` is empty. */
  function ParseInt10(d: string): (r: Option<nat>)
    requires AllDigits(d)
    ensures r.None? <==> d == []
  {
    if d == [] then None else Some(DecimalValue(d))
  }

  /** `parseIDR`; `x || 0` turns NaN into 0 (and leaves every number, 0 included, as it reads). */
  function ParseIDR(s: string): (r: int)
    ensures r >= 0
    ensures (forall i :: 0 <= i < |s| ==> !IsDigit(s[i])) ==> r == 0
  {
    match ParseInt10(DigitsOf(s))
    case None => 0
    case Some(n) => n
  }

  /** What an amount input holds: a number, or the text typed into it. */
  datatype AmountValue = Number(n: int) | Text(s: string)

  /** `formatIDR(value)`: a string is first read with the same digit-strip parse as `parseIDR`. */
  function FormatIDR(fmt: int -> string, value: AmountValue): (r: string)
    ensures value.Number? ==> r == fmt(value.n)
    ensures value.Text? ==> r == fmt(Positional(DigitsOf(value.s)))
    ensures value.Text? && (forall i :: 0 <= i < |value.s| ==> !IsDigit(value.s[i])) ==> r == fmt(0)
  {
    match value
    case Number(n) => fmt(n)
    case Text(s) =>
      ParseIDRReadsDigits(s);
      fmt(ParseIDR(s))
  }

  // ---------------------------------------------------------------------------
  // Reference definitions

  function Pow10(k: nat): (p: nat)
    ensures p >= 1
  {
    if k == 0 then 1 else 10 * Pow10(k - 1)
  }

  /** Positional reading of a digit string: the sum of digit * 10^place. */
  function Positional(d: string): nat
    requires AllDigits(d)
  {
    if d == [] then 0 else DigitValue(d[0]) * Pow10(|d| - 1) + Positional(d[1..])
  }

  /** The canonical decimal numeral of `n` (no leading zeros; "0" for 0). */
  function Decimal(n: nat): (r: string)
    ensures AllDigits(r) && r != []
  {
    if n < 10 then [DigitChar(n)] else Decimal(n / 10) + [DigitChar(n % 10)]
  }

  /** The formatter writes the digits of the amount and no others (grouping dots and "Rp" are not digits). */
  ghost predicate KeepsDigits(fmt: int -> string) {
    forall n: nat :: DigitsOf(fmt(n)) == Decimal(n)
  }

  // ---------------------------------------------------------------------------
  // Lemmas

  lemma {:induction false} PositionalSnoc(d: string, c: char)
    requires AllDigits(d) && IsDigit(c)
    ensures AllDigits(d + [c])
    ensures Positional(d + [c]) == Positional(d) * 10 + DigitValue(c)
    decreases |d|
  {
    if d != [] {
      var rest := d[1..];
      var e := d + [c];
      assert e[0] == d[0] && e[1..] == rest + [c];
      PositionalSnoc(rest, c);
      var x, p := DigitValue(d[0]), Pow10(|rest|);
      assert Positional(e) == x * (10 * p) + Positional(rest + [c]);
      assert Positional(d) == x * p + Positional(rest);
      ShiftLeading(x, p, Positional(rest), DigitValue(c));
    }
  }

  /** The arithmetic step of `PositionalSnoc`: a leading digit's weight grows tenfold with the rest. */
  lemma ShiftLeading(x: int, p: int, q: int, y: int)
    ensures x * (10 * p) + (q * 10 + y) == (x * p + q) * 10 + y
  {
  }

  /** Reading left to right by Horner's rule agrees with the positional value. */
  lemma {:induction false} DecimalValueIsPositional(d: string)
    requires AllDigits(d)
    ensures DecimalValue(d) == Positional(d)
    decreases |d|
  {
    if d != [] {
      var init := d[..|d| - 1];
      DecimalValueIsPositional(init);
      assert d == init + [d[|d| - 1]];
      PositionalSnoc(init, d[|d| - 1]);
    }
  }

  /** Reading the canonical numeral of `n` gives `n` back. */
  lemma {:induction false} DecimalRoundTrip(n: nat)
    ensures DecimalValue(Decimal(n)) == n
  {
    if n >= 10 {
      DecimalRoundTrip(n / 10);
      var d := Decimal(n);
      assert d[..|d| - 1] == Decimal(n / 10);
    }
  }

  lemma {:induction false} DigitsOfConcat(a: string, b: string)
    ensures DigitsOf(a + b) == DigitsOf(a) + DigitsOf(b)
    decreases |a|
  {
    if a != [] {
      var ab := a + b;
      assert ab[0] == a[0] && ab[1..] == a[1..] + b;
      DigitsOfConcat(a[1..], b);
      var h := if IsDigit(a[0]) then [a[0]] else [];
      assert DigitsOf(ab) == h + DigitsOf(a[1..] + b);
      assert DigitsOf(a) == h + DigitsOf(a[1..]);
    } else {
      assert a + b == b;
    }
  }

  /** `parseIDR` reads exactly the digits of its input, in order, as a base-10 number. */
  lemma ParseIDRReadsDigits(s: string)
    ensures ParseIDR(s) == Positional(DigitsOf(s))
  {
    DecimalValueIsPositional(DigitsOf(s));
  }

  /** Inserting a non-digit anywhere (a grouping dot, a space, a minus sign) does not change the amount. */
  lemma ParseIDRIgnoresNonDigit(a: string, c: char, b: string)
    requires !IsDigit(c)
    ensures ParseIDR(a + [c] + b) == ParseIDR(a + b)
  {
    DigitsOfConcat(a + [c], b);
    DigitsOfConcat(a, [c]);
    DigitsOfConcat(a, b);
    assert DigitsOf([c]) == [] by { assert [c][1..] == []; }
    assert DigitsOf(a + [c] + b) == DigitsOf(a + b);
  }

  /** Typing one more digit at the end multiplies the amount by ten and adds that digit. */
  lemma ParseIDRAppendDigit(s: string, c: char)
    requires IsDigit(c)
    ensures ParseIDR(s + [c]) == ParseIDR(s) * 10 + DigitValue(c)
  {
    DigitsOfConcat(s, [c]);
    assert DigitsOf([c]) == [c] by { assert [c][1..] == []; }
    var d := DigitsOf(s) + [c];
    assert DigitsOf(s + [c]) == d;
    assert d[..|d| - 1] == DigitsOf(s);
    assert DecimalValue(d) == DecimalValue(DigitsOf(s)) * 10 + DigitValue(c);
  }

  /** A string whose digits spell the numeral of `n` reads as `n`. */
  lemma ParseIDRReadsNumeral(s: string, n: nat)
    requires DigitsOf(s) == Decimal(n)
    ensures ParseIDR(s) == n
  {
    DecimalRoundTrip(n);
  }

  /** The string branch of `formatIDR` is the number branch applied to `parseIDR`. */
  lemma FormatIDRTextIsParsed(fmt: int -> string, s: string)
    ensures FormatIDR(fmt, Text(s)) == FormatIDR(fmt, Number(ParseIDR(s)))
  {
  }

  /**
   * The amount input shows `formatIDR(n)` and reads it back with `parseIDR`;
   * for a non-negative amount the re-read value is `n` and redisplaying the
   * text shows the same string.
   */
  lemma DisplayRoundTrip(fmt: int -> string, n: nat)
    requires KeepsDigits(fmt)
    ensures ParseIDR(FormatIDR(fmt, Number(n))) == n
    ensures FormatIDR(fmt, Text(FormatIDR(fmt, Number(n)))) == FormatIDR(fmt, Number(n))
  {
    assert DigitsOf(fmt(n)) == Decimal(n);
    ParseIDRReadsNumeral(fmt(n), n);
  }
}
