/**
 * Python's `float(token)` on the tokens the frame handler reads, restricted to signed
 * decimal literals: an optional `+` or `-`, then digits with at most one `.`, and at
 * least one digit in all. Values are exact reals; anything else is a `ValueError`,
 * modelled as `None`.
 */
module Numbers {
  import opened Wrappers

  predicate IsDigit(c: char) {
    '0' <= c <= '9'
  }

  predicate AllDigits(s: string) {
    forall i :: 0 <= i < |s| ==> IsDigit(s[i])
  }

  /** A character that may occur in a literal the parser accepts. */
  predicate IsNumeralChar(c: char) {
    IsDigit(c) || c == '.' || c == '+' || c == '-'
  }

  function DigitValue(c: char): (d: nat)
    requires IsDigit(c)
    ensures d < 10
  {
    (c as int - '0' as int) as nat
  }

  /** The natural number a string of decimal digits denotes, most significant digit first. */
  function DigitsValue(ds: string): nat
    requires AllDigits(ds)
  {
    if ds == [] then 0 else 10 * DigitsValue(ds[..|ds| - 1]) + DigitValue(ds[|ds| - 1])
  }

  function Pow10(n: nat): (r: nat)
    ensures r >= 1
  {
    if n == 0 then 1 else 10 * Pow10(n - 1)
  }

  /** Index of the first `c` in `s`, or `|s|` when there is none. */
  function IndexOf(s: string, c: char): (k: nat)
    ensures k <= |s|
    ensures forall i :: 0 <= i < k ==> s[i] != c
    ensures k < |s| ==> s[k] == c
  {
    if s == [] || s[0] == c then 0 else 1 + IndexOf(s[1..], c)
  }

  /** The value of a literal with whole part `w` and `n` fraction digits denoting `f`. */
  function Decimal(w: nat, f: nat, n: nat): (v: real)
    ensures v >= 0.0
    ensures f == 0 ==> v == w as real
  {
    w as real + f as real / Pow10(n) as real
  }

  /** An unsigned literal `digits[.digits]`, at least one digit in all. */
  function ParseUnsigned(s: string): (r: Option<real>)
    ensures r.Some? ==> r.value >= 0.0
    ensures r.Some? ==> exists i :: 0 <= i < |s| && IsDigit(s[i])
    ensures r.Some? ==> forall i :: 0 <= i < |s| ==> IsDigit(s[i]) || s[i] == '.'
  {
    var dot := IndexOf(s, '.');
    var whole := s[..dot];
    var frac := if dot < |s| then s[dot + 1..] else [];
    if AllDigits(whole) && AllDigits(frac) && |whole| + |frac| > 0 then
      assert if whole != [] then IsDigit(s[0]) else IsDigit(s[dot + 1]);
      assert forall i :: dot < i < |s| ==> s[i] == frac[i - dot - 1];
      Some(Decimal(DigitsValue(whole), DigitsValue(frac), |frac|))
    else
      None
  }

  /** Python `float(s)` on a signed decimal literal; `None` stands for `ValueError`. */
  function ParseNum(s: string): (r: Option<real>)
    ensures r.Some? ==> exists i :: 0 <= i < |s| && IsDigit(s[i])
    ensures r.Some? ==> forall i :: 0 <= i < |s| ==> IsNumeralChar(s[i])
    ensures r.Some? && s[0] == '-' ==> r.value <= 0.0
    ensures r.Some? && s[0] != '-' ==> r.value >= 0.0
  {
    if s != [] && (s[0] == '+' || s[0] == '-') then
      match ParseUnsigned(s[1..])
      case None => None
      case Some(v) =>
        assert forall i :: 1 <= i < |s| ==> s[i] == s[1..][i - 1];
        Some(if s[0] == '-' then -v else v)
    else
      ParseUnsigned(s)
  }

  function DigitChar(d: nat): (c: char)
    requires d < 10
    ensures IsDigit(c) && DigitValue(c) == d
  {
    ('0' as int + d) as char
  }

  /** Python `str(n)` for a natural number: its decimal digits without leading zeros. */
  function ShowNat(n: nat): (s: string)
    ensures s != [] && AllDigits(s)
  {
    if n < 10 then [DigitChar(n)] else ShowNat(n / 10) + [DigitChar(n % 10)]
  }

  /** Python `str(i)` for an integer. */
  function ShowInt(i: int): string {
    if i < 0 then "-" + ShowNat(-i) else ShowNat(i)
  }

  lemma {:induction false} DigitsValueShowNat(n: nat)
    ensures DigitsValue(ShowNat(n)) == n
  {
    if n >= 10 {
      var s := ShowNat(n);
      assert s[..|s| - 1] == ShowNat(n / 10);
      DigitsValueShowNat(n / 10);
    }
  }

  /**
   * The strings `float` accepts without a sign here: digits and `.` only, at most one `.`,
   * and at least one digit.
   */
  predicate IsUnsignedLiteral(s: string) {
    && (forall i :: 0 <= i < |s| ==> IsDigit(s[i]) || s[i] == '.')
    && (forall i, j :: 0 <= i < j < |s| && s[i] == '.' ==> s[j] != '.')
    && (exists i :: 0 <= i < |s| && IsDigit(s[i]))
  }

  /** Appending digits shifts the value left by their count and adds theirs. */
  lemma ShiftDigit(x: int, p: int, y: int, d: int)
    ensures 10 * (x * p + y) + d == x * (10 * p) + (10 * y + d)
  {
  }

  lemma ScaleDown(a: nat, b: nat, n: nat)
    ensures Decimal(a, b, n) == (a * Pow10(n) + b) as real / Pow10(n) as real
  {
    var p := Pow10(n);
    assert (a * p + b) as real == a as real * p as real + b as real;
  }

  lemma {:induction false} DigitsValueAppend(w: string, f: string)
    requires AllDigits(w) && AllDigits(f)
    ensures DigitsValue(w + f) == DigitsValue(w) * Pow10(|f|) + DigitsValue(f)
  {
    if f == [] {
      assert w + f == w;
    } else {
      var g := f[..|f| - 1];
      var d := DigitValue(f[|f| - 1]);
      assert (w + f)[..|w + f| - 1] == w + g;
      assert (w + f)[|w + f| - 1] == f[|f| - 1];
      assert DigitsValue(w + f) == 10 * DigitsValue(w + g) + d;
      assert DigitsValue(f) == 10 * DigitsValue(g) + d;
      DigitsValueAppend(w, g);
      var x, p := DigitsValue(w), Pow10(|g|);
      assert Pow10(|f|) == 10 * p;
      ShiftDigit(x, p, DigitsValue(g), d);
    }
  }

  /** `ParseUnsigned` accepts exactly the unsigned literals: rejecting `1.2.3`, `.` and `""`. */
  lemma ParseUnsignedAccepts(s: string)
    ensures ParseUnsigned(s).Some? <==> IsUnsignedLiteral(s)
  {
    var dot := IndexOf(s, '.');
    var whole := s[..dot];
    var frac := if dot < |s| then s[dot + 1..] else [];
    assert forall i :: dot < i < |s| ==> s[i] == frac[i - dot - 1];
    if IsUnsignedLiteral(s) {
      assert AllDigits(whole);
      if dot < |s| {
        assert forall i :: dot < i < |s| ==> s[i] != '.';
      }
      assert AllDigits(frac);
      var k :| 0 <= k < |s| && IsDigit(s[k]);
      assert k < dot || dot < k;
    }
  }

  /** A digit string, leading zeros included, reads as the number it denotes. */
  lemma ParseInteger(w: string)
    requires AllDigits(w) && w != []
    ensures ParseUnsigned(w) == Some(DigitsValue(w) as real)
  {
    assert forall i :: 0 <= i < |w| ==> w[i] != '.';
    assert IndexOf(w, '.') == |w|;
    assert w[..|w|] == w;
  }

  /** `w.f` splits at its only `.` into the whole part `w` and the fraction digits `f`. */
  lemma ParseDot(w: string, f: string)
    requires AllDigits(w) && AllDigits(f) && |w| + |f| > 0
    ensures ParseUnsigned(w + "." + f) == Some(Decimal(DigitsValue(w), DigitsValue(f), |f|))
  {
    var s := w + "." + f;
    assert forall i :: 0 <= i < |w| ==> s[i] != '.';
    assert s[|w|] == '.';
    assert IndexOf(s, '.') == |w|;
    assert s[..|w|] == w && s[|w| + 1..] == f;
  }

  /** `w.f` reads as the digits `wf` scaled down by ten to the number of fraction digits. */
  lemma ParseDecimal(w: string, f: string)
    requires AllDigits(w) && AllDigits(f) && |w| + |f| > 0
    ensures ParseUnsigned(w + "." + f) == Some(DigitsValue(w + f) as real / Pow10(|f|) as real)
  {
    ParseDot(w, f);
    DigitsValueAppend(w, f);
    ScaleDown(DigitsValue(w), DigitsValue(f), |f|);
  }

  /** `ParseNum` accepts exactly an unsigned literal, optionally behind one `+` or `-`. */
  lemma ParseNumAccepts(s: string)
    ensures ParseNum(s).Some? <==>
      IsUnsignedLiteral(s) || (s != [] && (s[0] == '+' || s[0] == '-') && IsUnsignedLiteral(s[1..]))
  {
    ParseUnsignedAccepts(s);
    if s != [] {
      ParseUnsignedAccepts(s[1..]);
    }
  }

  /** A leading `+` keeps the value of an unsigned literal: `float("+5")` is 5. */
  lemma ParsePlus(u: string)
    ensures ParseNum("+" + u) == ParseUnsigned(u)
  {
    var s := "+" + u;
    assert s[0] == '+' && s[1..] == u;
  }

  /** A leading `-` negates the value of an unsigned literal and rejects what it rejects. */
  lemma ParseMinus(u: string)
    ensures ParseUnsigned(u).None? ==> ParseNum("-" + u).None?
    ensures ParseUnsigned(u).Some? ==> ParseNum("-" + u) == Some(-ParseUnsigned(u).value)
  {
    var s := "-" + u;
    assert s[0] == '-' && s[1..] == u;
  }

  /** Reading back the decimal form of a natural number gives the number. */
  lemma ParseShowNat(n: nat)
    ensures ParseUnsigned(ShowNat(n)) == Some(n as real)
  {
    var s := ShowNat(n);
    var dot := IndexOf(s, '.');
    assert forall i :: 0 <= i < |s| ==> s[i] != '.';
    assert s[..dot] == s;
    DigitsValueShowNat(n);
  }

  /** Reading back the decimal form of any integer gives the integer, sign included. */
  lemma ParseShowInt(i: int)
    ensures ParseNum(ShowInt(i)) == Some(i as real)
  {
    if i < 0 {
      var s := ShowInt(i);
      assert s[1..] == ShowNat(-i);
      ParseShowNat(-i);
    } else {
      ParseShowNat(i);
      assert IsDigit(ShowNat(i)[0]);
    }
  }
}
