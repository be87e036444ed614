/** Field values as the record grid stores them, with the parts of Python's
    value semantics the grid relies on: `str()` of a value, truthiness, the
    `<` operator, and the text-to-number conversions `int()` and `Decimal()`
    (for the plain notations the editors produce). */
module Values {

  datatype Option<+T> = None | Some(value: T)

  /** A finite `decimal.Decimal`: the number coeff * 10^(-scale). */
  datatype Decimal = Decimal(coeff: int, scale: nat)

  /** A `datetime.date`. */
  datatype Date = Date(year: nat, month: nat, day: nat)

  /** A cell value: None, an int, a str, a Decimal or a date. */
  datatype Value = Null | Int(i: int) | Text(s: string) | Dec(d: Decimal) | Day(date: Date)

  function Pow10(n: nat): (r: nat)
    ensures r >= 1
  {
    if n == 0 then 1 else 10 * Pow10(n - 1)
  }

  /** Python truthiness: None, 0, "" and a zero Decimal are falsy; a date never is. */
  predicate Falsy(v: Value)
  {
    match v
    case Null => true
    case Int(i) => i == 0
    case Text(s) => s == ""
    case Dec(d) => d.coeff == 0
    case Day(_) => false
  }

  // ---------------------------------------------------------------------
  // Decimal digits

  predicate IsDigit(c: char) { '0' <= c <= '9' }

  predicate AllDigits(s: string) { forall i :: 0 <= i < |s| ==> IsDigit(s[i]) }

  function DigitChar(d: nat): (c: char)
    requires d < 10
    ensures IsDigit(c) && c as int - '0' as int == d
  {
    ('0' as int + d) as char
  }

  /** The shortest decimal numeral of n, as `str(n)` writes it. */
  function NatText(n: nat): (s: string)
    ensures 1 <= |s| && AllDigits(s)
    ensures s[0] == '0' ==> n == 0 && s == "0"
  {
    if n < 10 then [DigitChar(n)] else NatText(n / 10) + [DigitChar(n % 10)]
  }

  /** The number a string of digits denotes (leading zeros allowed). */
  function NatOf(s: string): nat
    requires AllDigits(s)
  {
    if s == [] then 0 else 10 * NatOf(s[..|s| - 1]) + (s[|s| - 1] as int - '0' as int)
  }

  lemma {:induction false} NatOfNatText(n: nat)
    ensures NatOf(NatText(n)) == n
  {
    if n >= 10 {
      var s := NatText(n);
      assert s[..|s| - 1] == NatText(n / 10);
      NatOfNatText(n / 10);
    }
  }

  function Zeros(k: nat): (z: string)
    ensures |z| == k && AllDigits(z)
  {
    if k == 0 then [] else Zeros(k - 1) + "0"
  }

  lemma {:induction false} NatOfZeros(k: nat)
    ensures NatOf(Zeros(k)) == 0
  {
    if k > 0 {
      assert Zeros(k)[..k - 1] == Zeros(k - 1);
      NatOfZeros(k - 1);
    }
  }

  /** Leading zeros do not change the number a numeral denotes. */
  lemma {:induction false} NatOfLeadingZeros(k: nat, s: string)
    requires AllDigits(s)
    ensures NatOf(Zeros(k) + s) == NatOf(s)
  {
    if s == [] {
      assert Zeros(k) + s == Zeros(k);
      NatOfZeros(k);
    } else {
      var t := Zeros(k) + s;
      var init := s[..|s| - 1];
      assert t[..|t| - 1] == Zeros(k) + init;
      assert t[|t| - 1] == s[|s| - 1];
      NatOfLeadingZeros(k, init);
    }
  }

  /** Left-pads a numeral with zeros to at least the given width (`%0*d`). */
  function Pad(s: string, width: nat): (r: string)
    requires AllDigits(s)
    ensures AllDigits(r) && |r| >= width && |r| >= |s|
    ensures r == Zeros(|r| - |s|) + s
  {
    if |s| >= width then (assert s == Zeros(0) + s; s) else Zeros(width - |s|) + s
  }

  /** Padding keeps the number a numeral denotes. */
  lemma NatOfPad(s: string, width: nat)
    requires AllDigits(s)
    ensures NatOf(Pad(s, width)) == NatOf(s)
  {
    var r := Pad(s, width);
    NatOfLeadingZeros(|r| - |s|, s);
  }

  // ---------------------------------------------------------------------
  // str() of a value

  function IntText(i: int): (s: string)
  {
    if i < 0 then "-" + NatText(-i) else NatText(i)
  }

  /** `str(Decimal)` for a non-positive exponent: the sign, then the digits
      of the magnitude. */
  function DecimalText(d: Decimal): (s: string)
  {
    (if d.coeff < 0 then "-" else "") + MagnitudeText(NatText(if d.coeff < 0 then -d.coeff else d.coeff), d.scale)
  }

  /** The digits of a magnitude with the given number of them after the
      point: plain notation unless the adjusted exponent is below -6, then
      scientific notation. */
  function MagnitudeText(digits: string, scale: nat): (s: string)
    requires 1 <= |digits| && AllDigits(digits)
  {
    var adjusted := |digits| - 1 - scale;
    if scale == 0 then digits
    else if adjusted >= -6 then PointText(Pad(digits, scale + 1), scale)
    else digits[..1] + (if |digits| > 1 then "." + digits[1..] else "") + "E-" + NatText(-adjusted)
  }

  /** A numeral with a point placed before its last `scale` digits. */
  function PointText(padded: string, scale: nat): (s: string)
    requires scale < |padded|
  {
    padded[..|padded| - scale] + "." + padded[|padded| - scale..]
  }

  /** `str(date)`, the ISO form YYYY-MM-DD. */
  function DateText(d: Date): (s: string)
  {
    Pad(NatText(d.year), 4) + "-" + Pad(NatText(d.month), 2) + "-" + Pad(NatText(d.day), 2)
  }

  /** Python's `str(v)`. */
  function Str(v: Value): (s: string)
  {
    match v
    case Null => "None"
    case Int(i) => IntText(i)
    case Text(t) => t
    case Dec(d) => DecimalText(d)
    case Day(d) => DateText(d)
  }

  // ---------------------------------------------------------------------
  // int() and Decimal() of text

  /** `int(s)` for an optional minus sign followed by ASCII digits, the
      texts `str()` of an int writes. Every other text gives None here,
      including some Python's `int()` accepts (a plus sign, surrounding
      whitespace, underscores between digits, non-ASCII digits). */
  function ParseInt(s: string): (r: Option<int>)
    ensures r.Some? ==> 1 <= |s|
  {
    if 2 <= |s| && s[0] == '-' && AllDigits(s[1..]) then var n: int := NatOf(s[1..]); Some(-n)
    else if 1 <= |s| && AllDigits(s) then Some(NatOf(s))
    else None
  }

  lemma IntTextRoundTrip(i: int)
    ensures ParseInt(IntText(i)) == Some(i)
  {
    if i < 0 {
      var digits := NatText(-i);
      var s := "-" + digits;
      assert IntText(i) == s && s[0] == '-' && s[1..] == digits;
      NatOfNatText(-i);
    } else {
      var digits := NatText(i);
      assert IntText(i) == digits && IsDigit(digits[0]);
      NatOfNatText(i);
    }
  }

  /** The first position of c in s, or |s| when c does not occur. */
  function Find(s: string, c: char): (k: nat)
    ensures k <= |s|
    ensures k < |s| ==> s[k] == c
    ensures forall j :: 0 <= j < k ==> s[j] != c
  {
    if s == [] then 0 else if s[0] == c then 0 else 1 + Find(s[1..], c)
  }

  /** `Decimal(s)` for unsigned plain notation: digits with at most one
      decimal point and at least one digit. The number of digits after the
      point is the scale, as Decimal keeps it (Decimal("1.50") has scale 2). */
  function ParseDecimal(s: string): (r: Option<Decimal>)
    ensures r.Some? ==> r.value.coeff >= 0
  {
    var k := Find(s, '.');
    if k == |s| then
      if 1 <= |s| && AllDigits(s) then Some(Decimal(NatOf(s), 0)) else None
    else
      var whole, frac := s[..k], s[k + 1..];
      if 1 <= |whole| + |frac| && AllDigits(whole) && AllDigits(frac)
      then Some(Decimal(NatOf(whole + frac), |frac|))
      else None
  }

  /** Splitting a numeral at a decimal point and parsing it back gives the
      numeral's digits, with as many after the point as were put there. */
  lemma FindPastDigits(w: string, t: string)
    requires AllDigits(w) && t != [] && t[0] == '.'
    ensures Find(w + t, '.') == |w|
  {
    var s := w + t;
    assert s[|w|] == '.';
    assert forall j :: 0 <= j < |w| ==> s[j] == w[j];
  }

  lemma ParseAtPoint(s: string, k: nat)
    requires Find(s, '.') == k < |s|
    requires 2 <= |s| && AllDigits(s[..k]) && AllDigits(s[k + 1..])
    ensures ParseDecimal(s).Some?
    ensures ParseDecimal(s).value.coeff == NatOf(s[..k] + s[k + 1..])
    ensures ParseDecimal(s).value.scale == |s| - k - 1
  {
  }

  lemma ParseSplitNumeral(padded: string, k: nat) returns (s: string)
    requires AllDigits(padded) && 1 <= k < |padded|
    ensures s == PointText(padded, |padded| - k)
    ensures ParseDecimal(s) == Some(Decimal(NatOf(padded), |padded| - k))
  {
    s := padded[..k] + "." + padded[k..];
    assert Find(s, '.') == k by {
      assert s == padded[..k] + ("." + padded[k..]);
      FindPastDigits(padded[..k], "." + padded[k..]);
    }
    assert s[..k] == padded[..k] && s[k + 1..] == padded[k..];
    ParseAtPoint(s, k);
    assert s[..k] + s[k + 1..] == padded;
  }

  lemma ParsePlainNumeral(digits: string)
    requires 1 <= |digits| && AllDigits(digits)
    ensures ParseDecimal(digits) == Some(Decimal(NatOf(digits), 0))
  {
    assert Find(digits, '.') == |digits|;
  }

  lemma ParsePointNumeral(digits: string, scale: nat)
    requires 1 <= |digits| && AllDigits(digits) && 1 <= scale && |digits| - 1 - scale >= -6
    ensures ParseDecimal(MagnitudeText(digits, scale)) == Some(Decimal(NatOf(digits), scale))
  {
    var padded := Pad(digits, scale + 1);
    assert MagnitudeText(digits, scale) == PointText(padded, scale);
    var t := ParseSplitNumeral(padded, |padded| - scale);
    assert NatOf(padded) == NatOf(digits) by { NatOfPad(digits, scale + 1); }
  }

  /** The text `str()` writes for a non-negative Decimal in plain notation
      reads back as the same Decimal, scale included. */
  lemma DecimalTextRoundTrip(d: Decimal)
    requires d.coeff >= 0
    requires |NatText(d.coeff)| - 1 - d.scale >= -6
    ensures ParseDecimal(DecimalText(d)) == Some(d)
  {
    var digits := NatText(d.coeff);
    NatOfNatText(d.coeff);
    assert DecimalText(d) == MagnitudeText(digits, d.scale);
    if d.scale == 0 {
      ParsePlainNumeral(digits);
    } else {
      ParsePointNumeral(digits, d.scale);
    }
  }

  // ---------------------------------------------------------------------
  // The < operator

  /** Python's `<` on str: lexicographic by code point. */
  predicate LexLess(a: string, b: string)
  {
    if a == [] then b != []
    else if b == [] then false
    else a[0] < b[0] || (a[0] == b[0] && LexLess(a[1..], b[1..]))
  }

  lemma {:induction false} LexLessIrreflexive(a: string)
    ensures !LexLess(a, a)
  {
    if a != [] { LexLessIrreflexive(a[1..]); }
  }

  lemma {:induction false} LexLessTransitive(a: string, b: string, c: string)
    requires LexLess(a, b) && LexLess(b, c)
    ensures LexLess(a, c)
  {
    if a != [] && b != [] && c != [] && a[0] == b[0] == c[0] {
      LexLessTransitive(a[1..], b[1..], c[1..]);
    }
  }

  lemma {:induction false} LexLessTotal(a: string, b: string)
    ensures LexLess(a, b) || a == b || LexLess(b, a)
  {
    if a != [] && b != [] && a[0] == b[0] {
      LexLessTotal(a[1..], b[1..]);
      if a[1..] == b[1..] { assert a == [a[0]] + a[1..] && b == [b[0]] + b[1..]; }
    }
  }

  /** Python's `<` on dates: by year, then month, then day. */
  predicate DateLess(a: Date, b: Date)
  {
    a.year < b.year || (a.year == b.year && (a.month < b.month || (a.month == b.month && a.day < b.day)))
  }

  /** Numbers (int and Decimal) compare by value across the two types. */
  function AsDecimal(v: Value): Decimal
    requires v.Int? || v.Dec?
  {
    if v.Int? then Decimal(v.i, 0) else v.d
  }

  predicate DecimalLess(a: Decimal, b: Decimal)
  {
    a.coeff * Pow10(b.scale) < b.coeff * Pow10(a.scale)
  }

  /** Python's `a < b`: None when Python raises TypeError (None, or values of
      types that do not compare with each other). */
  function PyLess(a: Value, b: Value): (r: Option<bool>)
    ensures r.None? <==>
      !((a.Text? && b.Text?) || (a.Day? && b.Day?) || ((a.Int? || a.Dec?) && (b.Int? || b.Dec?)))
  {
    if a.Text? && b.Text? then Some(LexLess(a.s, b.s))
    else if a.Day? && b.Day? then Some(DateLess(a.date, b.date))
    else if a.Int? && b.Int? then Some(a.i < b.i)
    else if (a.Int? || a.Dec?) && (b.Int? || b.Dec?) then Some(DecimalLess(AsDecimal(a), AsDecimal(b)))
    else None
  }

  lemma MulStrict(x: int, y: int, p: int)
    requires x < y && p >= 1
    ensures x * p < y * p
  {
    assert y * p - x * p == (y - x) * p;
  }

  lemma MulCancel(x: int, y: int, p: int)
    requires x * p < y * p && p >= 1
    ensures x < y
  {
  }

  lemma MulSwap(x: int, y: int, z: int)
    ensures (x * y) * z == (x * z) * y
  {
  }

  lemma DecimalLessTransitive(a: Decimal, b: Decimal, c: Decimal)
    requires DecimalLess(a, b) && DecimalLess(b, c)
    ensures DecimalLess(a, c)
  {
    var pa, pb, pc := Pow10(a.scale), Pow10(b.scale), Pow10(c.scale);
    var x, y, z := a.coeff, b.coeff, c.coeff;
    MulStrict(x * pb, y * pa, pc);
    MulStrict(y * pc, z * pb, pa);
    MulSwap(y, pa, pc);
    MulSwap(x, pb, pc);
    MulSwap(z, pb, pa);
    assert (x * pc) * pb < (z * pa) * pb;
    MulCancel(x * pc, z * pa, pb);
  }

  /** Wherever Python's `<` is defined it is a strict order: it is
      irreflexive and transitive, so a sort by it is well defined. */
  lemma PyLessStrictOrder(a: Value, b: Value, c: Value)
    ensures PyLess(a, a) != Some(true)
    ensures PyLess(a, b) == Some(true) && PyLess(b, c) == Some(true) ==> PyLess(a, c) == Some(true)
  {
    if a.Text? { LexLessIrreflexive(a.s); }
    if PyLess(a, b) == Some(true) && PyLess(b, c) == Some(true) {
      if a.Text? { LexLessTransitive(a.s, b.s, c.s); }
      else if (a.Int? || a.Dec?) && !(a.Int? && b.Int? && c.Int?) {
        DecimalLessTransitive(AsDecimal(a), AsDecimal(b), AsDecimal(c));
      }
    }
  }
}
