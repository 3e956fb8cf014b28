/**
 * The exact decimal numbers of float/float.go. A `Decimal` is an integer
 * part, a signed fractional part and a count of fractional digits, all held
 * in `big.Int`; the arithmetic is exact integer arithmetic on the value
 * scaled by a power of ten.
 */
module DecimalNum {
  import opened Wrappers
  import opened Text

  /** `Decimal{integer, decimal, decPlaces}`; it stands for integer + decimal / 10^decPlaces. */
  datatype Decimal = Decimal(integer: int, decimal: int, decPlaces: nat)

  function Abs(x: int): nat { if x < 0 then -x else x }

  /**
   * The shape `NewDecimal` and `fromScaledInt` build: the fractional part has
   * fewer than decPlaces digits and the two parts do not have opposite signs.
   */
  predicate WellFormed(d: Decimal)
  {
    Abs(d.decimal) < Pow10(d.decPlaces) &&
    ((d.integer >= 0 && d.decimal >= 0) || (d.integer <= 0 && d.decimal <= 0))
  }

  /** The value scaled by 10^decPlaces. */
  function ScaledValue(d: Decimal): int
  {
    d.integer * Pow10(d.decPlaces) + d.decimal
  }

  /** The number a decimal stands for. */
  function RealValue(d: Decimal): real
  {
    (ScaledValue(d) as real) / (Pow10(d.decPlaces) as real)
  }

  /**
   * `toScaledInt(scale)`: the value scaled to `scale` places. A scale below
   * decPlaces does not scale down; the value stays at its own places.
   */
  function ToScaledInt(d: Decimal, scale: int): int
  {
    var base := d.integer * Pow10(d.decPlaces) + d.decimal;
    var diff := scale - d.decPlaces;
    if diff > 0 then base * Pow10(diff) else base
  }

  /** At or above its own places the value is multiplied up; below them it is left as it is. */
  lemma ToScaledIntValue(d: Decimal, scale: int)
    ensures scale >= d.decPlaces ==> ToScaledInt(d, scale) == ScaledValue(d) * Pow10(scale - d.decPlaces)
    ensures scale <= d.decPlaces ==> ToScaledInt(d, scale) == ScaledValue(d)
  {
  }

  /**
   * `fromScaledInt(val, places)`: `big.Int.DivMod` is Euclidean, and a
   * negative value with a remainder is moved one step toward zero, so the
   * split truncates toward zero.
   */
  function FromScaledInt(val: int, places: nat): (r: Decimal)
    ensures r.decPlaces == places
  {
    var divisor := Pow10(places);
    var intPart := val / divisor;
    var decPart := val % divisor;
    if val < 0 && decPart != 0 then Decimal(intPart + 1, decPart - divisor, places)
    else Decimal(intPart, decPart, places)
  }

  /**
   * The split is exact and well formed, and both parts take the sign of the
   * value (truncation toward zero).
   */
  lemma FromScaledIntSplit(val: int, places: nat)
    ensures ScaledValue(FromScaledInt(val, places)) == val
    ensures WellFormed(FromScaledInt(val, places))
    ensures val >= 0 ==> FromScaledInt(val, places).integer >= 0 && FromScaledInt(val, places).decimal >= 0
    ensures val < 0 ==> FromScaledInt(val, places).integer <= 0 && FromScaledInt(val, places).decimal <= 0
  {
    SplitFacts(val, Pow10(places));
  }

  /** Euclidean division by a positive divisor, and the sign of its quotient. */
  lemma SplitFacts(v: int, p: int)
    requires p > 0
    ensures v == (v / p) * p + v % p && 0 <= v % p < p
    ensures v >= 0 ==> v / p >= 0
    ensures v < 0 ==> v / p < 0
    ensures v < 0 && v % p != 0 ==> (v / p + 1) * p + (v % p - p) == v && v / p + 1 <= 0
  {
    var q, m := v / p, v % p;
    if v >= 0 && q < 0 {
      MulNegative(q, p);
    }
    if v < 0 && q >= 0 {
      MulNonNegative(q, p);
    }
  }

  lemma MulNegative(q: int, p: int)
    requires q < 0 && p > 0
    ensures q * p <= -p
  {
  }

  lemma MulNonNegative(q: int, p: int)
    requires q >= 0 && p > 0
    ensures q * p >= 0
  {
  }

  function Max(a: nat, b: nat): nat { if a > b then a else b }

  /** `Add`: both operands at the larger place count, summed exactly. */
  function Add(a: Decimal, b: Decimal): (r: Decimal)
    ensures r.decPlaces == Max(a.decPlaces, b.decPlaces)
  {
    var maxDec := Max(a.decPlaces, b.decPlaces);
    FromScaledInt(ToScaledInt(a, maxDec) + ToScaledInt(b, maxDec), maxDec)
  }

  /** The sum is well formed and its scaled value is the sum of the operands at its places. */
  lemma AddScaled(a: Decimal, b: Decimal)
    ensures WellFormed(Add(a, b))
    ensures ScaledValue(Add(a, b)) == ToScaledInt(a, Add(a, b).decPlaces) + ToScaledInt(b, Add(a, b).decPlaces)
  {
    var m := Max(a.decPlaces, b.decPlaces);
    FromScaledIntSplit(ToScaledInt(a, m) + ToScaledInt(b, m), m);
  }

  /** `Mul`: the product of the scaled values, at the sum of the place counts. */
  function Mul(a: Decimal, b: Decimal): (r: Decimal)
    ensures r.decPlaces == a.decPlaces + b.decPlaces
  {
    FromScaledInt(ToScaledInt(a, a.decPlaces) * ToScaledInt(b, b.decPlaces), a.decPlaces + b.decPlaces)
  }

  /** The product is well formed and its scaled value is the product of the scaled values. */
  lemma MulScaled(a: Decimal, b: Decimal)
    ensures WellFormed(Mul(a, b))
    ensures ScaledValue(Mul(a, b)) == ScaledValue(a) * ScaledValue(b)
  {
    ToScaledIntValue(a, a.decPlaces);
    ToScaledIntValue(b, b.decPlaces);
    FromScaledIntSplit(ScaledValue(a) * ScaledValue(b), a.decPlaces + b.decPlaces);
  }

  lemma RatioOfSum(x: int, y: int, p: nat)
    requires p > 0
    ensures ((x + y) as real) / (p as real) == (x as real) / (p as real) + (y as real) / (p as real)
  {
  }

  lemma RatioOfProduct(x: int, y: int, p: nat, q: nat)
    requires p > 0 && q > 0
    ensures ((x * y) as real) / ((p * q) as real) == ((x as real) / (p as real)) * ((y as real) / (q as real))
  {
    var xr, yr, pr, qr := x as real, y as real, p as real, q as real;
    assert (x * y) as real == xr * yr;
    assert (p * q) as real == pr * qr;
  }

  /** The same ratio at a finer scale. */
  lemma ScaleCancel(x: int, a: nat, k: nat)
    requires a > 0 && k > 0
    ensures ((x * k) as real) / ((a * k) as real) == (x as real) / (a as real)
  {
    var xr, ar, kr := x as real, a as real, k as real;
    assert (x * k) as real == xr * kr;
    assert (a * k) as real == ar * kr;
    assert (xr * kr) / (ar * kr) == xr / ar;
  }

  /** A decimal at more places stands for the same number. */
  lemma {:induction false} ScaledUpSameValue(d: Decimal, m: nat)
    requires m >= d.decPlaces
    ensures (ToScaledInt(d, m) as real) / (Pow10(m) as real) == RealValue(d)
  {
    var k := Pow10(m - d.decPlaces);
    ToScaledIntValue(d, m);
    Pow10Add(d.decPlaces, m - d.decPlaces);
    assert Pow10(m) == Pow10(d.decPlaces) * k;
    ScaleCancel(ScaledValue(d), Pow10(d.decPlaces), k);
  }

  /** Addition is exact: the sum stands for the sum of the numbers. */
  lemma AddExact(a: Decimal, b: Decimal)
    ensures RealValue(Add(a, b)) == RealValue(a) + RealValue(b)
  {
    AddScaled(a, b);
    var m := Max(a.decPlaces, b.decPlaces);
    var x, y := ToScaledInt(a, m), ToScaledInt(b, m);
    ScaledUpSameValue(a, m);
    ScaledUpSameValue(b, m);
    RatioOfSum(x, y, Pow10(m));
  }

  /** Multiplication is exact: the product stands for the product of the numbers. */
  lemma MulExact(a: Decimal, b: Decimal)
    ensures RealValue(Mul(a, b)) == RealValue(a) * RealValue(b)
  {
    var m := Mul(a, b);
    MulScaled(a, b);
    Pow10Add(a.decPlaces, b.decPlaces);
    ProductRatio(ScaledValue(m), Pow10(m.decPlaces), ScaledValue(a), Pow10(a.decPlaces), ScaledValue(b), Pow10(b.decPlaces));
  }

  lemma ProductRatio(x: int, p: nat, y: int, q: nat, z: int, r: nat)
    requires q > 0 && r > 0 && x == y * z && p == q * r
    ensures (x as real) / (p as real) == ((y as real) / (q as real)) * ((z as real) / (r as real))
  {
    RatioOfProduct(y, z, q, r);
  }

  /** Addition does not depend on the order of its operands. */
  lemma AddCommutes(a: Decimal, b: Decimal)
    ensures Add(a, b) == Add(b, a)
  {
  }

  /** A well-formed decimal is recovered from its scaled value. */
  lemma {:induction false} FromScaledOfScaled(d: Decimal)
    requires WellFormed(d)
    ensures FromScaledInt(ScaledValue(d), d.decPlaces) == d
  {
    var p := Pow10(d.decPlaces);
    var v := ScaledValue(d);
    var r := FromScaledInt(v, d.decPlaces);
    if v >= 0 {
      assert d.decimal >= 0;
      assert v / p == d.integer && v % p == d.decimal by {
        DivModUnique(v, p, d.integer, d.decimal);
      }
    } else {
      assert d.integer <= 0 && d.decimal <= 0;
      if d.decimal == 0 {
        DivModUnique(v, p, d.integer, 0);
      } else {
        DivModUnique(v, p, d.integer - 1, d.decimal + p);
      }
    }
  }

  /** The quotient and remainder are the only split with a remainder in [0, p). */
  lemma DivModUnique(v: int, p: int, q: int, m: int)
    requires p > 0 && 0 <= m < p && v == q * p + m
    ensures v / p == q && v % p == m
  {
    var q', m' := v / p, v % p;
    SplitFacts(v, p);
    assert (q - q') * p == m' - m;
    if q > q' {
      MulAtLeast(q - q', p);
    } else if q < q' {
      MulAtLeast(q' - q, p);
    }
  }

  lemma MulAtLeast(k: int, p: int)
    requires k >= 1 && p > 0
    ensures k * p >= p
  {
  }

  // ---------------------------------------------------------------------------
  // Text.
  // ---------------------------------------------------------------------------

  /** `for len(decStr) < n { decStr = "0" + decStr }` */
  method ZeroPad(s: string, n: int) returns (r: string)
    ensures r == PadZeros(s, n)
  {
    r := s;
    while |r| < n
      invariant |s| <= |r| && (|r| > |s| ==> |r| <= n)
      invariant r == Zeros(|r| - |s|) + s
      decreases n - |r|
    {
      r := "0" + r;
    }
  }

  /** The fractional digits `String` prints: |decimal| padded to decPlaces digits. */
  function FractionText(d: Decimal): string
  {
    PadZeros(NatToString(Abs(d.decimal)), d.decPlaces)
  }

  /**
   * `String` as written: the integer part's own text (sign included), a dot,
   * and the fractional digits. Trailing zeros are kept and a decimal with no
   * places prints ".0". The sign comes only from the integer part, so a value
   * strictly between -1 and 0 prints without its minus sign.
   */
  function TextAsWritten(d: Decimal): string
  {
    var intStr := IntToString(d.integer);
    var decStr := FractionText(d);
    if decStr == "" then intStr else intStr + "." + decStr
  }

  /** `String` as intended: a minus sign whenever the value is negative, then the magnitude. */
  function DecimalText(d: Decimal): string
  {
    var sign := if d.integer < 0 || d.decimal < 0 then "-" else "";
    sign + NatToString(Abs(d.integer)) + "." + FractionText(d)
  }

  /** The two agree whenever the integer part carries the sign or the value is not negative. */
  lemma TextAgrees(d: Decimal)
    requires WellFormed(d) && (d.integer != 0 || d.decimal >= 0)
    ensures DecimalText(d) == TextAsWritten(d)
  {
  }

  /** `String`, with the padding loop. */
  method String(d: Decimal) returns (s: string)
    ensures s == DecimalText(d)
  {
    var sign := if d.integer < 0 || d.decimal < 0 then "-" else "";
    var decStr := ZeroPad(NatToString(Abs(d.decimal)), d.decPlaces);
    s := sign + NatToString(Abs(d.integer)) + "." + decStr;
  }

  /**
   * The text `StringFixed(n)` prints for the value v at n places, as written:
   * v split by Euclidean `DivMod`, so a negative value prints its floor and a
   * positive remainder.
   */
  function ScaledTextAsWritten(v: int, n: nat): string
  {
    var divisor := Pow10(n);
    IntToString(v / divisor) + "." + PadZeros(NatToString(v % divisor), n)
  }

  /** `StringFixed(n)` as written. */
  function FixedTextAsWritten(d: Decimal, n: nat): string
  {
    ScaledTextAsWritten(ToScaledInt(d, n), n)
  }

  /** The text of v at n places as intended: the sign, then the magnitude split into n places. */
  function ScaledText(v: int, n: nat): string
  {
    var divisor := Pow10(n);
    SplitFacts(Abs(v), divisor);
    (if v < 0 then "-" else "") + NatToString(Abs(v) / divisor) + "." + PadZeros(NatToString(Abs(v) % divisor), n)
  }

  /** `StringFixed(n)` as intended. */
  function FixedText(d: Decimal, n: nat): string
  {
    ScaledText(ToScaledInt(d, n), n)
  }

  /** The two agree on values that are not negative. */
  lemma FixedTextAgrees(d: Decimal, n: nat)
    requires ToScaledInt(d, n) >= 0
    ensures FixedText(d, n) == FixedTextAsWritten(d, n)
  {
    ScaledTextAgrees(ToScaledInt(d, n), n);
  }

  lemma ScaledTextAgrees(v: int, n: nat)
    requires v >= 0
    ensures ScaledText(v, n) == ScaledTextAsWritten(v, n)
  {
    var p := Pow10(n);
    SplitFacts(v, p);
    var q, m := v / p, v % p;
    assert IntToString(q) == NatToString(q);
    assert ScaledText(v, n) == NatToString(q) + "." + PadZeros(NatToString(m), n);
  }

  /** The digits and the padding loop of `StringFixed`, for the already scaled value. */
  method ScaledString(v: int, n: nat) returns (s: string)
    ensures s == ScaledText(v, n)
  {
    var divisor := Pow10(n);
    SplitFacts(Abs(v), divisor);
    var decStr := ZeroPad(NatToString(Abs(v) % divisor), n);
    s := (if v < 0 then "-" else "") + NatToString(Abs(v) / divisor) + "." + decStr;
  }

  /** `StringFixed(n)` */
  method StringFixed(d: Decimal, n: nat) returns (s: string)
    ensures s == FixedText(d, n)
  {
    var v := ToScaledInt(d, n);
    s := ScaledString(v, n);
  }

  // ---------------------------------------------------------------------------
  // Reading decimal text back, to state round trips.
  // ---------------------------------------------------------------------------

  /** Where the first '.' of `s` is. */
  function DotIndex(s: string): (r: Option<nat>)
    ensures r.Some? ==> r.value < |s| && s[r.value] == '.'
  {
    if s == [] then None
    else if s[0] == '.' then Some(0)
    else match DotIndex(s[1..])
      case None => None
      case Some(i) => Some(i + 1)
  }

  /** The decimal that text of the form digits.digits denotes; None for any other text. */
  function ReadMagnitude(s: string): Option<Decimal>
  {
    match DotIndex(s)
    case None => None
    case Some(i) =>
      var ip, fp := s[..i], s[i + 1..];
      if ip == [] || fp == [] || !AllDigits(ip) || !AllDigits(fp) then None
      else Some(Decimal(DigitsValue(ip), DigitsValue(fp), |fp|))
  }

  /**
   * The decimal that text of the form [-]digits.digits denotes, with as many
   * places as it has fractional digits; None for any other text.
   */
  function ReadDecimal(s: string): Option<Decimal>
  {
    var neg := |s| > 0 && s[0] == '-';
    var m := ReadMagnitude(if neg then s[1..] else s);
    if neg then Negated(m) else m
  }

  /** The negation of a decimal that is present. */
  function Negated(r: Option<Decimal>): Option<Decimal>
  {
    if r.None? then None else Some(Decimal(-r.value.integer, -r.value.decimal, r.value.decPlaces))
  }

  lemma {:induction false} DotAfterDigits(ip: string, rest: string)
    requires AllDigits(ip)
    ensures DotIndex(ip + "." + rest) == Some(|ip|)
  {
    if ip != [] {
      DotAfterDigits(ip[1..], rest);
      assert (ip + "." + rest)[1..] == ip[1..] + "." + rest;
    }
  }

  /** Reading digits, dot, digits. */
  lemma ReadUnsigned(ip: string, fp: string)
    requires AllDigits(ip) && AllDigits(fp) && ip != [] && fp != []
    ensures ReadMagnitude(ip + "." + fp) == Some(Decimal(DigitsValue(ip), DigitsValue(fp), |fp|))
  {
    var body := ip + "." + fp;
    DotAfterDigits(ip, fp);
    assert body[..|ip|] == ip;
    assert body[|ip| + 1..] == fp;
  }

  /** Non-empty digits before and after the dot. */
  predicate DigitParts(ip: string, fp: string)
  {
    AllDigits(ip) && AllDigits(fp) && ip != [] && fp != []
  }

  /** A minus sign in front of a magnitude negates it. */
  lemma ReadSigned(t: string, m: Decimal)
    requires ReadMagnitude(t) == Some(m)
    ensures ReadDecimal("-" + t) == Some(Decimal(-m.integer, -m.decimal, m.decPlaces))
  {
    assert ("-" + t)[1..] == t;
  }

  /** Reading a minus sign, digits, dot, digits, field by field. */
  lemma ReadNegativeFields(ip: string, fp: string)
    requires DigitParts(ip, fp)
    ensures ReadDecimal("-" + (ip + "." + fp)).Some?
    ensures ReadDecimal("-" + (ip + "." + fp)).value.integer == -(DigitsValue(ip) as int)
    ensures ReadDecimal("-" + (ip + "." + fp)).value.decimal == -(DigitsValue(fp) as int)
    ensures ReadDecimal("-" + (ip + "." + fp)).value.decPlaces == |fp|
  {
    ReadUnsigned(ip, fp);
    ReadSigned(ip + "." + fp, Decimal(DigitsValue(ip), DigitsValue(fp), |fp|));
  }

  /** A present decimal is the one its fields name. */
  lemma SomeDecimal(r: Option<Decimal>, integer: int, decimal: int, places: nat)
    requires r.Some? && r.value.integer == integer && r.value.decimal == decimal && r.value.decPlaces == places
    ensures r == Some(Decimal(integer, decimal, places))
  {
  }

  /** Reading a minus sign, digits, dot, digits. */
  lemma ReadNegative(ip: string, fp: string)
    requires DigitParts(ip, fp)
    ensures ReadDecimal("-" + (ip + "." + fp)) == Some(Decimal(-(DigitsValue(ip) as int), -(DigitsValue(fp) as int), |fp|))
  {
    ReadNegativeFields(ip, fp);
    SomeDecimal(ReadDecimal("-" + (ip + "." + fp)), -(DigitsValue(ip) as int), -(DigitsValue(fp) as int), |fp|);
  }

  /** Reading sign, digits, dot, digits. */
  lemma ReadParts(neg: bool, ip: string, fp: string)
    requires DigitParts(ip, fp)
    ensures ReadDecimal((if neg then "-" else "") + ip + "." + fp) ==
      if neg then Some(Decimal(-(DigitsValue(ip) as int), -(DigitsValue(fp) as int), |fp|))
      else Some(Decimal(DigitsValue(ip), DigitsValue(fp), |fp|))
  {
    if neg {
      assert "-" + ip + "." + fp == "-" + (ip + "." + fp);
      ReadNegative(ip, fp);
    } else {
      var s := "" + ip + "." + fp;
      assert s == ip + "." + fp && s[0] == ip[0] && IsDigit(ip[0]);
      ReadUnsigned(ip, fp);
    }
  }

  /** Reading a text made of a sign and two runs of digits whose values are known. */
  lemma ReadSignedText(s: string, neg: bool, ip: string, fp: string, e: Decimal)
    requires AllDigits(ip) && AllDigits(fp) && ip != [] && fp != []
    requires s == (if neg then "-" else "") + ip + "." + fp
    requires e.decPlaces == |fp|
    requires neg ==> e.integer == -(DigitsValue(ip) as int) && e.decimal == -(DigitsValue(fp) as int)
    requires !neg ==> e.integer == DigitsValue(ip) && e.decimal == DigitsValue(fp)
    ensures ReadDecimal(s) == Some(e)
  {
    ReadParts(neg, ip, fp);
  }

  /** Padded digits of x < 10^places: what they denote and how many there are. */
  lemma FractionDigits(x: nat, places: nat)
    requires x < Pow10(places)
    ensures var f := PadZeros(NatToString(x), places);
      AllDigits(f) && DigitsValue(f) == x && |f| == (if places == 0 then 1 else places)
  {
    NatToStringRoundTrip(x);
    PadZerosValue(NatToString(x), places);
    if places >= 1 {
      NatToStringLength(x, places);
    }
  }

  /**
   * Reading back the intended `String` text gives the decimal itself; one
   * with no places comes back with one (its text ends in ".0").
   */
  lemma TextRoundTrip(d: Decimal)
    requires WellFormed(d)
    ensures ReadDecimal(DecimalText(d)) == Some(if d.decPlaces == 0 then d.(decPlaces := 1) else d)
  {
    var ip := NatToString(Abs(d.integer));
    var fp := FractionText(d);
    NatToStringRoundTrip(Abs(d.integer));
    FractionDigits(Abs(d.decimal), d.decPlaces);
    ReadSignedText(DecimalText(d), d.integer < 0 || d.decimal < 0, ip, fp,
      if d.decPlaces == 0 then d.(decPlaces := 1) else d);
  }

  /** The intended text tells apart any two well-formed decimals with the same places. */
  lemma TextInjective(a: Decimal, b: Decimal)
    requires WellFormed(a) && WellFormed(b) && a.decPlaces == b.decPlaces
    requires DecimalText(a) == DecimalText(b)
    ensures a == b
  {
    TextRoundTrip(a);
    TextRoundTrip(b);
  }

  /** The as-written text loses the sign of -0.5: it reads back as 0.5. */
  lemma TextAsWrittenLosesSign()
    ensures WellFormed(Decimal(0, -5, 1)) && RealValue(Decimal(0, -5, 1)) == -0.5
    ensures TextAsWritten(Decimal(0, -5, 1)) == "0.5" == TextAsWritten(Decimal(0, 5, 1))
    ensures ReadDecimal(TextAsWritten(Decimal(0, -5, 1))) == Some(Decimal(0, 5, 1))
  {
    assert Pow10(1) == 10;
    assert FractionText(Decimal(0, -5, 1)) == "5";
    ReadParts(false, "0", "5");
  }

  /** Euclidean division of -v, for v < 0, through the division of v. */
  lemma NegatedSplit(v: int, p: int)
    requires v < 0 && p > 0
    ensures v % p == 0 ==> (-v) / p == -(v / p) && (-v) % p == 0
    ensures v % p != 0 ==> (-v) / p == -(v / p + 1) && (-v) % p == p - v % p
  {
    SplitFacts(v, p);
    var q, m := v / p, v % p;
    if m == 0 {
      DivModUnique(-v, p, -q, 0);
    } else {
      DivModUnique(-v, p, -(q + 1), p - m);
    }
  }

  /**
   * Reading back the intended text of v at n places gives the split
   * `fromScaledInt` makes of v (at one place when n is 0).
   */
  lemma ScaledTextRoundTrip(v: int, n: nat)
    ensures ReadDecimal(ScaledText(v, n)) == Some(if n == 0 then Decimal(v, 0, 1) else FromScaledInt(v, n))
  {
    var p := Pow10(n);
    SplitFacts(Abs(v), p);
    var ip := NatToString(Abs(v) / p);
    var fp := PadZeros(NatToString(Abs(v) % p), n);
    NatToStringRoundTrip(Abs(v) / p);
    FractionDigits(Abs(v) % p, n);
    SplitOfMagnitude(v, n);
    ReadSignedText(ScaledText(v, n), v < 0, ip, fp, if n == 0 then Decimal(v, 0, 1) else FromScaledInt(v, n));
  }

  /** The split of v at n places, through the quotient and remainder of |v|. */
  lemma SplitOfMagnitude(v: int, n: nat)
    ensures var p := Pow10(n); var e := if n == 0 then Decimal(v, 0, 1) else FromScaledInt(v, n);
      (v < 0 ==> e.integer == -(Abs(v) / p) && e.decimal == -(Abs(v) % p)) &&
      (v >= 0 ==> e.integer == Abs(v) / p && e.decimal == Abs(v) % p)
  {
    var p := Pow10(n);
    if n == 0 {
      DivModUnique(Abs(v), 1, Abs(v), 0);
    }
    if v < 0 {
      NegatedSplit(v, p);
    }
  }

  /**
   * Reading back the intended `StringFixed(n)` text, n at least 1 and at
   * least the decimal's places, gives a decimal that stands for the same number.
   */
  lemma FixedTextRoundTrip(d: Decimal, n: nat)
    requires n >= 1 && n >= d.decPlaces
    ensures ReadDecimal(FixedText(d, n)).Some?
    ensures ReadDecimal(FixedText(d, n)).value.decPlaces == n
    ensures RealValue(ReadDecimal(FixedText(d, n)).value) == RealValue(d)
  {
    ScaledTextRoundTrip(ToScaledInt(d, n), n);
    FromScaledIntSplit(ToScaledInt(d, n), n);
    ScaledUpSameValue(d, n);
  }

  /** -1.5 at one place prints as "-2.5" as written. */
  lemma FixedTextAsWrittenFloors()
    ensures RealValue(Decimal(-1, -5, 1)) == -1.5
    ensures FixedTextAsWritten(Decimal(-1, -5, 1), 1) == "-2.5"
  {
    assert Pow10(1) == 10;
    assert ToScaledInt(Decimal(-1, -5, 1), 1) == -15;
    assert -15 / 10 == -2 && -15 % 10 == 5;
    assert ScaledTextAsWritten(-15, 1) == "-2" + "." + "5";
  }

  // ---------------------------------------------------------------------------
  // The arithmetic tests, on the decimals `NewDecimal` builds from their text.
  // ---------------------------------------------------------------------------

  /** "1" + "1" and "1" * "1": integers with no places. */
  lemma OneAndOne()
    ensures Add(Decimal(1, 0, 0), Decimal(1, 0, 0)) == Decimal(2, 0, 0)
    ensures Mul(Decimal(1, 0, 0), Decimal(1, 0, 0)) == Decimal(1, 0, 0)
  {
    assert Pow10(0) == 1;
    assert ToScaledInt(Decimal(1, 0, 0), 0) == 1;
    DivModUnique(2, 1, 2, 0);
    DivModUnique(1, 1, 1, 0);
  }

  /** With no places, the text still ends in ".0". */
  lemma NoPlacesText()
    ensures TextAsWritten(Decimal(2, 0, 0)) == "2.0"
    ensures TextAsWritten(Decimal(1, 0, 0)) == "1.0"
  {
    assert PadZeros("0", 0) == "0";
    assert FractionText(Decimal(2, 0, 0)) == "0";
    assert FractionText(Decimal(1, 0, 0)) == "0";
    assert IntToString(2) == "2" && IntToString(1) == "1";
  }

  /** "3.14" + "3.6666" and "3.14" * "3.6666". */
  lemma PiAndMore()
    ensures Add(Decimal(3, 14, 2), Decimal(3, 6666, 4)) == Decimal(6, 8066, 4)
    ensures Mul(Decimal(3, 14, 2), Decimal(3, 6666, 4)) == Decimal(11, 513124, 6)
  {
    assert Pow10(2) == 100 && Pow10(4) == 10000 && Pow10(6) == 1000000;
    assert ToScaledInt(Decimal(3, 14, 2), 4) == 31400;
    assert ToScaledInt(Decimal(3, 6666, 4), 4) == 36666;
    assert ToScaledInt(Decimal(3, 14, 2), 2) == 314;
    DivModUnique(68066, 10000, 6, 8066);
    DivModUnique(11513124, 1000000, 11, 513124);
  }

  /** The sum prints with all four of its places. */
  lemma PiAndMoreText()
    ensures TextAsWritten(Decimal(6, 8066, 4)) == "6.8066"
  {
    assert Pow10(4) == 10000;
    assert NatToString(8066) == "8066";
    assert PadZeros("8066", 4) == "8066";
  }

  /** "-1.5" + "2.5" and "-1.5" * "2.5". */
  lemma NegativeOperand()
    ensures Add(Decimal(-1, -5, 1), Decimal(2, 5, 1)) == Decimal(1, 0, 1)
    ensures Mul(Decimal(-1, -5, 1), Decimal(2, 5, 1)) == Decimal(-3, -75, 2)
  {
    assert Pow10(1) == 10 && Pow10(2) == 100;
    assert ToScaledInt(Decimal(-1, -5, 1), 1) == -15;
    assert ToScaledInt(Decimal(2, 5, 1), 1) == 25;
    DivModUnique(10, 10, 1, 0);
    DivModUnique(-375, 100, -4, 25);
  }

  /** Their texts. */
  lemma NegativeOperandText()
    ensures TextAsWritten(Decimal(1, 0, 1)) == "1.0"
    ensures TextAsWritten(Decimal(-3, -75, 2)) == "-3.75"
  {
    assert Pow10(1) == 10 && Pow10(2) == 100;
    assert NatToString(75) == "75";
    assert NatToString(3) == "3";
  }
}
