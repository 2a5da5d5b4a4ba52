// Hexadecimal notation for floats (floats.c): the printer, the parser, and the
// exact round trip between them.

module HexFloat {
  import opened Basics
  import opened Values

  const INT_MAX: int := 0x7FFF_FFFF
  const INT_MIN: int := -0x8000_0000

  function Pow16(k: nat): (r: nat)
    ensures r > 0
  {
    if k == 0 then 1 else 16 * Pow16(k - 1)
  }

  lemma {:induction false} Pow16Add(j: nat, k: nat)
    ensures Pow16(j + k) == Pow16(j) * Pow16(k)
    decreases k
  {
    if k > 0 {
      Pow16Add(j, k - 1);
      assert Pow16(j + k) == 16 * Pow16(j + (k - 1));
      assert Pow16(j) * Pow16(k) == 16 * (Pow16(j) * Pow16(k - 1));
    }
  }

  lemma Pow16Of13()
    ensures Pow16(13) == 0x10_0000_0000_0000
  {
    assert Pow16(4) == 0x1_0000;
    assert Pow16(8) == 0x1_0000_0000;
    assert Pow16(12) == 0x1_0000_0000_0000;
  }

  // ---------------------------------------------------------------- rounding

  /** a / b rounded to the nearest integer, ties to even. */
  function NearestEven(a: nat, b: nat): nat
    requires b > 0
  {
    var q, r := a / b, a % b;
    if 2 * r > b || (2 * r == b && q % 2 == 1) then q + 1 else q
  }

  lemma DivMod(a: nat, b: nat)
    requires b > 0
    ensures a == (a / b) * b + a % b && 0 <= a % b < b && a % b <= a
  {
    ProductIsNat(a / b, b);
  }

  lemma ProductIsNat(a: nat, b: nat)
    ensures a * b >= 0
  {
  }

  lemma NearestIsNearest(a: nat, b: nat)
    requires b > 0
    ensures var n := NearestEven(a, b); var e: int := 2 * (a - n * b); e <= b && -e <= b && (e == b || -e == b ==> n % 2 == 0)
  {
    DivMod(a, b);
    var q := a / b;
    assert (q + 1) * b == q * b + b;
  }

  // ---------------------------------------------------------------- digits

  /** `v` with hexadecimal digits appended. */
  function Value(v: nat, ds: seq<nat>): nat
    decreases |ds|
  {
    if ds == [] then v else 16 * Value(v, ds[..|ds| - 1]) + ds[|ds| - 1]
  }

  /** The number that a sequence of hexadecimal digits denotes. */
  function Digits(ds: seq<nat>): nat {
    Value(0, ds)
  }

  lemma ValueSnoc(v: nat, ds: seq<nat>, d: nat)
    ensures Value(v, ds + [d]) == 16 * Value(v, ds) + d
  {
    assert (ds + [d])[..|ds|] == ds;
  }

  lemma DigitsSnoc(ds: seq<nat>, d: nat)
    ensures Digits(ds + [d]) == 16 * Digits(ds) + d
  {
    ValueSnoc(0, ds, d);
  }

  lemma {:induction false} ValueConcat(v: nat, a: seq<nat>, b: seq<nat>)
    ensures Value(v, a + b) == Value(Value(v, a), b)
    decreases |b|
  {
    if b == [] {
      assert a + b == a;
    } else {
      var front, d := b[..|b| - 1], b[|b| - 1];
      ValueConcat(v, a, front);
      assert a + b == (a + front) + [d];
      ValueSnoc(v, a + front, d);
    }
  }

  ghost predicate HexDigits(ds: seq<nat>) {
    forall i :: 0 <= i < |ds| ==> ds[i] < 16
  }

  /** The digits printed so far are those of `m`, except for the rest that the register holds. */
  ghost predicate Printing(m: nat, ds: seq<nat>, reg: nat) {
    && |ds| >= 1 && HexDigits(ds) && reg % 16 == 0 && reg < 0x100_0000_0000_0000
    && Digits(ds) * 0x10_0000_0000_0000 + reg / 16 == m * Pow16(|ds| - 1)
  }

  lemma ShiftRegister(reg: nat)
    requires reg < 0x100_0000_0000_0000
    ensures (reg * 16) % 0x100_0000_0000_0000 == 16 * (reg % 0x10_0000_0000_0000)
    ensures reg == (reg / 0x10_0000_0000_0000) * 0x10_0000_0000_0000 + reg % 0x10_0000_0000_0000
    ensures reg / 0x10_0000_0000_0000 < 16
  {
  }

  /** d = m >> 52; m = (m << 4) & (2^56 - 1) */
  lemma NextDigit(m: nat, ds: seq<nat>, reg: nat)
    requires Printing(m, ds, reg)
    ensures Printing(m, ds + [reg / 0x10_0000_0000_0000], (reg * 16) % 0x100_0000_0000_0000)
  {
    var d, rest := reg / 0x10_0000_0000_0000, reg % 0x10_0000_0000_0000;
    ShiftRegister(reg);
    DigitsSnoc(ds, d);
    PrintingStep(m, Digits(ds), reg, d, rest, Pow16(|ds| - 1));
  }

  lemma PrintingStep(m: nat, ds: nat, reg: nat, d: nat, rest: nat, p: nat)
    requires reg % 16 == 0 && reg == d * 0x10_0000_0000_0000 + rest
    requires ds * 0x10_0000_0000_0000 + reg / 16 == m * p
    ensures (16 * ds + d) * 0x10_0000_0000_0000 + rest == m * (16 * p)
  {
    assert m * (16 * p) == 16 * (m * p);
  }

  lemma FirstDigit(m: nat)
    requires m < 16 * 0x10_0000_0000_0000
    ensures Printing(m, [m / 0x10_0000_0000_0000], (m * 16) % 0x100_0000_0000_0000)
  {
    ShiftRegister(m);
    DigitsSnoc([], m / 0x10_0000_0000_0000);
    assert [] + [m / 0x10_0000_0000_0000] == [m / 0x10_0000_0000_0000];
  }

  lemma MultipleBelow(x: int, r: int)
    requires x * 0x10_0000_0000_0000 == r && 0 <= r < 0x10_0000_0000_0000
    ensures r == 0 && x == 0
  {
  }

  /** After thirteen digits nothing is left. */
  lemma NothingLeft(m: nat, ds: seq<nat>, reg: nat)
    requires Printing(m, ds, reg) && |ds| == 14
    ensures reg == 0
  {
    Pow16Of13();
    MultipleBelow(m - Digits(ds), reg / 16);
  }

  lemma MulAssoc(a: nat, b: nat, c: nat)
    ensures a * b * c == a * (b * c)
  {
  }

  /** A mantissa that has been rounded to `prec` digits is printed exactly. */
  lemma RoundedDigits(q: nat, prec: nat, ds: seq<nat>, reg: nat)
    requires prec <= 13 && Printing(q * Pow16(13 - prec), ds, reg) && |ds| == prec + 1
    ensures Digits(ds) == q && reg == 0
  {
    Pow16Of13();
    Pow16Add(13 - prec, prec);
    MulAssoc(q, Pow16(13 - prec), Pow16(prec));
    MultipleBelow(q - Digits(ds), reg / 16);
  }

  // ---------------------------------------------------------------- decimal exponents

  function DigitChar(d: nat): char
    requires d < 16
  {
    if d < 10 then ('0' as int + d) as char else ('a' as int + (d - 10)) as char
  }

  function CharDigit(c: char): Option<nat> {
    if '0' <= c <= '9' then Some(c as int - '0' as int)
    else if 'A' <= c <= 'F' then Some(c as int - 'A' as int + 10)
    else if 'a' <= c <= 'f' then Some(c as int - 'a' as int + 10)
    else None
  }

  lemma CharDigitOf(d: nat)
    requires d < 16
    ensures CharDigit(DigitChar(d)) == Some(d) && DigitChar(d) != '.' && DigitChar(d) != 'p' && DigitChar(d) != 'P'
  {
  }

  function Decimal(n: nat): (s: string)
    ensures |s| > 0
  {
    if n < 10 then [DigitChar(n)] else Decimal(n / 10) + [DigitChar(n % 10)]
  }

  /** The format %+d */
  function SignedDecimal(e: int): (s: string)
    ensures |s| > 1
  {
    if e < 0 then "-" + Decimal(-e) else "+" + Decimal(e)
  }

  /** A non-empty sequence of decimal digits. */
  function DecimalValue(s: string): Option<nat>
    decreases |s|
  {
    if s == "" then None
    else
      var c := s[|s| - 1];
      if !('0' <= c <= '9') then None
      else
        var d := c as int - '0' as int;
        if |s| == 1 then Some(d)
        else
          var rest := DecimalValue(s[..|s| - 1]);
          if rest.None? then None else Some(10 * rest.value + d)
  }

  function Negated(n: Option<int>): Option<int> {
    match n case None => None case Some(v) => Some(-v)
  }

  /** strtol in base 10 on a string that it consumes entirely; white space is not part of this model. */
  function StrToL(s: string): Option<int> {
    if s == "" then None
    else if s[0] == '-' then Negated(DecimalValue(s[1..]))
    else if s[0] == '+' then DecimalValue(s[1..])
    else DecimalValue(s)
  }

  lemma {:induction false} DecimalRoundTrip(n: nat)
    ensures DecimalValue(Decimal(n)) == Some(n)
  {
    if n >= 10 {
      DecimalRoundTrip(n / 10);
      var s := Decimal(n);
      assert s[..|s| - 1] == Decimal(n / 10) && s[|s| - 1] == DigitChar(n % 10);
    }
  }

  lemma ExponentRoundTrip(e: int)
    ensures StrToL(SignedDecimal(e)) == Some(e)
  {
    var s := SignedDecimal(e);
    DecimalRoundTrip(if e < 0 then -e else e);
    assert s[1..] == Decimal(if e < 0 then -e else e);
  }

  // ---------------------------------------------------------------- the printer

  function Chars(ds: seq<nat>): (s: string)
    requires forall i :: 0 <= i < |ds| ==> ds[i] < 16
    ensures |s| == |ds|
  {
    seq(|ds|, i requires 0 <= i < |ds| && (forall j :: 0 <= j < |ds| ==> ds[j] < 16) => DigitChar(ds[i]))
  }

  /** Digits, decimal point and exponent, as the printer writes them after "0x". */
  function Body(ds: seq<nat>, e: int): string
    requires ds != [] && forall i :: 0 <= i < |ds| ==> ds[i] < 16
  {
    Chars(ds[..1]) + (if |ds| > 1 then "." + Chars(ds[1..]) else "") + "p" + SignedDecimal(e)
  }

  function SignText(neg: bool, style: char): string {
    if neg then "-" else if style == '+' then "+" else if style == ' ' then " " else ""
  }

  predicate IsFinite(d: Double) {
    d.exp != 2047
  }

  /** A finite double is Significand * 2^(Exponent - 52). */
  function Exponent(d: Double): (e: int)
    ensures -1022 <= e <= 1024
  {
    if d.exp == 0 then (if d.mant != 0 then -1022 else 0) else d.exp - 1023
  }

  /** What the digits mean: the number itself, written in as few digits as possible without a
      precision; rounded to nearest, ties to even, with a precision below 13. */
  ghost predicate Printed(m: nat, prec: int, ds: seq<nat>) {
    && ds != [] && HexDigits(ds)
    && if 0 <= prec < 13 then |ds| == prec + 1 && Digits(ds) == NearestEven(m, Pow16(13 - prec))
       else
         && Digits(ds) * 0x10_0000_0000_0000 == m * Pow16(|ds| - 1)
         && if prec >= 13 then |ds| == prec + 1 else |ds| <= 14 && (|ds| == 1 || ds[|ds| - 1] != 0)
  }

  lemma DivLess(x: nat, q: nat, d: nat)
    requires d > 0 && x < d * q
    ensures x / d < q
  {
  }

  lemma MulLe(a: nat, b: nat, c: nat)
    requires a <= b
    ensures a * c <= b * c
  {
  }

  /** Rounding up does not pass 2^53, which is a multiple of the unit. */
  lemma RoundedBound(m: nat, prec: nat)
    requires prec < 13 && m < 0x20_0000_0000_0000
    ensures NearestEven(m, Pow16(13 - prec)) * Pow16(13 - prec) <= 0x20_0000_0000_0000
  {
    var unit, p := Pow16(13 - prec), Pow16(prec);
    Pow16Of13();
    Pow16Add(13 - prec, prec);
    MulAssoc(2, p, unit);
    assert unit * (2 * p) == 0x20_0000_0000_0000;
    DivLess(m, 2 * p, unit);
    MulLe(NearestEven(m, unit), 2 * p, unit);
  }

  /** The mantissa rounded to the given precision. */
  method RoundMantissa(m0: nat, prec: nat) returns (m: nat)
    requires prec < 13 && m0 < 0x20_0000_0000_0000
    ensures m == NearestEven(m0, Pow16(13 - prec)) * Pow16(13 - prec) && m <= 0x20_0000_0000_0000
  {
    RoundedBound(m0, prec);
    var unit := Pow16(13 - prec);
    m := RoundToUnit(m0, unit, Pow16(12 - prec));
  }

  /** The bit operations on `unit`, a power of two, as divisions. */
  method RoundToUnit(m0: nat, unit: nat, ghost u: nat) returns (m: nat)
    requires unit == 16 * u > 0
    ensures m == NearestEven(m0, unit) * unit
  {
    var half := unit / 2;
    var frac, q := m0 % unit, m0 / unit;
    DivMod(m0, unit);
    assert (q + 1) * unit == q * unit + unit;
    m := m0 - frac;
    if frac > half || (frac == half && q % 2 != 0) {
      m := m + unit;
    }
  }

  /** The digits after the leading one: as many as `prec` asks for, or as many as are needed. */
  method PrintDigits(m: nat, prec0: int) returns (ds: seq<nat>)
    requires m < 0x100_0000_0000_0000
    ensures ds != [] && HexDigits(ds) && exists reg: nat :: Printing(m, ds, reg) && (prec0 < 0 ==> reg == 0)
    ensures if prec0 >= 0 then |ds| == prec0 + 1 else |ds| <= 14 && (|ds| == 1 || ds[|ds| - 1] != 0)
  {
    var prec := prec0;
    FirstDigit(m);
    ds := [m / 0x10_0000_0000_0000];
    var reg: nat := (m * 16) % 0x100_0000_0000_0000;
    while if prec >= 0 then prec > 0 else reg != 0
      invariant Printing(m, ds, reg) && (prec0 >= 0 <==> prec >= 0)
      invariant if prec0 >= 0 then |ds| + prec == prec0 + 1 else |ds| <= 14 && (|ds| == 1 || reg != 0 || ds[|ds| - 1] != 0)
      decreases if prec0 >= 0 then prec else 14 - |ds|
    {
      if prec0 < 0 && |ds| == 14 { NothingLeft(m, ds, reg); }
      NextDigit(m, ds, reg);
      ShiftRegister(reg);
      ds := ds + [reg / 0x10_0000_0000_0000];
      reg := (reg * 16) % 0x100_0000_0000_0000;
      prec := prec - 1;
    }
  }

  /** Rounding if a small precision is given, then the digits. */
  method PrintMantissa(m0: nat, prec: int) returns (ds: seq<nat>)
    requires m0 < 0x20_0000_0000_0000
    ensures Printed(m0, prec, ds)
  {
    if 0 <= prec < 13 {
      var m := RoundMantissa(m0, prec);
      ds := PrintDigits(m, prec);
      ghost var reg: nat :| Printing(m, ds, reg);
      RoundedDigits(NearestEven(m0, Pow16(13 - prec)), prec, ds, reg);
    } else {
      ds := PrintDigits(m0, prec);
      ghost var reg: nat :| Printing(m0, ds, reg) && (prec < 0 ==> reg == 0);
      if prec >= 13 { LongDigits(m0, prec, ds, reg); }
    }
  }

  /** caml_hexstring_of_float */
  method HexStringOfFloat(d: Double, prec: int, style: char) returns (s: string, ghost ds: seq<nat>)
    ensures !IsFinite(d) ==> s == SignText(d.neg, style) + if d.mant == 0 then "infinity" else "nan"
    ensures IsFinite(d) ==> Printed(Significand(d), prec, ds) && s == SignText(d.neg, style) + "0x" + Body(ds, Exponent(d))
  {
    s := SignText(d.neg, style);
    ds := [];
    if d.exp == 2047 {
      s := s + if d.mant == 0 then "infinity" else "nan";
      return;
    }
    s := s + "0x";
    var exp: int, m: nat := d.exp, d.mant;
    if exp == 0 {
      if m != 0 { exp := -1022; }
    } else {
      exp := exp - 1023;
      m := 0x10_0000_0000_0000 + m;
    }
    var digits := PrintMantissa(m, prec);
    ds := digits;
    var body := Chars(digits[..1]) + if |digits| > 1 then "." + Chars(digits[1..]) else "";
    s := s + (body + "p" + SignedDecimal(exp));
  }

  lemma LongDigits(m: nat, prec: nat, ds: seq<nat>, reg: nat)
    requires prec >= 13 && Printing(m, ds, reg) && |ds| == prec + 1
    ensures reg == 0
  {
    Pow16Of13();
    Pow16Add(13, prec - 13);
    MulAssoc(m, Pow16(prec - 13), 0x10_0000_0000_0000);
    MultipleBelow(m * Pow16(prec - 13) - Digits(ds), reg / 16);
  }

  // ---------------------------------------------------------------- the parser

  /** The variables of caml_float_of_hex. */
  datatype Parser = Parser(m: nat, nBits: nat, mBits: nat, xBits: nat, decPoint: int, exp: int)

  /** The number m * 2^exp, or the results for exponents that do not fit an int. */
  datatype Parsed = BadFormat | Number(m: nat, exp: int) | Zero | Huge

  const START: Parser := Parser(0, 0, 0, 0, -1, 0)

  /** One hexadecimal digit: leading zeros are skipped, 60 significant bits are kept, and a nonzero digit
      beyond them makes the mantissa odd. */
  function AddDigit(st: Parser, d: nat): Parser {
    var t := st.(nBits := st.nBits + 4);
    if d == 0 && st.m == 0 then t
    else if st.mBits < 60 then t.(m := st.m * 16 + d, mBits := st.mBits + 4)
    else t.(m := if d != 0 && st.m % 2 == 0 then st.m + 1 else st.m, xBits := st.xBits + 4)
  }

  /** The exponent with the decimal point and the extra digits taken into account, saturated. */
  function Finish(st: Parser): Parsed {
    if st.nBits == 0 then BadFormat
    else
      var adj := st.xBits + if st.decPoint >= 0 then st.decPoint - st.nBits else 0;
      Number(st.m, if adj > 0 && st.exp > INT_MAX - adj then INT_MAX
                   else if adj < 0 && st.exp < INT_MIN - adj then INT_MIN else st.exp + adj)
  }

  function ParseExponent(st: Parser, s: string): Parsed {
    match StrToL(s)
    case None => BadFormat
    case Some(e) => if e <= INT_MIN then Zero else if e >= INT_MAX then (if st.m == 0 then Zero else Huge) else Finish(st.(exp := e))
  }

  /** The loop of the parser from state `st` on the rest of the text. */
  function ParseFrom(st: Parser, s: string): Parsed
    decreases |s|
  {
    if s == "" then Finish(st)
    else if s[0] == '.' then (if st.decPoint >= 0 then BadFormat else ParseFrom(st.(decPoint := st.nBits), s[1..]))
    else if s[0] == 'p' || s[0] == 'P' then ParseExponent(st, s[1..])
    else match CharDigit(s[0])
      case None => BadFormat
      case Some(d) => ParseFrom(AddDigit(st, d), s[1..])
  }

  /** caml_float_of_hex on the text after the prefix; the conversion of the result to a double is exact
      whenever m * 2^exp is a double. */
  method FloatOfHex(s: string) returns (r: Parsed)
    ensures r == ParseFrom(START, s)
  {
    var st := START;
    var i := 0;
    assert s[0..] == s;
    while i < |s|
      invariant 0 <= i <= |s| && ParseFrom(START, s) == ParseFrom(st, s[i..])
    {
      var c := s[i];
      assert s[i..][0] == c && s[i..][1..] == s[i + 1..];
      i := i + 1;
      if c == '.' {
        if st.decPoint >= 0 { return BadFormat; }
        st := st.(decPoint := st.nBits);
      } else if c == 'p' || c == 'P' {
        if i == |s| { return BadFormat; }
        return ParseExponent(st, s[i..]);
      } else {
        var d := CharDigit(c);
        if d.None? { return BadFormat; }
        st := AddDigit(st, d.value);
      }
    }
    r := Finish(st);
  }

  function Lower(c: char): char {
    if 'A' <= c <= 'Z' then (c as int + 32) as char else c
  }

  function LowerAll(s: string): string {
    seq(|s|, i requires 0 <= i < |s| => Lower(s[i]))
  }

  lemma {:induction false} LowerDecimal(s: string)
    ensures DecimalValue(LowerAll(s)) == DecimalValue(s)
    decreases |s|
  {
    if s != "" {
      assert LowerAll(s)[..|s| - 1] == LowerAll(s[..|s| - 1]);
      LowerDecimal(s[..|s| - 1]);
    }
  }

  /** Capital letters, in digits and before the exponent, mean what small ones do. */
  lemma {:induction false} CaseDoesNotMatter(st: Parser, s: string)
    ensures ParseFrom(st, LowerAll(s)) == ParseFrom(st, s)
    decreases |s|
  {
    if s != "" {
      assert LowerAll(s)[1..] == LowerAll(s[1..]);
      if s[0] == 'p' || s[0] == 'P' {
        LowerExponent(s[1..]);
      } else if s[0] == '.' {
        if st.decPoint < 0 { CaseDoesNotMatter(st.(decPoint := st.nBits), s[1..]); }
      } else if CharDigit(s[0]).Some? {
        CaseDoesNotMatter(AddDigit(st, CharDigit(s[0]).value), s[1..]);
      }
    }
  }

  lemma LowerExponent(s: string)
    ensures StrToL(LowerAll(s)) == StrToL(s)
  {
    LowerDecimal(s);
    if s != "" {
      assert LowerAll(s)[1..] == LowerAll(s[1..]);
      LowerDecimal(s[1..]);
    }
  }

  /** Without an exponent the text means what it means with exponent 0. */
  lemma {:induction false} ExponentMayBeMissing(st: Parser, s: string)
    requires st.exp == 0 && forall i :: 0 <= i < |s| ==> s[i] != 'p' && s[i] != 'P'
    ensures ParseFrom(st, s + "p+0") == ParseFrom(st, s)
    decreases |s|
  {
    if s == "" {
      assert s + "p+0" == "p+0" && "p+0"[1..] == "+0" && "+0"[1..] == "0";
      assert DecimalValue("0") == Some(0);
    } else {
      assert (s + "p+0")[1..] == s[1..] + "p+0";
      if s[0] == '.' {
        if st.decPoint < 0 { ExponentMayBeMissing(st.(decPoint := st.nBits), s[1..]); }
      } else if CharDigit(s[0]).Some? {
        ExponentMayBeMissing(AddDigit(st, CharDigit(s[0]).value), s[1..]);
      }
    }
  }

  // ---------------------------------------------------------------- what the parser reads

  /** `m` is v / b, or the odd one of the two integers around it. */
  ghost predicate OddRound(m: nat, v: nat, b: nat) {
    v == m * b || (m % 2 == 1 && (m - 1) * b < v < (m + 1) * b)
  }

  /** The parser has read `n` digits of value `v`: up to 60 bits exactly, the rest rounded to odd. */
  ghost predicate HasRead(st: Parser, n: nat, v: nat) {
    && st.nBits == 4 * n && st.mBits <= 60 && st.mBits <= st.nBits && st.mBits % 4 == 0 && st.xBits % 4 == 0
    && (st.xBits > 0 ==> st.mBits == 60 && st.nBits > 60) && (st.m == 0 ==> v == 0 && st.mBits == 0)
    && OddRound(st.m, v, Pow16(st.xBits / 4))
  }

  lemma OddStep(m: nat, v: nat, b: nat, d: nat)
    requires b > 0 && d < 16 && OddRound(m, v, b)
    ensures OddRound(if d != 0 && m % 2 == 0 then m + 1 else m, 16 * v + d, 16 * b)
  {
    var a := m * b;
    assert (m - 1) * b == a - b && (m + 1) * b == a + b;
    assert m * (16 * b) == 16 * a;
    assert (m - 1) * (16 * b) == 16 * a - 16 * b && (m + 1) * (16 * b) == 16 * a + 16 * b && (m + 2) * (16 * b) == 16 * a + 32 * b;
  }

  lemma ReadDigit(st: Parser, n: nat, v: nat, d: nat)
    requires HasRead(st, n, v) && d < 16
    ensures HasRead(AddDigit(st, d), n + 1, 16 * v + d)
  {
    var k := st.xBits / 4;
    if st.mBits < 60 {
      assert Pow16(k) == 1;
      assert st.m * 1 == st.m && (st.m - 1) * 1 == st.m - 1 && (st.m + 1) * 1 == st.m + 1;
      assert (16 * st.m + d) * 1 == 16 * st.m + d;
    } else {
      assert (st.xBits + 4) / 4 == k + 1 && Pow16(k + 1) == 16 * Pow16(k);
      OddStep(st.m, v, Pow16(k), d);
    }
  }

  lemma ParseDigit(st: Parser, d: nat, rest: string)
    requires d < 16
    ensures ParseFrom(st, [DigitChar(d)] + rest) == ParseFrom(AddDigit(st, d), rest)
  {
    CharDigitOf(d);
    assert ([DigitChar(d)] + rest)[1..] == rest;
  }

  lemma CharsLast(ds: seq<nat>, rest: string)
    requires ds != [] && HexDigits(ds)
    ensures Chars(ds) + rest == Chars(ds[..|ds| - 1]) + ([DigitChar(ds[|ds| - 1])] + rest)
  {
  }

  /** Reading a sequence of digits. */
  lemma {:induction false} ReadDigits(st: Parser, n: nat, v: nat, ds: seq<nat>, rest: string) returns (st': Parser)
    requires HasRead(st, n, v) && HexDigits(ds)
    ensures HasRead(st', n + |ds|, Value(v, ds)) && st'.decPoint == st.decPoint && st'.exp == st.exp
    ensures ParseFrom(st, Chars(ds) + rest) == ParseFrom(st', rest)
    decreases |ds|
  {
    if ds == [] {
      st' := st;
      assert Chars([]) + rest == rest;
    } else {
      var front, d := ds[..|ds| - 1], ds[|ds| - 1];
      CharsLast(ds, rest);
      var t := ReadDigits(st, n, v, front, [DigitChar(d)] + rest);
      ParseDigit(t, d, rest);
      ReadDigit(t, n + |front|, Value(v, front), d);
      st' := AddDigit(t, d);
    }
  }

  // ---------------------------------------------------------------- the round trip

  lemma ParseDot(st: Parser, rest: string)
    requires st.decPoint < 0
    ensures ParseFrom(st, "." + rest) == ParseFrom(st.(decPoint := st.nBits), rest)
  {
    assert ("." + rest)[1..] == rest;
  }

  lemma ParseP(st: Parser, e: int)
    requires INT_MIN < e < INT_MAX
    ensures ParseFrom(st, "p" + SignedDecimal(e)) == Finish(st.(exp := e))
  {
    ExponentRoundTrip(e);
    assert ("p" + SignedDecimal(e))[1..] == SignedDecimal(e);
  }

  /** The text that the printer writes after the prefix is read as its digits and its exponent. */
  lemma ReadBody(ds: seq<nat>, e: int) returns (st: Parser)
    requires ds != [] && HexDigits(ds)
    ensures HasRead(st, |ds|, Digits(ds)) && st.decPoint == if |ds| > 1 then 4 else -1
    ensures INT_MIN < e < INT_MAX ==> ParseFrom(START, Body(ds, e)) == Finish(st.(exp := e))
  {
    var tail := "p" + SignedDecimal(e);
    assert HasRead(START, 0, 0) by { assert Pow16(0) == 1; }
    if |ds| > 1 {
      assert Body(ds, e) == Chars(ds[..1]) + ("." + (Chars(ds[1..]) + tail));
      var first := ReadDigits(START, 0, 0, ds[..1], "." + (Chars(ds[1..]) + tail));
      ParseDot(first, Chars(ds[1..]) + tail);
      st := ReadDigits(first.(decPoint := first.nBits), 1, Value(0, ds[..1]), ds[1..], tail);
      ValueConcat(0, ds[..1], ds[1..]);
      assert ds[..1] + ds[1..] == ds;
    } else {
      assert ds[..1] == ds && Body(ds, e) == Chars(ds) + tail;
      st := ReadDigits(START, 0, 0, ds, tail);
    }
    if INT_MIN < e < INT_MAX { ParseP(st, e); }
  }

  lemma ExactUpTo60Bits(st: Parser, n: nat, v: nat)
    requires HasRead(st, n, v) && n <= 15
    ensures st.m == v && st.xBits == 0
  {
    assert Pow16(0) == 1;
  }

  lemma CancelRight(a: nat, b: nat, c: nat)
    requires c > 0 && a * c == b * c
    ensures a == b
  {
  }

  /** digits * 16^13 == m * 16^k, without the common factor. */
  lemma SameNumber(digits: nat, m: nat, k: nat)
    requires k <= 13 && digits * 0x10_0000_0000_0000 == m * Pow16(k)
    ensures digits * Pow16(13 - k) == m
  {
    Pow16Of13();
    Pow16Add(13 - k, k);
    MulAssoc(digits, Pow16(13 - k), Pow16(k));
    CancelRight(digits * Pow16(13 - k), m, Pow16(k));
  }

  lemma FinishExactly(st: Parser, n: nat, e: int)
    requires 1 <= n <= 14 && st.nBits == 4 * n && st.xBits == 0 && st.decPoint == (if n > 1 then 4 else -1)
             && -1022 <= e <= 1024
    ensures Finish(st.(exp := e)) == Number(st.m, e - 4 * (n - 1))
  {
  }

  lemma ShortestDigits(m: nat, ds: seq<nat>)
    requires Printed(m, -1, ds)
    ensures ds != [] && HexDigits(ds) && |ds| <= 14 && Digits(ds) * Pow16(14 - |ds|) == m
  {
    SameNumber(Digits(ds), m, |ds| - 1);
  }

  /** For every finite double, subnormals and zero included: the digits printed without a precision, read
      back, denote exactly the same number, Significand * 2^(Exponent - 52). */
  lemma PrintParseRoundTrip(d: Double, ds: seq<nat>)
    requires IsFinite(d) && Printed(Significand(d), -1, ds)
    ensures |ds| <= 14
    ensures var r := ParseFrom(START, Body(ds, Exponent(d)));
            r.Number? && r.exp == Exponent(d) - 52 + 4 * (14 - |ds|) && r.m * Pow16(14 - |ds|) == Significand(d)
  {
    ShortestDigits(Significand(d), ds);
    var st := ReadBody(ds, Exponent(d));
    ExactUpTo60Bits(st, |ds|, Digits(ds));
    FinishExactly(st, |ds|, Exponent(d));
  }

  /** `n` is v / u rounded to the nearest integer, ties to even. */
  ghost predicate Nearest(n: int, v: int, u: int) {
    var e := 2 * (v - n * u);
    e <= u && -e <= u && (e == u || -e == u ==> n % 2 == 0)
  }

  /** Rounding to odd first does not change the later rounding to nearest even, which is why the parser
      may drop bits.  The unit in the last place of the result, 4 * w, is at least 16 for 57 bits or
      more. */
  lemma RoundToOddIsInnocuous(m: nat, v: nat, b: nat, w: nat, n: int)
    requires b > 0 && w > 0 && OddRound(m, v, b) && Nearest(n, m, 4 * w)
    ensures Nearest(n, v, b * (4 * w))
  {
    var y := n * w;
    var delta: int := m - 4 * y;
    UnitTimes(n, w, b);
    Distribute(m, y, b);
    if v == m * b {
      ScaledNearest(n, delta, b, w);
    } else {
      WithinHalf(delta, 2 * w, b);
      Around(m, b);
      TwiceTimes(w, b);
    }
  }

  lemma UnitTimes(n: int, w: int, b: int)
    ensures n * (4 * w) == 4 * (n * w) && n * (b * (4 * w)) == 4 * ((n * w) * b) && b * (4 * w) == 4 * (w * b)
  {
  }

  lemma Distribute(m: int, y: int, b: int)
    ensures (m - 4 * y) * b == m * b - 4 * (y * b)
  {
  }

  lemma Around(m: int, b: int)
    ensures (m - 1) * b == m * b - b && (m + 1) * b == m * b + b
  {
  }

  lemma TwiceTimes(w: int, b: int)
    ensures (2 * w) * b == 2 * (w * b)
  {
  }

  lemma MulLeInt(a: int, b: int, c: nat)
    requires a <= b
    ensures a * c <= b * c
  {
  }

  lemma WithinHalf(delta: int, half: int, b: nat)
    requires -half < delta < half
    ensures delta * b + b <= half * b && -(half * b) <= delta * b - b
  {
    MulLeInt(delta + 1, half, b);
    MulLeInt(1 - half, delta, b);
    Around(delta, b);
    assert (1 - half) * b == b - half * b;
  }

  lemma ScaledNearest(n: int, delta: int, b: nat, w: nat)
    requires b > 0 && delta <= 2 * w && -delta <= 2 * w && (delta == 2 * w || -delta == 2 * w ==> n % 2 == 0)
    ensures var e := 2 * (delta * b); e <= 4 * (w * b) && -e <= 4 * (w * b) && (e == 4 * (w * b) || -e == 4 * (w * b) ==> n % 2 == 0)
  {
    var p, q := delta * b, w * b;
    ScaledSides(delta, b, w, p, q);
    if p == 2 * q { CancelZero(2 * w - delta, b); }
    if -p == 2 * q { CancelZero(2 * w + delta, b); }
  }

  lemma ScaledSides(delta: int, b: nat, w: nat, p: int, q: int)
    requires p == delta * b && q == w * b && delta <= 2 * w && -delta <= 2 * w
    ensures (2 * w - delta) * b == 2 * q - p >= 0 && (2 * w + delta) * b == 2 * q + p >= 0
  {
    TimesNat(2 * w - delta, b);
    TimesNat(2 * w + delta, b);
    TwiceTimes(w, b);
    MinusTimes(2 * w, delta, b);
    MinusTimes(2 * w, -delta, b);
    MinusTimes(0, delta, b);
  }

  lemma TimesNat(x: int, b: nat)
    requires x >= 0
    ensures x * b >= 0
  {
  }

  lemma MinusTimes(x: int, y: int, b: int)
    ensures (x - y) * b == x * b - y * b
  {
  }

  lemma CancelZero(x: int, b: nat)
    requires b > 0 && x * b == 0
    ensures x == 0
  {
  }

  /** What the parser returns for digits of any length: m * 2^exp, where m stands for all digits rounded to
      odd, so that rounding it to nearest even, with at least four more bits than the result keeps, gives
      what rounding the number written would give. */
  lemma ParserRoundsOnce(ip: seq<nat>, fp: seq<nat>, e: int, w: nat, n: int) returns (st: Parser)
    requires HexDigits(ip) && HexDigits(fp) && |ip| + |fp| > 0 && INT_MIN < e < INT_MAX && w > 0
    ensures ParseFrom(START, Chars(ip) + ("." + (Chars(fp) + ("p" + SignedDecimal(e))))) == Finish(st.(exp := e))
    ensures Finish(st.(exp := e)).Number? && Finish(st.(exp := e)).m == st.m
    ensures var exp := e + st.xBits - 4 * |fp|; INT_MIN <= exp <= INT_MAX ==> Finish(st.(exp := e)).exp == exp
    ensures Nearest(n, st.m, 4 * w) ==> Nearest(n, Digits(ip + fp), Pow16(st.xBits / 4) * (4 * w))
  {
    var tail := "p" + SignedDecimal(e);
    assert HasRead(START, 0, 0) by { assert Pow16(0) == 1; }
    var first := ReadDigits(START, 0, 0, ip, "." + (Chars(fp) + tail));
    ParseDot(first, Chars(fp) + tail);
    st := ReadDigits(first.(decPoint := first.nBits), |ip|, Value(0, ip), fp, tail);
    ValueConcat(0, ip, fp);
    ParseP(st, e);
    PowPositive(st.xBits / 4);
    if Nearest(n, st.m, 4 * w) { RoundToOddIsInnocuous(st.m, Digits(ip + fp), Pow16(st.xBits / 4), w, n); }
  }

  lemma {:induction false} PowPositive(k: nat)
    ensures Pow16(k) > 0
  {
    if k > 0 { PowPositive(k - 1); }
  }

  // ---------------------------------------------------------------- whole strings

  function WithoutUnderscores(s: string): string {
    if s == "" then "" else (if s[0] == '_' then "" else s[..1]) + WithoutUnderscores(s[1..])
  }

  /** What caml_float_of_string makes of a string; other numbers than hexadecimal ones are left to strtod. */
  datatype Text = Failure | Decimals(text: string) | Hexadecimal(neg: bool, value: Parsed)

  function ReadText(s: string): Text {
    var t := WithoutUnderscores(s);
    if t == "" then Failure
    else
      var u := if t[0] == '-' || t[0] == '+' then t[1..] else t;
      if |u| >= 2 && u[0] == '0' && (u[1] == 'x' || u[1] == 'X') then
        var r := ParseFrom(START, u[2..]);
        if r.BadFormat? then Failure else Hexadecimal(t[0] == '-', r)
      else Decimals(t)
  }

  /** caml_float_of_string up to the call of strtod */
  method FloatOfString(vs: string) returns (r: Text)
    ensures r == ReadText(vs)
  {
    var buf := "";
    var i := 0;
    assert vs[0..] == vs;
    while i < |vs|
      invariant 0 <= i <= |vs| && WithoutUnderscores(vs) == buf + WithoutUnderscores(vs[i..])
    {
      assert vs[i..][0] == vs[i] && vs[i..][1..] == vs[i + 1..] && vs[i..][..1] == [vs[i]];
      if vs[i] != '_' { buf := buf + [vs[i]]; }
      i := i + 1;
    }
    assert vs[i..] == "" && WithoutUnderscores(vs) == buf;
    if buf == "" { return Failure; }
    var src, neg := buf, false;
    if src[0] == '-' {
      src, neg := src[1..], true;
    } else if src[0] == '+' {
      src := src[1..];
    }
    if |src| >= 2 && src[0] == '0' && (src[1] == 'x' || src[1] == 'X') {
      var d := FloatOfHex(src[2..]);
      r := if d.BadFormat? then Failure else Hexadecimal(neg, d);
    } else {
      r := Decimals(buf);
    }
  }

  ghost predicate Plain(s: string) {
    forall i :: 0 <= i < |s| ==> s[i] != '_'
  }

  lemma {:induction false} PlainStays(s: string)
    requires Plain(s)
    ensures WithoutUnderscores(s) == s
  {
    if s != "" {
      assert Plain(s[1..]);
      PlainStays(s[1..]);
      assert s[..1] + s[1..] == s;
    }
  }

  lemma {:induction false} PlainDecimal(n: nat)
    ensures Plain(Decimal(n))
  {
    assert n >= 10 ==> Decimal(n) == Decimal(n / 10) + [DigitChar(n % 10)];
    if n >= 10 { PlainDecimal(n / 10); }
  }

  lemma PlainConcat(s: string, t: string)
    requires Plain(s) && Plain(t)
    ensures Plain(s + t)
  {
  }

  lemma PlainBody(ds: seq<nat>, e: int)
    requires ds != [] && HexDigits(ds)
    ensures Plain(Body(ds, e))
  {
    PlainDecimal(if e < 0 then -e else e);
    var point := if |ds| > 1 then "." + Chars(ds[1..]) else "";
    assert Plain(Chars(ds[..1])) && Plain(point) && Plain(SignedDecimal(e));
    PlainConcat(Chars(ds[..1]), point);
    PlainConcat(Chars(ds[..1]) + point, "p");
    PlainConcat(Chars(ds[..1]) + point + "p", SignedDecimal(e));
  }

  /** The whole string, sign and prefix included: for every finite double, zeros of both signs and subnormals
      included, what caml_hexstring_of_float prints without a precision is read back with the same sign as
      the same number.  With style ' ' the string starts with a space and is left to strtod. */
  lemma StringRoundTrip(d: Double, style: char, ds: seq<nat>)
    requires IsFinite(d) && Printed(Significand(d), -1, ds) && (style == ' ' ==> d.neg)
    ensures |ds| <= 14
    ensures var r := ReadText(SignText(d.neg, style) + "0x" + Body(ds, Exponent(d)));
            && r.Hexadecimal? && r.neg == d.neg && r.value.Number? && r.value.exp == Exponent(d) - 52 + 4 * (14 - |ds|)
            && r.value.m * Pow16(14 - |ds|) == Significand(d)
  {
    PlainBody(ds, Exponent(d));
    HexadecimalText(d.neg, style, Body(ds, Exponent(d)));
    PrintParseRoundTrip(d, ds);
  }

  lemma HexadecimalText(neg: bool, style: char, b: string)
    requires Plain(b) && (style == ' ' ==> neg)
    ensures ReadText(SignText(neg, style) + "0x" + b)
            == var r := ParseFrom(START, b); if r.BadFormat? then Failure else Hexadecimal(neg, r)
  {
    var s := SignText(neg, style) + "0x" + b;
    PlainConcat(SignText(neg, style) + "0x", b);
    PlainStays(s);
    var u := if s[0] == '-' || s[0] == '+' then s[1..] else s;
    assert u == "0x" + b;
    assert u[2..] == b;
  }
}
