/** The JavaScript value semantics the controllers lean on: truthiness (`if (x)`,
    `a || b`), `String(v)`, and the loose comparison `v == 4` of a request-body
    value against a number, which converts a string operand with the language's
    StringToNumber algorithm (section 7.1.4.1.1 of ECMA-262). */
module Js {
  import opened Results

  /** A value taken from a JSON or form request body, or stored in a ticket's
      `status` field: an integral JSON number or a string. */
  datatype JsVal = JNum(n: int) | JStr(s: string)

  predicate Truthy(v: JsVal) {
    match v
    case JNum(n) => n != 0
    case JStr(s) => s != ""
  }

  /** Truthiness of a value that may be `null` or `undefined` (None). */
  predicate TruthyOpt(v: Option<JsVal>) {
    v.Some? && Truthy(v.value)
  }

  /** Truthiness of a string that may be `null` or `undefined` (None). */
  predicate TruthyStr(v: Option<string>) {
    v.Some? && v.value != ""
  }

  /** `a || b` where `a` is a string that may be missing. */
  function OrElse(a: Option<string>, b: string): string {
    if TruthyStr(a) then a.value else b
  }

  // ---------------------------------------------------------------------------
  // Digits in a radix

  /** Value of a digit character in radix up to 16; 99 for anything else. */
  function RadixDigit(c: char): nat {
    if '0' <= c <= '9' then (c as int) - ('0' as int)
    else if 'a' <= c <= 'f' then (c as int) - ('a' as int) + 10
    else if 'A' <= c <= 'F' then (c as int) - ('A' as int) + 10
    else 99
  }

  predicate AllRadix(s: string, radix: nat) {
    forall i :: 0 <= i < |s| ==> RadixDigit(s[i]) < radix
  }

  /** The number a string of digits denotes, most significant digit first. */
  function RadixValue(s: string, radix: nat): nat
    requires AllRadix(s, radix)
  {
    if |s| == 0 then 0
    else radix * RadixValue(s[..|s| - 1], radix) + RadixDigit(s[|s| - 1])
  }

  function DigitChar(d: nat): (c: char)
    requires d < 10
    ensures RadixDigit(c) == d
  {
    (('0' as int) + d) as char
  }

  /** Decimal spelling of a natural number, without leading zeros. */
  function NatToDecimal(n: nat): (r: string)
    ensures |r| > 0 && AllRadix(r, 10)
    ensures r[0] == '0' ==> n == 0 && |r| == 1
  {
    if n < 10 then [DigitChar(n)]
    else
      var p := NatToDecimal(n / 10);
      assert p[0] != '0';
      p + [DigitChar(n % 10)]
  }

  /** The plain decimal spelling of an unbounded integer, with a leading
      minus for negatives. It agrees with `String(n)` for the integers a
      double holds exactly below 10^21; the exponent form `String` gives
      from 10^21 on is not modelled. */
  function IntToDecimal(n: int): string {
    if n < 0 then "-" + NatToDecimal(-n) else NatToDecimal(n)
  }

  /** `String(v)`: numbers are spelt in decimal, strings are kept as they are. */
  function ToJsString(v: JsVal): string {
    match v
    case JNum(n) => IntToDecimal(n)
    case JStr(s) => s
  }

  /** Reading back the decimal spelling of `n` gives `n`. */
  lemma {:induction false} NatToDecimalValue(n: nat)
    ensures RadixValue(NatToDecimal(n), 10) == n
  {
    if n >= 10 {
      var p := NatToDecimal(n / 10);
      var r := NatToDecimal(n);
      assert r == p + [DigitChar(n % 10)];
      assert r[..|r| - 1] == p;
      NatToDecimalValue(n / 10);
    }
  }

  // ---------------------------------------------------------------------------
  // StringToNumber

  /** A JavaScript number as the parser sees it; a finite value is
      `mantissa * 10^exponent`, kept exact (rounding to double precision is not modelled). */
  datatype JsNumber = NaN | Infinity(negative: bool) | Finite(mantissa: int, exponent: int)

  /** StrWhiteSpaceChar: the white space and line terminators trimmed by StringToNumber. */
  predicate IsJsSpace(c: char) {
    || c == '\t' || c == '\n' || c == '\U{000B}' || c == '\U{000C}' || c == '\r' || c == ' '
    || c == '\U{00A0}' || c == '\U{1680}' || ('\U{2000}' <= c <= '\U{200A}')
    || c == '\U{2028}' || c == '\U{2029}' || c == '\U{202F}' || c == '\U{205F}'
    || c == '\U{3000}' || c == '\U{FEFF}'
  }

  function TrimStart(s: string): (r: string)
    ensures |r| > 0 ==> !IsJsSpace(r[0])
  {
    if |s| > 0 && IsJsSpace(s[0]) then TrimStart(s[1..]) else s
  }

  function TrimEnd(s: string): (r: string)
    ensures |r| > 0 ==> !IsJsSpace(r[|r| - 1])
  {
    if |s| > 0 && IsJsSpace(s[|s| - 1]) then TrimEnd(s[..|s| - 1]) else s
  }

  function Trim(s: string): string {
    TrimEnd(TrimStart(s))
  }

  /** Length of the longest prefix of decimal digits. */
  function DigitRun(s: string): (n: nat)
    ensures n <= |s| && AllRadix(s[..n], 10)
    ensures n < |s| ==> RadixDigit(s[n]) >= 10
  {
    if |s| == 0 || RadixDigit(s[0]) >= 10 then 0
    else
      var k := DigitRun(s[1..]);
      assert s[..k + 1] == [s[0]] + s[1..][..k];
      k + 1
  }

  /** The ExponentPart of a decimal literal (`e` or `E`, an optional sign,
      digits), or 0 when the literal has none; None when `rest` is not one. */
  function Exponent(rest: string): Option<int> {
    if rest == "" then Some(0)
    else if rest[0] != 'e' && rest[0] != 'E' then None
    else
      var u := rest[1..];
      var negative := |u| > 0 && u[0] == '-';
      var d := if |u| > 0 && (u[0] == '-' || u[0] == '+') then u[1..] else u;
      if |d| > 0 && AllRadix(d, 10) then
        var magnitude: int := RadixValue(d, 10);
        Some(if negative then -magnitude else magnitude)
      else None
  }

  /** StrUnsignedDecimalLiteral: `Infinity`, or digits with an optional
      fraction and exponent (at least one digit before or after the point). */
  function UnsignedDecimal(t: string): JsNumber {
    if t == "Infinity" then Infinity(false)
    else
      var i := DigitRun(t);
      var fracStart := if i < |t| && t[i] == '.' then i + 1 else i;
      var f := DigitRun(t[fracStart..]);
      var intDigits := t[..i];
      var fracDigits := t[fracStart..][..f];
      if |intDigits| + |fracDigits| == 0 then NaN
      else
        match Exponent(t[fracStart..][f..])
        case None => NaN
        case Some(e) => Finite(RadixValue(intDigits + fracDigits, 10), e - |fracDigits|)
  }

  /** NonDecimalIntegerLiteral after its `0x`/`0o`/`0b` prefix. */
  function NonDecimal(d: string, radix: nat): JsNumber {
    if |d| > 0 && AllRadix(d, radix) then Finite(RadixValue(d, radix), 0) else NaN
  }

  function Negate(x: JsNumber): JsNumber {
    match x
    case NaN => NaN
    case Infinity(b) => Infinity(!b)
    case Finite(m, e) => Finite(-m, e)
  }

  /** `Number(s)`: white space is trimmed; the empty string is 0; anything
      that is not a numeric literal is NaN. */
  function StringToNumber(s: string): JsNumber {
    var t := Trim(s);
    if t == "" then Finite(0, 0)
    else if |t| >= 2 && t[0] == '0' && (t[1] == 'x' || t[1] == 'X') then NonDecimal(t[2..], 16)
    else if |t| >= 2 && t[0] == '0' && (t[1] == 'o' || t[1] == 'O') then NonDecimal(t[2..], 8)
    else if |t| >= 2 && t[0] == '0' && (t[1] == 'b' || t[1] == 'B') then NonDecimal(t[2..], 2)
    else if t[0] == '+' then UnsignedDecimal(t[1..])
    else if t[0] == '-' then Negate(UnsignedDecimal(t[1..]))
    else UnsignedDecimal(t)
  }

  function Pow10(e: nat): (r: nat)
    ensures r >= 1
  {
    if e == 0 then 1 else 10 * Pow10(e - 1)
  }

  /** The number `x` equals the integer `k` (NaN and infinities equal nothing). */
  predicate NumberEquals(x: JsNumber, k: int) {
    match x
    case Finite(m, e) => if e >= 0 then m * Pow10(e) == k else m == k * Pow10(-e)
    case _ => false
  }

  /** `v == k` with JavaScript's loose equality: a string is converted with
      StringToNumber before the comparison. */
  predicate LooselyEquals(v: JsVal, k: int) {
    match v
    case JNum(n) => n == k
    case JStr(s) => NumberEquals(StringToNumber(s), k)
  }

  // ---------------------------------------------------------------------------
  // Round trips

  lemma DigitRunOfDigits(s: string)
    requires AllRadix(s, 10)
    ensures DigitRun(s) == |s|
  {
    if |s| > 0 {
      DigitRunOfDigits(s[1..]);
    }
  }

  /** A string that starts with a digit is not the word `Infinity`. */
  lemma NotInfinity(t: string)
    requires |t| > 0 && RadixDigit(t[0]) < 10
    ensures t != "Infinity"
  {
    assert "Infinity"[0] == 'I';
  }

  /** A string that is one run of digits reads back as its value. */
  lemma UnsignedDecimalOfRun(t: string)
    requires |t| > 0 && t != "Infinity" && DigitRun(t) == |t|
    ensures AllRadix(t, 10)
    ensures UnsignedDecimal(t) == Finite(RadixValue(t, 10), 0)
  {
    assert t[..|t|] == t;
    var rest: string := t[|t|..];
    assert rest == [];
    assert DigitRun(rest) == 0;
    assert rest[..0] == [] && rest[0..] == [];
    assert Exponent(rest) == Some(0);
    assert t[..|t|] + [] == t;
  }

  /** An unsigned string of decimal digits reads back as its value. */
  lemma UnsignedDecimalOfDigits(t: string)
    requires |t| > 0 && AllRadix(t, 10)
    ensures UnsignedDecimal(t) == Finite(RadixValue(t, 10), 0)
  {
    assert RadixDigit(t[0]) < 10;
    NotInfinity(t);
    DigitRunOfDigits(t);
    UnsignedDecimalOfRun(t);
  }

  /** A string that starts and ends with something other than white space is not trimmed. */
  lemma TrimUntouched(s: string)
    requires |s| > 0 && !IsJsSpace(s[0]) && !IsJsSpace(s[|s| - 1])
    ensures Trim(s) == s
  {
  }

  /** StringToNumber reads a string of digits, without a leading `0x`, `0o`
      or `0b`, as an unsigned decimal literal. */
  lemma StringToNumberOfDigits(d: string)
    requires |d| > 0 && AllRadix(d, 10)
    requires d[0] == '0' ==> |d| == 1
    ensures StringToNumber(d) == Finite(RadixValue(d, 10), 0)
  {
    assert RadixDigit(d[0]) < 10 && RadixDigit(d[|d| - 1]) < 10;
    TrimUntouched(d);
    assert d[0] != '+' && d[0] != '-';
    UnsignedDecimalOfDigits(d);
  }

  /** A minus sign followed by digits is not trimmed. */
  lemma TrimNegative(d: string)
    requires |d| > 0 && AllRadix(d, 10)
    ensures Trim("-" + d) == "-" + d
  {
    var s := "-" + d;
    assert s[0] == '-' && s[|s| - 1] == d[|d| - 1];
    assert RadixDigit(d[|d| - 1]) < 10;
    TrimUntouched(s);
  }

  /** A trimmed string that starts with `-` is the negated unsigned literal after it. */
  lemma StringToNumberOfMinus(t: string)
    requires Trim(t) == t && |t| >= 2 && t[0] == '-'
    ensures StringToNumber(t) == Negate(UnsignedDecimal(t[1..]))
  {
  }

  /** StringToNumber reads `-` followed by digits as the negated decimal value. */
  lemma StringToNumberOfNegative(d: string)
    requires |d| > 0 && AllRadix(d, 10)
    ensures StringToNumber("-" + d) == Finite(0 - RadixValue(d, 10), 0)
  {
    var s := "-" + d;
    TrimNegative(d);
    assert s[0] == '-' && s[1..] == d;
    StringToNumberOfMinus(s);
    UnsignedDecimalOfDigits(d);
  }

  /** `Number(String(n)) === n` for every integral number. */
  lemma {:induction false} StringToNumberOfDecimal(n: int)
    ensures StringToNumber(IntToDecimal(n)) == Finite(n, 0)
  {
    if n < 0 {
      NatToDecimalValue(-n);
      StringToNumberOfNegative(NatToDecimal(-n));
    } else {
      NatToDecimalValue(n);
      StringToNumberOfDigits(NatToDecimal(n));
    }
  }

  /** The loose comparison with a number agrees with comparing `Number(String(v))`:
      a value is loosely equal to `k` exactly when its string form reads back as `k`. */
  lemma LooselyEqualsViaString(v: JsVal, k: int)
    ensures LooselyEquals(v, k) <==> NumberEquals(StringToNumber(ToJsString(v)), k)
  {
    if v.JNum? {
      StringToNumberOfDecimal(v.n);
    }
  }

  /** Digits followed by anything but a point or an exponent are not a number. */
  lemma TrailingText(t: string)
    requires t != "Infinity"
    requires 0 < DigitRun(t) < |t|
    requires t[DigitRun(t)] != '.' && t[DigitRun(t)] != 'e' && t[DigitRun(t)] != 'E'
    ensures UnsignedDecimal(t) == NaN
  {
    var i := DigitRun(t);
    assert t[i..][..0] == [];
    assert t[i..][0..] == t[i..];
  }

  lemma LooseFourDigits()
    ensures LooselyEquals(JStr("4"), 4)
  {
    assert RadixValue("4", 10) == 4;
    StringToNumberOfDigits("4");
  }
  /** StringToNumber only sees the trimmed string. */
  lemma SameTrimSameNumber(a: string, b: string)
    requires Trim(a) == Trim(b)
    ensures StringToNumber(a) == StringToNumber(b)
  {
  }

  lemma LooseFourPadded()
    ensures LooselyEquals(JStr(" 4\n"), 4)
  {
    assert TrimStart(" 4\n") == "4\n";
    assert TrimEnd("4\n") == "4";
    TrimUntouched("4");
    SameTrimSameNumber(" 4\n", "4");
    LooseFourDigits();
  }
  lemma LooseFourSigned()
    ensures LooselyEquals(JStr("+4"), 4)
  {
    TrimUntouched("+4");
    assert "+4"[1..] == "4";
    assert RadixValue("4", 10) == 4;
    UnsignedDecimalOfDigits("4");
  }
  lemma LooseFourFraction()
    ensures LooselyEquals(JStr("4.0"), 4)
  {
    TrimUntouched("4.0");
    assert DigitRun("4.0") == 1;
    assert "4.0"[2..] == "0";
    DigitRunOfDigits("0");
    assert "4.0"[..1] + "0"[..1] == "40";
    assert RadixValue("40", 10) == 40;
  }
  lemma LooseFourHex()
    ensures LooselyEquals(JStr("0x4"), 4)
  {
    TrimUntouched("0x4");
    assert "0x4"[2..] == "4";
  }
  /** A trimmed string that starts with a digit other than `0` is read as an
      unsigned decimal literal. */
  lemma PlainDecimalString(t: string)
    requires |t| > 0 && !IsJsSpace(t[0]) && !IsJsSpace(t[|t| - 1])
    requires RadixDigit(t[0]) < 10 && t[0] != '0'
    ensures StringToNumber(t) == UnsignedDecimal(t)
  {
    TrimUntouched(t);
  }

  /** A digit followed by a non-digit is a run of one digit. */
  lemma OneDigit(t: string)
    requires |t| >= 2 && RadixDigit(t[0]) < 10 && RadixDigit(t[1]) >= 10
    ensures DigitRun(t) == 1
  {
    assert t[1..][0] == t[1];
  }

  /** A trimmed string of leading digits followed by other text is NaN. */
  lemma NumberThenText(t: string)
    requires |t| > 0 && !IsJsSpace(t[0]) && !IsJsSpace(t[|t| - 1])
    requires RadixDigit(t[0]) < 10 && t[0] != '0'
    requires DigitRun(t) < |t| && t[DigitRun(t)] != '.' && t[DigitRun(t)] != 'e' && t[DigitRun(t)] != 'E'
    ensures StringToNumber(t) == NaN
  {
    PlainDecimalString(t);
    TrailingText(t);
  }

  lemma LooseFourTrailingText()
    ensures !LooselyEquals(JStr("4 tickets"), 4)
  {
    var t := "4 tickets";
    assert t[0] == '4' && t[1] == ' ' && t[|t| - 1] == 's';
    OneDigit(t);
    NumberThenText(t);
  }

  /** A trimmed string that starts with neither a digit, a sign, a point nor
      the word `Infinity` is NaN. */
  lemma WordIsNaN(t: string)
    requires |t| > 0 && !IsJsSpace(t[0]) && !IsJsSpace(t[|t| - 1])
    requires RadixDigit(t[0]) >= 10 && t[0] != '+' && t[0] != '-' && t[0] != '.' && t[0] != 'I'
    ensures StringToNumber(t) == NaN
  {
    TrimUntouched(t);
    assert t != "Infinity";
    assert DigitRun(t) == 0;
    assert t[0..] == t && t[..0] == [];
  }

  lemma LooseFourWord()
    ensures !LooselyEquals(JStr("Closed"), 4)
  {
    var t := "Closed";
    assert t[0] == 'C' && t[|t| - 1] == 'd';
    WordIsNaN(t);
  }

  /** Spellings that the comparison `status == 4` accepts and rejects. */
  lemma LooseEqualityExamples()
    ensures LooselyEquals(JNum(4), 4) && !LooselyEquals(JNum(1), 4)
    ensures LooselyEquals(JStr("4"), 4) && LooselyEquals(JStr(" 4\n"), 4)
    ensures LooselyEquals(JStr("+4"), 4) && LooselyEquals(JStr("4.0"), 4)
    ensures LooselyEquals(JStr("0x4"), 4)
    ensures !LooselyEquals(JStr("4 tickets"), 4) && !LooselyEquals(JStr("Closed"), 4)
  {
    LooseFourDigits();
    LooseFourPadded();
    LooseFourSigned();
    LooseFourFraction();
    LooseFourHex();
    LooseFourTrailingText();
    LooseFourWord();
  }
}
