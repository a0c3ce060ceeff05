/** The slice of JavaScript value semantics that the pages rely on when they
    compare identifiers: truthiness, the `||` fallback, `String(...)`,
    `Number(...)`, `parseInt(...)`, ASCII case mapping, `includes` and `trim`. */
module Js {
  import opened Wrappers

  /** A JSON-like primitive. Objects never reach `String(...)` or `===` in the
      pages, and NaN is never stored (JSON writes it as null), so on this type
      Dafny's `==` is exactly JavaScript's `===`. */
  datatype Value = Undef | Null | Bool(b: bool) | Num(n: int) | Str(s: string)

  /** JavaScript truthiness of a primitive. */
  predicate Truthy(v: Value) {
    match v
    case Undef => false
    case Null => false
    case Bool(b) => b
    case Num(n) => n != 0
    case Str(s) => s != ""
  }

  /** `a || b`: the first operand when it is truthy, the second otherwise. */
  function Or(a: Value, b: Value): Value {
    if Truthy(a) then a else b
  }

  predicate IsDigit(c: char) {
    '0' <= c <= '9'
  }

  predicate AllDigits(s: string) {
    forall i :: 0 <= i < |s| ==> IsDigit(s[i])
  }

  function DigitChar(d: int): (c: char)
    requires 0 <= d < 10
    ensures IsDigit(c)
  {
    ('0' as int + d) as char
  }

  /** The shortest decimal spelling of a natural number. */
  function NatToDecimal(n: nat): (r: string)
    ensures |r| > 0 && AllDigits(r)
  {
    if n < 10 then [DigitChar(n)] else NatToDecimal(n / 10) + [DigitChar(n % 10)]
  }

  /** The value of a string of decimal digits (leading zeros allowed). */
  function DecimalValue(s: string): nat
    requires AllDigits(s)
  {
    if |s| == 0 then 0
    else DecimalValue(s[..|s| - 1]) * 10 + (s[|s| - 1] as int - '0' as int)
  }

  lemma {:induction false} DecimalRoundTrip(n: nat)
    ensures DecimalValue(NatToDecimal(n)) == n
  {
    if n >= 10 {
      var s := NatToDecimal(n);
      assert s[..|s| - 1] == NatToDecimal(n / 10);
      DecimalRoundTrip(n / 10);
    }
  }

  /** `String(n)` for an integer-valued number. */
  function IntToDecimal(n: int): string {
    if n < 0 then "-" + NatToDecimal(-n) else NatToDecimal(n)
  }

  /** `String(v)`. */
  function ToStr(v: Value): string {
    match v
    case Undef => "undefined"
    case Null => "null"
    case Bool(b) => if b then "true" else "false"
    case Num(n) => IntToDecimal(n)
    case Str(s) => s
  }

  /** `Number(s)` on a string, `None` standing for NaN. Blank strings give 0;
      an optional minus sign followed by ASCII digits gives their value;
      every other spelling is NaN here. */
  function StringToNumber(s: string): Option<int> {
    if IsBlank(s) then Some(0)
    else if AllDigits(s) then Some(DecimalValue(s))
    else if s[0] == '-' && AllDigits(s[1..]) && |s| > 1 then Some(-(DecimalValue(s[1..]) as int))
    else None
  }

  /** `Number(v)`, `None` standing for NaN. */
  function ToNumber(v: Value): Option<int> {
    match v
    case Undef => None
    case Null => Some(0)
    case Bool(b) => Some(if b then 1 else 0)
    case Num(n) => Some(n)
    case Str(s) => StringToNumber(s)
  }

  /** A number as `JSON.stringify` writes it: NaN (`None`) becomes `null`. */
  function JsonNumber(n: Option<int>): Value {
    if n.Some? then Num(n.value) else Null
  }

  /** A string is empty under `String(...)` only when it was the empty string. */
  lemma ToStrEmpty(v: Value)
    ensures ToStr(v) == "" <==> v == Str("")
  {
  }

  /** Truthy values never convert to the empty string. */
  lemma TruthyToStrNonEmpty(v: Value)
    requires Truthy(v)
    ensures ToStr(v) != ""
  {
    ToStrEmpty(v);
  }

  /** `Number(String(n)) === n`: the decimal spelling reads back as the number. */
  lemma {:induction false} NumberOfString(n: int)
    ensures ToNumber(Str(ToStr(Num(n)))) == Some(n)
  {
    var s := IntToDecimal(n);
    if n < 0 {
      assert s[1..] == NatToDecimal(-n);
      assert s[0] == '-' && !IsDigit(s[0]);
      assert !IsBlank(s) by { assert !IsJsWhiteSpace(s[0]); }
      DecimalRoundTrip(-n);
    } else {
      assert !IsBlank(s) by { assert !IsJsWhiteSpace(s[0]); }
      DecimalRoundTrip(n);
    }
  }

  /** Two numbers have the same string form only when they are equal, so
      `String(a) === String(b)` on numbers is `a === b`. */
  lemma NumStringsInjective(a: int, b: int)
    ensures ToStr(Num(a)) == ToStr(Num(b)) <==> a == b
  {
    NumberOfString(a);
    NumberOfString(b);
  }

  /** The digits at the front of a string. */
  function DigitPrefix(s: string): (r: string)
    ensures r <= s && AllDigits(r)
    ensures |r| < |s| ==> !IsDigit(s[|r|])
  {
    if |s| > 0 && IsDigit(s[0]) then [s[0]] + DigitPrefix(s[1..]) else ""
  }

  /** `s.trimStart()`: the suffix left once leading white space is removed. */
  function TrimStart(s: string): (r: string)
    ensures |r| <= |s| && r == s[|s| - |r|..]
    ensures IsBlank(s[..|s| - |r|])
    ensures |r| > 0 ==> !IsJsWhiteSpace(r[0])
    ensures IsBlank(s) <==> r == ""
  {
    if |s| > 0 && IsJsWhiteSpace(s[0]) then TrimStart(s[1..]) else s
  }

  predicate IsHexDigit(c: char) {
    IsDigit(c) || 'a' <= c <= 'f' || 'A' <= c <= 'F'
  }

  predicate AllHexDigits(s: string) {
    forall i :: 0 <= i < |s| ==> IsHexDigit(s[i])
  }

  function HexDigitValue(c: char): (r: nat)
    requires IsHexDigit(c)
    ensures r < 16
  {
    if IsDigit(c) then c as int - '0' as int
    else if 'a' <= c <= 'f' then c as int - 'a' as int + 10
    else c as int - 'A' as int + 10
  }

  /** The hexadecimal digits at the front of a string. */
  function HexPrefix(s: string): (r: string)
    ensures r <= s && AllHexDigits(r)
    ensures |r| < |s| ==> !IsHexDigit(s[|r|])
  {
    if |s| > 0 && IsHexDigit(s[0]) then [s[0]] + HexPrefix(s[1..]) else ""
  }

  /** The value of a string of hexadecimal digits. */
  function HexValue(s: string): nat
    requires AllHexDigits(s)
  {
    if |s| == 0 then 0
    else HexValue(s[..|s| - 1]) * 16 + HexDigitValue(s[|s| - 1])
  }

  /** The magnitude `parseInt` reads once the sign is gone: a `0x` or `0X`
      prefix selects base 16, anything else base 10, and the longest run of
      digits of that base is read; NaN (`None`) when the run is empty. */
  function ParseMagnitude(s: string): Option<nat> {
    if |s| >= 2 && s[0] == '0' && (s[1] == 'x' || s[1] == 'X') then
      var h := HexPrefix(s[2..]);
      if h == "" then None else Some(HexValue(h))
    else
      var d := DigitPrefix(s);
      if d == "" then None else Some(DecimalValue(d))
  }

  /** `parseInt(s)` with no radix: leading white space is skipped, then an
      optional `+` or `-` sign is read, then the magnitude. */
  function ParseInt(s: string): Option<int> {
    ParseSigned(TrimStart(s))
  }

  /** `parseInt` once white space is gone: the sign, then the magnitude. */
  function ParseSigned(t: string): Option<int> {
    if |t| > 0 && t[0] == '-' then
      var m := ParseMagnitude(t[1..]);
      if m.None? then None else Some(-(m.value as int))
    else if |t| > 0 && t[0] == '+' then
      var m := ParseMagnitude(t[1..]);
      if m.None? then None else Some(m.value)
    else
      var m := ParseMagnitude(t);
      if m.None? then None else Some(m.value)
  }

  lemma {:induction false} DigitPrefixOfDigits(s: string)
    requires AllDigits(s)
    ensures DigitPrefix(s) == s
  {
    if |s| > 0 {
      DigitPrefixOfDigits(s[1..]);
    }
  }

  lemma {:induction false} HexPrefixOfHexDigits(s: string)
    requires AllHexDigits(s)
    ensures HexPrefix(s) == s
  {
    if |s| > 0 {
      HexPrefixOfHexDigits(s[1..]);
    }
  }

  /** `parseInt(String(n))` gives `n` back. */
  lemma ParseIntOfString(n: int)
    ensures ParseInt(ToStr(Num(n))) == Some(n)
  {
    if n < 0 {
      ParseIntNegative(-n);
    } else {
      ParseIntNatural(n);
    }
  }

  /** A decimal spelling is read in base 10: it never starts with `0x`. */
  lemma MagnitudeOfDecimal(m: nat)
    ensures ParseMagnitude(NatToDecimal(m)) == Some(m)
  {
    var d := NatToDecimal(m);
    assert |d| >= 2 ==> IsDigit(d[1]);
    DigitPrefixOfDigits(d);
    DecimalRoundTrip(m);
  }

  lemma ParseIntNatural(m: nat)
    ensures ParseInt(ToStr(Num(m))) == Some(m)
  {
    var d := NatToDecimal(m);
    assert ToStr(Num(m)) == d;
    assert IsDigit(d[0]);
    assert TrimStart(d) == d;
    MagnitudeOfDecimal(m);
    assert ParseSigned(d) == Some(m);
  }

  lemma ParseIntNegative(m: nat)
    requires m > 0
    ensures ParseInt(ToStr(Num(-(m as int)))) == Some(-(m as int))
  {
    var d := NatToDecimal(m);
    var s := "-" + d;
    assert ToStr(Num(-(m as int))) == s;
    assert TrimStart(s) == s by {
      assert !IsJsWhiteSpace(s[0]);
    }
    assert s[1..] == d;
    MagnitudeOfDecimal(m);
    assert ParseSigned(s) == Some(-(m as int));
  }

  /** Without a radix, a `0x` prefix makes `parseInt` read hexadecimal. */
  lemma ParseIntReadsHex(h: string)
    requires h != "" && AllHexDigits(h)
    ensures ParseInt("0x" + h) == Some(HexValue(h))
  {
    var s := "0x" + h;
    assert TrimStart(s) == s;
    assert s[2..] == h;
    HexPrefixOfHexDigits(h);
  }

  predicate IsAsciiUpper(c: char) {
    'A' <= c <= 'Z'
  }

  predicate IsAsciiLower(c: char) {
    'a' <= c <= 'z'
  }

  function LowerChar(c: char): char {
    if IsAsciiUpper(c) then (c as int + 32) as char else c
  }

  function UpperChar(c: char): char {
    if IsAsciiLower(c) then (c as int - 32) as char else c
  }

  /** `s.toLowerCase()` restricted to ASCII letters. */
  function Lower(s: string): (r: string)
    ensures |r| == |s|
    ensures forall i :: 0 <= i < |r| ==> !IsAsciiUpper(r[i])
  {
    seq(|s|, i requires 0 <= i < |s| => LowerChar(s[i]))
  }

  /** `s.toUpperCase()` restricted to ASCII letters. */
  function Upper(s: string): (r: string)
    ensures |r| == |s|
    ensures forall i :: 0 <= i < |r| ==> !IsAsciiLower(r[i])
  {
    seq(|s|, i requires 0 <= i < |s| => UpperChar(s[i]))
  }

  /** Upper-casing loses nothing that lower-casing keeps: the two spellings
      are equal ignoring case. */
  lemma LowerOfUpper(s: string)
    ensures Lower(Upper(s)) == Lower(s)
  {
  }

  /** `s.includes(t)`: `t` occurs in `s` at some position. */
  predicate Contains(s: string, t: string) {
    t <= s || (|s| > 0 && Contains(s[1..], t))
  }

  lemma ContainsEmpty(s: string)
    ensures Contains(s, "")
  {
  }

  /** `Contains` holds when `t` occurs at some offset of `s`; the converse is
      `ContainsHasOffset`. */
  lemma {:induction false} ContainsAt(s: string, t: string, k: nat)
    requires k + |t| <= |s| && s[k..k + |t|] == t
    ensures Contains(s, t)
  {
    if k > 0 {
      assert s[1..][k - 1..k - 1 + |t|] == t;
      ContainsAt(s[1..], t, k - 1);
    } else {
      assert t <= s;
    }
  }

  /** Whenever `Contains` holds, `t` occurs in `s` at the offset returned. */
  lemma {:induction false} ContainsHasOffset(s: string, t: string) returns (k: nat)
    requires Contains(s, t)
    ensures k + |t| <= |s| && s[k..k + |t|] == t
  {
    if t <= s {
      k := 0;
      assert s[..|t|] == t;
    } else {
      var k0 := ContainsHasOffset(s[1..], t);
      k := k0 + 1;
      assert s[1..][k0..k0 + |t|] == s[k..k + |t|];
    }
  }

  /** The characters `String.prototype.trim` removes: the WhiteSpace and
      LineTerminator code points of ECMAScript. */
  predicate IsJsWhiteSpace(c: char) {
    var n := c as int;
    n == 0x09 || n == 0x0A || n == 0x0B || n == 0x0C || n == 0x0D || n == 0x20
    || n == 0xA0 || n == 0x1680 || (0x2000 <= n <= 0x200A) || n == 0x2028
    || n == 0x2029 || n == 0x202F || n == 0x205F || n == 0x3000 || n == 0xFEFF
  }

  /** `!s.trim()`: nothing is left once surrounding white space is removed. */
  predicate IsBlank(s: string) {
    forall i :: 0 <= i < |s| ==> IsJsWhiteSpace(s[i])
  }
}
