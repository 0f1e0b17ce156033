/** Decimal conversion of the note serial: `std::to_string(int)` when a note is
    identified or saved, and `std::stoi` when `NOTE_ID` is read back. */
module Decimal {
  import opened Bytes

  /** The range of a C++ `int` on the platforms the program targets. */
  const INT_MIN: int := -0x8000_0000
  const INT_MAX: int := 0x7FFF_FFFF

  const MINUS: Byte := 0x2D
  const PLUS: Byte := 0x2B

  predicate IsDigit(b: Byte)
  {
    0x30 <= b <= 0x39
  }

  /** The bytes `isspace` accepts in the C locale: ' ', '\t', '\n', '\v', '\f', '\r'. */
  predicate IsSpace(b: Byte)
  {
    b == 0x20 || 0x09 <= b <= 0x0D
  }

  predicate AllDigits(s: Bytes)
  {
    forall i :: 0 <= i < |s| ==> IsDigit(s[i])
  }

  function DigitByte(d: nat): (b: Byte)
    requires d < 10
    ensures IsDigit(b) && b as int == 0x30 + d
  {
    (0x30 + d) as Byte
  }

  function DigitValue(b: Byte): (d: nat)
    requires IsDigit(b)
    ensures d < 10 && DigitByte(d) == b
  {
    b as int - 0x30
  }

  /** The decimal digits of `n`, most significant first, without leading zeros. */
  function Digits(n: nat): (r: Bytes)
    ensures |r| >= 1
    ensures AllDigits(r)
    ensures |r| > 1 ==> r[0] != DigitByte(0)
  {
    if n < 10 then [DigitByte(n)] else Digits(n / 10) + [DigitByte(n % 10)]
  }

  /** `std::to_string` of an `int`: an optional '-' and the digits of the magnitude. */
  function IntToString(i: int): (r: Bytes)
    ensures |r| >= 1
    ensures r[0] == MINUS <==> i < 0
  {
    if i < 0 then [MINUS] + Digits(-i) else Digits(i)
  }

  /** The number a string of decimal digits denotes. */
  function DigitsValue(s: Bytes): nat
    requires AllDigits(s)
  {
    if s == [] then 0
    else
      assert AllDigits(s[..|s| - 1]);
      10 * DigitsValue(s[..|s| - 1]) + DigitValue(s[|s| - 1])
  }

  /** The length of the longest prefix of `s` made of digits. */
  function DigitRun(s: Bytes): (k: nat)
    ensures k <= |s|
    ensures AllDigits(s[..k])
    ensures k < |s| ==> !IsDigit(s[k])
  {
    if s == [] || !IsDigit(s[0]) then 0 else 1 + DigitRun(s[1..])
  }

  /** `s` without its leading white space. */
  function SkipSpace(s: Bytes): (r: Bytes)
    ensures |r| <= |s| && r == s[|s| - |r|..]
    ensures r != [] ==> !IsSpace(r[0])
    ensures s != [] && !IsSpace(s[0]) ==> r == s
  {
    if s != [] && IsSpace(s[0]) then SkipSpace(s[1..]) else s
  }

  /** `std::stoi(s)` in base 10: leading white space, an optional sign, then
      the longest run of digits; trailing bytes are ignored. `None` stands for
      the two exceptions it throws: `invalid_argument` when there is no digit,
      `out_of_range` when the value does not fit an `int`. */
  function StoI(s: Bytes): (r: Option<int>)
    ensures r.Some? ==> INT_MIN <= r.value <= INT_MAX
  {
    var t := SkipSpace(s);
    var neg := t != [] && t[0] == MINUS;
    var u := if t != [] && (t[0] == MINUS || t[0] == PLUS) then t[1..] else t;
    var k := DigitRun(u);
    if k == 0 then None
    else
      var m: int := DigitsValue(u[..k]);
      var v := if neg then -m else m;
      if INT_MIN <= v <= INT_MAX then Some(v) else None
  }

  lemma {:induction false} DigitsValueOfDigits(n: nat)
    ensures DigitsValue(Digits(n)) == n
  {
    var d := Digits(n);
    if n >= 10 {
      DigitsValueOfDigits(n / 10);
      assert d[..|d| - 1] == Digits(n / 10);
      assert DigitValue(d[|d| - 1]) == n % 10;
      assert DigitsValue(d) == 10 * (n / 10) + n % 10;
    } else {
      assert DigitValue(d[0]) == n;
    }
  }

  lemma DigitRunOfDigits(s: Bytes)
    requires AllDigits(s)
    ensures DigitRun(s) == |s| && s[..DigitRun(s)] == s
  {
  }

  /** `stoi` inverts `to_string` on every `int`. */
  lemma StoIOfIntToString(i: int)
    requires INT_MIN <= i <= INT_MAX
    ensures StoI(IntToString(i)) == Some(i)
  {
    var s := IntToString(i);
    var m: nat := if i < 0 then -i else i;
    var d := Digits(m);
    DigitsValueOfDigits(m);
    DigitRunOfDigits(d);
    assert !IsSpace(s[0]) by {
      if i >= 0 {
        assert IsDigit(d[0]);
      }
    }
    assert SkipSpace(s) == s;
    if i < 0 {
      assert s[1..] == d;
    } else {
      assert s[0] != MINUS && s[0] != PLUS by {
        assert IsDigit(d[0]);
      }
    }
  }

  /** Distinct serials have distinct identifiers. */
  lemma IntToStringInjective(i: int, j: int)
    requires INT_MIN <= i <= INT_MAX && INT_MIN <= j <= INT_MAX
    ensures IntToString(i) == IntToString(j) <==> i == j
  {
    StoIOfIntToString(i);
    StoIOfIntToString(j);
  }
}
