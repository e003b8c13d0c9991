/** The few java.lang behaviours the model depends on, written out because Dafny
    integers are unbounded and Dafny strings are plain character sequences:
    32-bit `int` arithmetic with wrap-around, `String.valueOf(int)`,
    `Integer.parseInt`, `String.trim` and `String.hashCode`. */
module JavaLang {
  import opened Wrappers

  const MIN_INT: int := -0x8000_0000
  const MAX_INT: int := 0x7fff_ffff
  const TWO_32: int := 0x1_0000_0000

  /** A Java `int`. */
  type Int32 = x: int | MIN_INT <= x <= MAX_INT

  /** Two's-complement truncation of an unbounded integer to 32 bits. */
  function Wrap32(x: int): (r: Int32)
    ensures (r - x) % TWO_32 == 0
    ensures MIN_INT <= x <= MAX_INT ==> r == x
  {
    var m := x % TWO_32;
    if m > MAX_INT then m - TWO_32 else m
  }

  /** Java's unary minus on an `int`: `-Integer.MIN_VALUE` overflows back to itself. */
  function Negate(x: Int32): (r: Int32)
    ensures x != MIN_INT ==> r == -x
    ensures x == MIN_INT ==> r == MIN_INT
  {
    Wrap32(-(x as int))
  }

  // ---------------------------------------------------------------------------
  // Decimal digits

  predicate IsDigit(c: char) {
    '0' <= c <= '9'
  }

  predicate AllDigits(s: string) {
    forall i :: 0 <= i < |s| ==> IsDigit(s[i])
  }

  function DigitChar(d: nat): (c: char)
    requires d < 10
    ensures IsDigit(c)
  {
    ['0', '1', '2', '3', '4', '5', '6', '7', '8', '9'][d]
  }

  function DigitValue(c: char): (d: nat)
    requires IsDigit(c)
    ensures d < 10
  {
    (c as int - '0' as int) as nat
  }

  lemma DigitValueOfDigitChar(d: nat)
    requires d < 10
    ensures DigitValue(DigitChar(d)) == d
  {
  }

  /** The canonical decimal form of a natural number: digits only, no leading zero. */
  function NatToDecimal(n: nat): (s: string)
    ensures |s| > 0
    ensures AllDigits(s)
    ensures |s| > 1 ==> s[0] != '0'
    decreases n
  {
    if n < 10 then [DigitChar(n)] else NatToDecimal(n / 10) + [DigitChar(n % 10)]
  }

  /** The value of a string of decimal digits (leading zeros allowed, "" is 0). */
  function DecimalToNat(s: string): nat
    requires AllDigits(s)
  {
    if |s| == 0 then 0 else DecimalToNat(s[..|s| - 1]) * 10 + DigitValue(s[|s| - 1])
  }

  /** Printing a natural number in decimal and reading it back gives the number. */
  lemma {:induction false} DecimalRoundTrip(n: nat)
    ensures DecimalToNat(NatToDecimal(n)) == n
    decreases n
  {
    var s := NatToDecimal(n);
    if n < 10 {
      DigitValueOfDigitChar(n);
    } else {
      DecimalRoundTrip(n / 10);
      assert s[..|s| - 1] == NatToDecimal(n / 10);
      DigitValueOfDigitChar(n % 10);
    }
  }

  /** `String.valueOf(int)`: an optional minus sign followed by the canonical digits. */
  function IntToString(n: int): (s: string)
    ensures |s| > 0
    ensures n >= 0 ==> AllDigits(s) && s == NatToDecimal(n)
    ensures n < 0 ==> s[0] == '-' && s[1..] == NatToDecimal(-n)
  {
    if n < 0 then "-" + NatToDecimal(-n) else NatToDecimal(n)
  }

  /** `Integer.parseInt(s)`: `None` stands for the NumberFormatException it throws on
      an empty string, a lone sign, a non-digit, or a value outside the `int` range.
      Only ASCII digits are recognised. */
  function ParseInt(s: string): (r: Option<Int32>)
    ensures r.Some? ==> |s| > 0
    ensures r.Some? && s[0] != '-' && s[0] != '+' ==> AllDigits(s) && r.value == DecimalToNat(s)
    ensures r.Some? && s[0] == '-' ==> |s| > 1 && AllDigits(s[1..]) && r.value == -(DecimalToNat(s[1..]) as int)
    ensures r.Some? && s[0] == '+' ==> |s| > 1 && AllDigits(s[1..]) && r.value == DecimalToNat(s[1..])
    ensures |s| > 0 && AllDigits(s) && DecimalToNat(s) <= MAX_INT ==> r == Some(DecimalToNat(s))
    ensures |s| > 1 && s[0] == '-' && AllDigits(s[1..]) && DecimalToNat(s[1..]) <= -MIN_INT ==>
              r == Some(-(DecimalToNat(s[1..]) as int))
    ensures |s| > 1 && s[0] == '+' && AllDigits(s[1..]) && DecimalToNat(s[1..]) <= MAX_INT ==>
              r == Some(DecimalToNat(s[1..]))
  {
    if |s| == 0 then None
    else
      var negative := s[0] == '-';
      var signed := s[0] == '-' || s[0] == '+';
      if signed && |s| == 1 then None
      else
        var digits := if signed then s[1..] else s;
        if !AllDigits(digits) then None
        else
          var magnitude: int := DecimalToNat(digits);
          var value := if negative then -magnitude else magnitude;
          if MIN_INT <= value <= MAX_INT then Some(value) else None
  }

  /** Parsing the printed form of any `int` gives the `int` back. */
  lemma ParseIntOfIntToString(n: Int32)
    ensures ParseInt(IntToString(n)) == Some(n)
  {
    var s := IntToString(n);
    if n < 0 {
      var m: nat := -(n as int);
      DecimalRoundTrip(m);
      assert s[1..] == NatToDecimal(m);
    } else {
      DecimalRoundTrip(n);
      assert IsDigit(s[0]);
    }
  }

  // ---------------------------------------------------------------------------
  // Strings

  /** Characters that `String.trim` removes: every code point up to and including ' '. */
  predicate IsTrimmable(c: char) {
    c <= ' '
  }

  function TrimStart(s: string): (r: string)
    ensures |r| <= |s| && r == s[|s| - |r|..]
    ensures |r| > 0 ==> !IsTrimmable(r[0])
    ensures forall i :: 0 <= i < |s| - |r| ==> IsTrimmable(s[i])
  {
    if |s| > 0 && IsTrimmable(s[0]) then TrimStart(s[1..]) else s
  }

  function TrimEnd(s: string): (r: string)
    ensures |r| <= |s| && r == s[..|r|]
    ensures |r| > 0 ==> !IsTrimmable(r[|r| - 1])
    ensures forall i :: |r| <= i < |s| ==> IsTrimmable(s[i])
  {
    if |s| > 0 && IsTrimmable(s[|s| - 1]) then TrimEnd(s[..|s| - 1]) else s
  }

  /** `String.trim`. */
  function Trim(s: string): (r: string)
    ensures |r| <= |s|
    ensures |r| > 0 ==> !IsTrimmable(r[0]) && !IsTrimmable(r[|r| - 1])
  {
    TrimEnd(TrimStart(s))
  }

  /** `Check.isEmpty(s, true)` for a non-null string: empty after trimming. */
  predicate IsBlank(s: string) {
    Trim(s) == ""
  }

  /** A string is blank exactly when every character is one that `trim` removes. */
  lemma {:induction false} BlankIffAllTrimmable(s: string)
    ensures IsBlank(s) <==> forall i :: 0 <= i < |s| ==> IsTrimmable(s[i])
  {
    var t := TrimStart(s);
    if !forall i :: 0 <= i < |s| ==> IsTrimmable(s[i]) {
      var k :| 0 <= k < |s| && !IsTrimmable(s[k]);
      assert k >= |s| - |t|;
      assert t[k - (|s| - |t|)] == s[k];
      var e := TrimEnd(t);
      assert k - (|s| - |t|) < |e|;
    }
  }

  /** `String.hashCode`: s[0]*31^(n-1) + ... + s[n-1], in 32-bit arithmetic. */
  function StringHash(s: string): Int32 {
    if |s| == 0 then 0 else Wrap32(31 * StringHash(s[..|s| - 1]) + s[|s| - 1] as int)
  }

  /** `Integer.hashCode`: the value itself. */
  function IntHash(n: Int32): Int32 {
    n
  }
}
