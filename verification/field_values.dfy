/** The value-conversion table of a document field (`convertToValueClass`):
    a field value of some runtime class is brought into the field's value
    class, or the conversion fails. Java classes, values and the decimal
    numbers `BigDecimal` parses are modelled explicitly; date handling, JSON
    lookup-map decoding, `DisplayType.toBoolean`, `toString` of arbitrary
    objects and the lookup source's `findById` are supplied by the caller. */
module FieldValues {
  import opened Wrappers
  import opened JavaLang
  import opened LookupValues

  // ---------------------------------------------------------------------------
  // Java classes

  datatype JClass =
    | JObject
    | JString
    | JNumber
    | JInteger
    | JInt                // the primitive `int.class`
    | JBigDecimal
    | JOtherNumber(name: string)
    | JBoolean
    | JDate               // java.util.Date
    | JTimestamp          // java.sql.Timestamp, a subclass of Date
    | JMap
    | JLookupValue        // the abstract LookupValue
    | JIntegerLookup
    | JStringLookup
    | JOther(name: string)

  /** `target.isAssignableFrom(from)` for the runtime classes of field values. */
  predicate IsAssignableFrom(target: JClass, from: JClass) {
    if target == from then !target.JInt?
    else match target
      case JObject => !from.JInt?
      case JNumber => from.JInteger? || from.JBigDecimal? || from.JOtherNumber?
      case JDate => from.JTimestamp?
      case JLookupValue => from.JIntegerLookup? || from.JStringLookup?
      case _ => false
  }

  // ---------------------------------------------------------------------------
  // BigDecimal

  /** A decimal number `unscaled × 10^(−scale)`, as BigDecimal holds it. */
  datatype Decimal = Decimal(unscaled: int, scale: Int32)

  const ZERO: Decimal := Decimal(0, 0)

  function Pow10(n: nat): (r: nat)
    ensures r >= 1
  {
    if n == 0 then 1 else 10 * Pow10(n - 1)
  }

  /** The index of the first occurrence of one of `cs` in `s`, or `|s|`. */
  function IndexOfAny(s: string, cs: set<char>): (r: nat)
    ensures r <= |s|
    ensures forall i :: 0 <= i < r ==> s[i] !in cs
    ensures r < |s| ==> s[r] in cs
  {
    if |s| == 0 || s[0] in cs then 0 else 1 + IndexOfAny(s[1..], cs)
  }

  lemma DigitsHaveNoMarker(s: string, cs: set<char>)
    requires AllDigits(s)
    requires forall c :: c in cs ==> !IsDigit(c)
    ensures IndexOfAny(s, cs) == |s|
  {
  }

  /** An exponent: an optional sign followed by at least one digit. */
  function ParseExponent(s: string): (r: Option<int>)
    ensures r.Some? ==> |s| > 0
  {
    if |s| == 0 then None
    else
      var signed := s[0] == '+' || s[0] == '-';
      var digits := if signed then s[1..] else s;
      if |digits| == 0 || !AllDigits(digits) then None
      else if s[0] == '-' then Some(-(DecimalToNat(digits) as int))
      else Some(DecimalToNat(digits) as int)
  }

  /** The digits before and after the first decimal point of a mantissa. */
  function SplitMantissa(m: string): (r: (string, string))
    ensures |r.0| + |r.1| <= |m|
  {
    var dot := IndexOfAny(m, {'.'});
    (m[..dot], if dot < |m| then m[dot + 1..] else "")
  }

  /** An unsigned mantissa with an optional exponent, as its magnitude and
      (unbounded) scale. */
  function ParseUnsignedDecimal(body: string): (r: Option<(nat, int)>)
  {
    var e := IndexOfAny(body, {'e', 'E'});
    var exponent := if e == |body| then Some(0) else ParseExponent(body[e + 1..]);
    var parts := SplitMantissa(body[..e]);
    if exponent.None? || !AllDigits(parts.0) || !AllDigits(parts.1) || |parts.0| + |parts.1| == 0 then None
    else Some((DecimalToNat(parts.0 + parts.1), |parts.1| - exponent.value))
  }

  /** `new BigDecimal(s)`: an optional sign, digits with an optional decimal
      point (at least one digit in all), and an optional exponent introduced by
      'e' or 'E'. `None` stands for the NumberFormatException, which includes a
      resulting scale outside the `int` range. Only ASCII digits are recognised. */
  function ParseDecimal(s: string): (r: Option<Decimal>)
    ensures r.Some? ==> |s| > 0
  {
    if |s| == 0 then None
    else
      var negative := s[0] == '-';
      var body := if s[0] == '+' || s[0] == '-' then s[1..] else s;
      match ParseUnsignedDecimal(body)
      case None => None
      case Some(ms) =>
        if MIN_INT <= ms.1 <= MAX_INT then
          Some(Decimal(if negative then -(ms.0 as int) else ms.0, ms.1))
        else None
  }

  /** A plain string of digits parses to its value with scale 0. */
  lemma ParseUnsignedDigits(body: string)
    requires |body| > 0 && AllDigits(body)
    ensures ParseUnsignedDecimal(body) == Some((DecimalToNat(body), 0))
  {
    DigitsHaveNoMarker(body, {'e', 'E'});
    assert body[..|body|] == body;
    DigitsHaveNoMarker(body, {'.'});
    assert SplitMantissa(body) == (body, "");
    assert body + "" == body;
  }

  /** The decimal text of an `int` parses to that int with scale 0. */
  lemma ParseDecimalOfIntToString(n: Int32)
    ensures ParseDecimal(IntToString(n)) == Some(Decimal(n, 0))
  {
    var s := IntToString(n);
    if n < 0 {
      assert s[1..] == NatToDecimal(-(n as int));
      ParseUnsignedDigits(s[1..]);
      DecimalRoundTrip(-(n as int));
    } else {
      assert s[0] != '+' && s[0] != '-' by { assert IsDigit(s[0]); }
      ParseUnsignedDigits(s);
      DecimalRoundTrip(n);
    }
  }

  datatype ArithmeticReason = RoundingNecessary | Overflow

  lemma {:induction false} Pow10Add(a: nat, b: nat)
    ensures Pow10(a + b) == Pow10(a) * Pow10(b)
    decreases a
  {
    if a > 0 {
      Pow10Add(a - 1, b);
      assert Pow10(a + b) == 10 * Pow10(a - 1 + b);
    }
  }

  lemma {:induction false} Pow10Monotone(a: nat, b: nat)
    requires a <= b
    ensures Pow10(a) <= Pow10(b)
    decreases b
  {
    if a < b {
      Pow10Monotone(a, b - 1);
    }
  }

  function Abs(x: int): (r: nat)
    ensures r == x || r == -x
  {
    if x < 0 then -x else x
  }

  /** `precision()` of a BigDecimal with this magnitude: its number of
      decimal digits, 1 for zero. */
  function NumDigits(n: nat): (r: nat)
    ensures r >= 1 && n < Pow10(r)
    ensures n > 0 ==> Pow10(r - 1) <= n
  {
    if n < 10 then 1
    else
      var k := NumDigits(n / 10);
      assert Pow10(k + 1) == 10 * Pow10(k);
      assert Pow10(k) == 10 * Pow10(k - 1);
      k + 1
  }

  /** A non-zero integer smaller in magnitude than `m` is not a multiple of it. */
  lemma SmallNonZeroIsNotMultiple(u: int, m: nat)
    requires m > 0 && u != 0 && Abs(u) < m
    ensures u % m != 0
  {
    var q := u / m;
    assert u % m == u - m * q;
    if q >= 1 {
      MulAtLeast(m, q);
    } else if q <= -1 {
      MulAtLeast(m, -q);
      assert m * q == -(m * -q);
    } else {
      assert q == 0;
    }
  }

  lemma MulAtLeast(m: nat, q: int)
    requires q >= 1
    ensures m * q >= m
  {
  }

  lemma MulMonotone(a: nat, b: nat, c: nat)
    requires a <= b
    ensures a * c <= b * c
  {
  }

  lemma AbsMul(u: int, p: nat)
    ensures Abs(u) * p == Abs(u * p)
  {
    if u < 0 {
      assert Abs(u) * p == -(u * p);
    }
  }

  lemma Pow10Ten()
    ensures Pow10(10) == 10_000_000_000
  {
    assert Pow10(5) == 100_000;
    Pow10Add(5, 5);
  }

  lemma ScaledBound(lo: nat, n: nat, p: nat, bound: int)
    requires lo <= n && n * p <= bound
    ensures lo * p <= bound
  {
    MulMonotone(lo, n, p);
  }

  /** A magnitude of `k` digits that stays within 2^31 once scaled by `10^e`
      leaves `k + e` at most ten. */
  lemma ScaledDigitsBound(k: nat, e: nat, a: nat, p: nat)
    requires k >= 1 && Pow10(k - 1) <= a && p == Pow10(e) && a * p <= 0x8000_0000
    ensures k + e <= 10
  {
    ScaledBound(Pow10(k - 1), a, p, 0x8000_0000);
    Pow10Add(k - 1, e);
    Pow10Ten();
    if k - 1 + e >= 10 {
      Pow10Monotone(10, k - 1 + e);
    }
  }

  /** A non-zero value in the `int` range has at most ten integer digits. */
  lemma IntRangeHasFewDigits(u: int, e: nat)
    requires u != 0
    ensures MIN_INT <= u * Pow10(e) <= MAX_INT ==> NumDigits(Abs(u)) + e <= 10
  {
    var p := Pow10(e);
    if MIN_INT <= u * p <= MAX_INT {
      AbsMul(u, p);
      ScaledDigitsBound(NumDigits(Abs(u)), e, Abs(u), p);
    }
  }

  /** The last two steps of `intValueExact()`: `setScale(0, UNNECESSARY)`,
      which fails on a non-zero fraction, then the `int` range test. */
  function RoundExactToInt(d: Decimal): (r: Result<Int32, ArithmeticReason>)
    ensures d.scale <= 0 && MIN_INT <= d.unscaled * Pow10(-(d.scale as int)) <= MAX_INT ==>
              r == Ok(d.unscaled * Pow10(-(d.scale as int)))
    ensures r.Ok? ==> r.value * Pow10(if d.scale >= 0 then d.scale else 0) ==
                      d.unscaled * Pow10(if d.scale <= 0 then -(d.scale as int) else 0)
    ensures r == Err(RoundingNecessary) <==> d.scale > 0 && d.unscaled % Pow10(d.scale) != 0
  {
    if d.scale > 0 && d.unscaled % Pow10(d.scale) != 0 then Err(RoundingNecessary)
    else
      var v := if d.scale <= 0 then d.unscaled * Pow10(-(d.scale as int)) else d.unscaled / Pow10(d.scale);
      if MIN_INT <= v <= MAX_INT then Ok(v) else Err(Overflow)
  }

  /** `intValueExact()`, in the order of the JDK's `longValueExact()` (JDK 9
      and later) followed by the `int` range test: zero is 0; a magnitude below
      one must be rounded; more than 19 integer digits overflow before any
      fraction is looked at; a non-zero fraction must be rounded; a value
      outside the `int` range overflows. */
  function IntValueExact(d: Decimal): (r: Result<Int32, ArithmeticReason>)
    ensures d.unscaled == 0 ==> r == Ok(0)
    ensures d.scale <= 0 && MIN_INT <= d.unscaled * Pow10(-(d.scale as int)) <= MAX_INT ==>
              r == Ok(d.unscaled * Pow10(-(d.scale as int)))
    ensures r.Ok? ==> r.value * Pow10(if d.scale >= 0 then d.scale else 0) ==
                      d.unscaled * Pow10(if d.scale <= 0 then -(d.scale as int) else 0)
    ensures d.unscaled != 0 && NumDigits(Abs(d.unscaled)) - d.scale > 19 ==> r == Err(Overflow)
    ensures r == Err(RoundingNecessary) <==>
              d.scale > 0 && d.unscaled % Pow10(d.scale) != 0 && NumDigits(Abs(d.unscaled)) - d.scale <= 19
  {
    if d.unscaled == 0 then Ok(0)
    else
      var integerDigits := NumDigits(Abs(d.unscaled)) - d.scale;
      if integerDigits <= 0 then
        Pow10Monotone(NumDigits(Abs(d.unscaled)), d.scale as int);
        SmallNonZeroIsNotMultiple(d.unscaled, Pow10(d.scale));
        Err(RoundingNecessary)
      else if integerDigits > 19 then
        (if d.scale <= 0 then IntRangeHasFewDigits(d.unscaled, -(d.scale as int)); Err(Overflow) else Err(Overflow))
      else RoundExactToInt(d)
  }

  /** A number of at least `10^m` has more than `m` digits. */
  lemma NumDigitsAbove(n: nat, m: nat)
    requires Pow10(m) <= n
    ensures NumDigits(n) > m
  {
    if NumDigits(n) <= m {
      Pow10Monotone(NumDigits(n), m);
    }
  }

  lemma Pow10TwentyOne()
    ensures Pow10(21) == 1_000_000_000_000_000_000_000
  {
    Pow10Ten();
    Pow10Add(10, 10);
    Pow10Add(20, 1);
  }

  /** More than 19 integer digits overflow even with a fraction to round:
      100000000000000000000.5 is an overflow. */
  lemma OverflowBeforeRounding()
    ensures IntValueExact(Decimal(1_000_000_000_000_000_000_005, 1)) == Err(Overflow)
  {
    Pow10TwentyOne();
    NumDigitsAbove(1_000_000_000_000_000_000_005, 21);
  }

  /** One decimal place: the fraction must be zero, whatever the magnitude
      below 19 integer digits. */
  lemma TenthsNeedRounding(u: int)
    requires 0 < u < 100 && u % 10 != 0
    ensures IntValueExact(Decimal(u, 1)) == Err(RoundingNecessary)
  {
    assert Pow10(1) == 10;
    assert Pow10(2) == 100;
    assert NumDigits(u) <= 2;
  }

  /** Integer division rounding toward zero, as Java's `/` and BigDecimal's
      truncation do. */
  function DivTowardZero(a: int, b: nat): int
    requires b > 0
  {
    if a >= 0 then a / b else -((-a) / b)
  }

  /** `intValue()` of a BigDecimal: the fraction is dropped and the integer part
      truncated to its low 32 bits. */
  function DecimalIntValue(d: Decimal): Int32 {
    if d.scale <= 0 then Wrap32(d.unscaled * Pow10(-(d.scale as int)))
    else Wrap32(DivTowardZero(d.unscaled, Pow10(d.scale)))
  }

  // ---------------------------------------------------------------------------
  // Values

  /** A non-null field value. Timestamps and dates are instants in
      milliseconds; a number other than Integer and BigDecimal (a Long, say) is
      given by its class name and `intValue()`; any other object by its class
      name alone. */
  datatype Value =
    | StrV(s: string)
    | IntV(i: Int32)
    | DecimalV(d: Decimal)
    | OtherNumberV(numberClass: string, intValue: Int32)
    | BoolV(b: bool)
    | MapV(m: map<string, string>)
    | LookupV(lookup: LookupValue)
    | TimestampV(instant: int)
    | DateV(instant: int)
    | OpaqueV(className: string)

  function ClassOf(v: Value): JClass {
    match v
    case StrV(_) => JString
    case IntV(_) => JInteger
    case DecimalV(_) => JBigDecimal
    case OtherNumberV(c, _) => JOtherNumber(c)
    case BoolV(_) => JBoolean
    case MapV(_) => JMap
    case LookupV(l) => if IsIntegerLookup(l) then JIntegerLookup else JStringLookup
    case TimestampV(_) => JTimestamp
    case DateV(_) => JDate
    case OpaqueV(c) => JOther(c)
  }

  predicate IsNumberValue(v: Value) {
    v.IntV? || v.DecimalV? || v.OtherNumberV?
  }

  /** `((Number) v).intValue()`. */
  function NumberIntValue(v: Value): Int32
    requires IsNumberValue(v)
  {
    match v
    case IntV(n) => n
    case DecimalV(d) => DecimalIntValue(d)
    case OtherNumberV(_, n) => n
  }

  /** The collaborators the conversion calls and that are not part of this model. */
  datatype Collaborators = Collaborators(
    toText: Value -> string,                                  // toString() of other values
    dateFromTimestamp: int -> int,                             // JSONDate.fromTimestamp
    dateFromJson: (string, string) -> Option<int>,             // JSONDate.fromJson(text, widgetType); None: it throws
    toBoolean: Value -> bool,                                  // DisplayType.toBoolean(v, FALSE)
    intLookupFromJsonMap: map<string, string> -> Option<(Int32, string)>,   // None: it throws
    strLookupFromJsonMap: map<string, string> -> Option<(string, string)>)  // None: it throws

  /** `toString()`: strings are themselves and Integers their decimal form. */
  function Text(v: Value, c: Collaborators): (r: string)
    ensures v.StrV? ==> r == v.s
    ensures v.IntV? ==> ParseInt(r) == Some(v.i)
  {
    match v
    case StrV(s) => s
    case IntV(n) => ParseIntOfIntToString(n); IntToString(n)
    case _ => c.toText(v)
  }

  // ---------------------------------------------------------------------------
  // The conversion

  datatype ConvertError =
    | CannotConvert                   // "Cannot convert …": no rule applies
    | ConversionFailed(cause: Cause)  // "Failed converting …": a rule threw

  datatype Cause =
    | NumberFormatCause(text: string)
    | ArithmeticCause(reason: ArithmeticReason)
    | LookupCause(error: LookupError)
    | DateCause(text: string)
    | JsonMapCause
    | NestedCause(inner: ConvertError)

  /** The class a converted value has, where the primitive `int` target is
      satisfied by a boxed Integer. */
  predicate Conforms(target: JClass, v: Value) {
    if target.JInt? then v.IntV? else IsAssignableFrom(target, ClassOf(v))
  }

  /** `convertToValueClass(fieldName, value, widgetType, targetType, lookupDataSource)`.
      `None` values are Java's null; `lookup` is the optional lookup source's
      `findById`. A conversion through the lookup source converts the found
      value again without a lookup source, and an error there is wrapped. */
  function Convert(v: Option<Value>, target: JClass, widgetType: string,
                   lookup: Option<LookupId -> Option<LookupValue>>, c: Collaborators): (r: Result<Option<Value>, ConvertError>)
    ensures v.None? ==> r == Ok(None)
    ensures v.Some? && IsAssignableFrom(target, ClassOf(v.value)) && !(target == JDate && v.value.TimestampV?) ==>
              r == Ok(v)
    ensures r.Ok? && r.value.Some? ==> Conforms(target, r.value.value)
    ensures v.Some? && target == JString ==>
              r == if v.value.MapV? then Err(CannotConvert) else Ok(Some(StrV(Text(v.value, c))))
    decreases if lookup.Some? then 1 else 0
  {
    if v.None? then Ok(None)
    else
      var x := v.value;
      if target == JDate && x.TimestampV? then Ok(Some(DateV(c.dateFromTimestamp(x.instant))))
      else if IsAssignableFrom(target, ClassOf(x)) then Ok(v)
      else match target
        case JString =>
          if x.MapV? then Err(CannotConvert) else Ok(Some(StrV(Text(x, c))))
        case JDate =>
          if !x.StrV? then Err(CannotConvert)
          else (match c.dateFromJson(x.s, widgetType)
            case None => Err(ConversionFailed(DateCause(x.s)))
            case Some(t) => Ok(Some(DateV(t))))
        case JInteger => ToInteger(x, c)
        case JInt => ToInteger(x, c)
        case JBigDecimal =>
          if x.StrV? then
            if x.s == "" then Ok(Some(DecimalV(ZERO)))
            else (match ParseDecimal(x.s)
              case None => Err(ConversionFailed(NumberFormatCause(x.s)))
              case Some(d) => Ok(Some(DecimalV(d))))
          else if x.IntV? then Ok(Some(DecimalV(Decimal(x.i, 0))))
          else Err(CannotConvert)
        case JBoolean =>
          var arg := if x.LookupV? && IsStringLookup(x.lookup) then StrV(GetIdAsString(x.lookup)) else x;
          Ok(Some(BoolV(c.toBoolean(arg))))
        case JIntegerLookup =>
          if x.MapV? then
            match c.intLookupFromJsonMap(x.m)
            case None => Err(ConversionFailed(JsonMapCause))
            case Some(pair) =>
              if IsBlank(pair.1) && lookup.Some? then
                var found := lookup.value(IntId(pair.0));
                var inner := Convert(if found.Some? then Some(LookupV(found.value)) else None, target, widgetType, None, c);
                if inner.Err? then Err(ConversionFailed(NestedCause(inner.error))) else inner
              else Ok(Some(LookupV(LookupValue(IntId(pair.0), pair.1))))
          else if IsNumberValue(x) then
            if lookup.None? then Err(CannotConvert)
            else
              var found := lookup.value(IntId(NumberIntValue(x)));
              var inner := Convert(if found.Some? then Some(LookupV(found.value)) else None, target, widgetType, None, c);
              if inner.Err? then Err(ConversionFailed(NestedCause(inner.error))) else inner
          else if x.StrV? then
            if x.s == "" then Ok(None)
            else if lookup.None? then Err(CannotConvert)
            else
              var found := lookup.value(StrId(x.s));
              var inner := Convert(if found.Some? then Some(LookupV(found.value)) else None, target, widgetType, None, c);
              if inner.Err? then Err(ConversionFailed(NestedCause(inner.error))) else inner
          else if x.LookupV? && IsStringLookup(x.lookup) then
            match IntegerOf(Some(x.lookup))
            case Err(e) => Err(ConversionFailed(LookupCause(e)))
            case Ok(iv) => Ok(Some(LookupV(iv.value)))
          else Err(CannotConvert)
        case JStringLookup =>
          if x.MapV? then
            match c.strLookupFromJsonMap(x.m)
            case None => Err(ConversionFailed(JsonMapCause))
            case Some(pair) =>
              if IsBlank(pair.1) && lookup.Some? then
                var found := lookup.value(StrId(pair.0));
                var inner := Convert(if found.Some? then Some(LookupV(found.value)) else None, target, widgetType, None, c);
                if inner.Err? then Err(ConversionFailed(NestedCause(inner.error))) else inner
              else Ok(Some(LookupV(LookupValue(StrId(pair.0), pair.1))))
          else if x.StrV? then
            if x.s == "" then Ok(None)
            else if lookup.None? then Err(CannotConvert)
            else
              var found := lookup.value(StrId(x.s));
              var inner := Convert(if found.Some? then Some(LookupV(found.value)) else None, target, widgetType, None, c);
              if inner.Err? then Err(ConversionFailed(NestedCause(inner.error))) else inner
          else if x.LookupV? && IsIntegerLookup(x.lookup) then
            Ok(Some(LookupV(StringOf(x.lookup))))
          else Err(CannotConvert)
        case _ => Err(CannotConvert)
  }

  /** The Integer / int branch of the conversion. */
  function ToInteger(x: Value, c: Collaborators): (r: Result<Option<Value>, ConvertError>)
    ensures r.Ok? && r.value.Some? ==> r.value.value.IntV?
    ensures IsNumberValue(x) ==> r == Ok(Some(IntV(NumberIntValue(x))))
    ensures x.LookupV? ==> (r.Ok? <==> GetIdAsInt(x.lookup).Ok?)
    ensures x.LookupV? && r.Ok? ==> r == Ok(Some(IntV(GetIdAsInt(x.lookup).value)))
  {
    match x
    case StrV(s) =>
      if s == "" then Ok(None)
      else (match ParseDecimal(s)
        case None => Err(ConversionFailed(NumberFormatCause(s)))
        case Some(d) =>
          match IntValueExact(d)
          case Err(reason) => Err(ConversionFailed(ArithmeticCause(reason)))
          case Ok(n) => Ok(Some(IntV(n))))
    case IntV(_) => Ok(Some(IntV(NumberIntValue(x))))
    case DecimalV(_) => Ok(Some(IntV(NumberIntValue(x))))
    case OtherNumberV(_, _) => Ok(Some(IntV(NumberIntValue(x))))
    case LookupV(l) =>
      (match GetIdAsInt(l)
       case Err(e) => Err(ConversionFailed(LookupCause(e)))
       case Ok(n) => Ok(Some(IntV(n))))
    case MapV(m) =>
      (match c.intLookupFromJsonMap(m)
       case None => Err(ConversionFailed(JsonMapCause))
       case Some(pair) => Ok(Some(IntV(pair.0))))
    case _ => Err(CannotConvert)
  }

  // ---------------------------------------------------------------------------
  // Properties of the table

  /** The decimal text of any `int` converts to that Integer, for both the
      boxed and the primitive target. */
  lemma IntegerTextRoundTrip(n: Int32, widgetType: string, lookup: Option<LookupId -> Option<LookupValue>>, c: Collaborators)
    ensures Convert(Some(StrV(IntToString(n))), JInteger, widgetType, lookup, c) == Ok(Some(IntV(n)))
    ensures Convert(Some(StrV(IntToString(n))), JInt, widgetType, lookup, c) == Ok(Some(IntV(n)))
  {
    ConvertToIntegerTarget(StrV(IntToString(n)), widgetType, lookup, c);
    ToIntegerOfIntText(n, c);
  }

  /** The decimal text of an `int` is parsed with scale 0, whose exact int
      value is the int itself. */
  lemma ToIntegerOfIntText(n: Int32, c: Collaborators)
    ensures ToInteger(StrV(IntToString(n)), c) == Ok(Some(IntV(n)))
  {
    ParseDecimalOfIntToString(n);
    assert IntValueExact(Decimal(n, 0)) == Ok(n) by { assert Pow10(0) == 1; }
  }

  /** "1.5" is parsed as 1.5, whose exact int value does not exist. */
  lemma ToIntegerOfFraction(c: Collaborators)
    ensures ToInteger(StrV("1.5"), c) == Err(ConversionFailed(ArithmeticCause(RoundingNecessary)))
  {
    ParseOneDecimal('5');
    assert ParseDecimal("1.5") == Some(Decimal(15, 1));
    TenthsNeedRounding(15);
  }

  /** "1.0" is parsed as 1.0, whose exact int value is 1. */
  lemma ToIntegerOfZeroFraction(c: Collaborators)
    ensures ToInteger(StrV("1.0"), c) == Ok(Some(IntV(1)))
  {
    ParseOneDecimal('0');
    assert ParseDecimal("1.0") == Some(Decimal(10, 1));
    assert IntValueExact(Decimal(10, 1)) == Ok(1) by { assert Pow10(1) == 10; }
  }

  /** A fractional number is not an Integer: the exact conversion fails and
      the failure is wrapped. */
  lemma IntegerTextMustBeExact(widgetType: string, lookup: Option<LookupId -> Option<LookupValue>>, c: Collaborators)
    ensures Convert(Some(StrV("1.5")), JInteger, widgetType, lookup, c) == Err(ConversionFailed(ArithmeticCause(RoundingNecessary)))
  {
    ConvertToIntegerTarget(StrV("1.5"), widgetType, lookup, c);
    ToIntegerOfFraction(c);
  }

  /** A zero fraction is accepted. */
  lemma IntegerTextZeroFraction(widgetType: string, lookup: Option<LookupId -> Option<LookupValue>>, c: Collaborators)
    ensures Convert(Some(StrV("1.0")), JInteger, widgetType, lookup, c) == Ok(Some(IntV(1)))
  {
    ConvertToIntegerTarget(StrV("1.0"), widgetType, lookup, c);
    ToIntegerOfZeroFraction(c);
  }

  /** A non-Integer value asked for as an Integer goes through the Integer branch. */
  lemma ConvertToIntegerTarget(x: Value, widgetType: string, lookup: Option<LookupId -> Option<LookupValue>>, c: Collaborators)
    requires !x.IntV?
    ensures Convert(Some(x), JInteger, widgetType, lookup, c) == ToInteger(x, c)
    ensures Convert(Some(x), JInt, widgetType, lookup, c) == ToInteger(x, c)
  {
  }

  /** "1.d" parses as 1d with scale 1. */
  lemma ParseOneDecimal(d: char)
    requires IsDigit(d)
    ensures ParseDecimal(['1', '.', d]) == Some(Decimal(10 + DigitValue(d), 1))
  {
    var s := ['1', '.', d];
    assert IndexOfAny(s, {'e', 'E'}) == 3;
    assert s[..3] == s;
    assert IndexOfAny(s, {'.'}) == 1;
    assert s[..1] == ['1'] && s[2..] == [d];
    assert SplitMantissa(s) == (['1'], [d]);
    assert ['1'] + [d] == ['1', d];
    assert DecimalToNat(['1', d]) == 10 + DigitValue(d) by {
      assert ['1', d][..1] == ['1'];
      assert ['1'][..0] == [];
    }
  }

  /** The empty string is null for Integer and lookup targets and zero for
      BigDecimal. */
  lemma EmptyStringConversions(widgetType: string, lookup: Option<LookupId -> Option<LookupValue>>, c: Collaborators)
    ensures Convert(Some(StrV("")), JInteger, widgetType, lookup, c) == Ok(None)
    ensures Convert(Some(StrV("")), JBigDecimal, widgetType, lookup, c) == Ok(Some(DecimalV(ZERO)))
    ensures Convert(Some(StrV("")), JIntegerLookup, widgetType, lookup, c) == Ok(None)
    ensures Convert(Some(StrV("")), JStringLookup, widgetType, lookup, c) == Ok(None)
  {
  }

  /** An Integer becomes a BigDecimal of the same value, and that converts
      back to the Integer. */
  lemma IntegerDecimalRoundTrip(n: Int32, widgetType: string, lookup: Option<LookupId -> Option<LookupValue>>, c: Collaborators)
    ensures Convert(Some(IntV(n)), JBigDecimal, widgetType, lookup, c) == Ok(Some(DecimalV(Decimal(n, 0))))
    ensures Convert(Some(DecimalV(Decimal(n, 0))), JInteger, widgetType, lookup, c) == Ok(Some(IntV(n)))
  {
    assert Pow10(0) == 1;
  }

  /** Without a lookup source, a non-empty string or a number cannot become a
      lookup value. */
  lemma LookupTargetNeedsSource(s: string, x: Value, widgetType: string, c: Collaborators)
    requires s != "" && IsNumberValue(x)
    ensures Convert(Some(StrV(s)), JIntegerLookup, widgetType, None, c) == Err(CannotConvert)
    ensures Convert(Some(StrV(s)), JStringLookup, widgetType, None, c) == Err(CannotConvert)
    ensures Convert(Some(x), JIntegerLookup, widgetType, None, c) == Err(CannotConvert)
    ensures Convert(Some(x), JStringLookup, widgetType, None, c) == Err(CannotConvert)
  {
  }

  /** With a lookup source, a string is looked up, and an id the source does
      not know converts to null rather than failing. */
  lemma LookupByText(s: string, widgetType: string, findById: LookupId -> Option<LookupValue>, c: Collaborators)
    requires s != ""
    ensures findById(StrId(s)).None? ==> Convert(Some(StrV(s)), JStringLookup, widgetType, Some(findById), c) == Ok(None)
    ensures findById(StrId(s)).Some? && IsStringLookup(findById(StrId(s)).value) ==>
              Convert(Some(StrV(s)), JStringLookup, widgetType, Some(findById), c) == Ok(Some(LookupV(findById(StrId(s)).value)))
  {
  }

  /** Converting an integer lookup value to a string lookup value and back
      gives it back, display name included. */
  lemma LookupKindRoundTrip(iv: LookupValue, widgetType: string, lookup: Option<LookupId -> Option<LookupValue>>, c: Collaborators)
    requires IsIntegerLookup(iv)
    ensures Convert(Some(LookupV(iv)), JStringLookup, widgetType, lookup, c) == Ok(Some(LookupV(StringOf(iv))))
    ensures Convert(Some(LookupV(StringOf(iv))), JIntegerLookup, widgetType, lookup, c) == Ok(Some(LookupV(iv)))
  {
    IntegerStringRoundTrip(iv);
  }

  /** A timestamp asked for as a Date is always normalised, although a
      Timestamp is a Date. */
  lemma TimestampBecomesDate(t: int, widgetType: string, lookup: Option<LookupId -> Option<LookupValue>>, c: Collaborators)
    ensures IsAssignableFrom(JDate, JTimestamp)
    ensures Convert(Some(TimestampV(t)), JDate, widgetType, lookup, c) == Ok(Some(DateV(c.dateFromTimestamp(t))))
  {
  }
}
