/** DocumentId: a tagged 32-bit integer identifying a document. -1 is the NEW
    placeholder, other negative values are client-side temporary ids and
    non-negative values are ids assigned by the store. Its JSON form is "NEW",
    "T" followed by the absolute value, or the decimal value. */
module DocumentIds {
  import opened Wrappers
  import opened JavaLang

  const NEW_ID: Int32 := -1
  const NEW_ID_STRING: string := "NEW"
  const TEMPORARY_ID_PREFIX: char := 'T'

  /** Equality of DocumentIds is equality of the wrapped int, as in the source's `equals`. */
  datatype DocumentId = DocumentId(idInt: Int32)

  const NEW: DocumentId := DocumentId(NEW_ID)

  /** The exceptions the parsing entry points throw. */
  datatype IdError =
    | NullId(message: string)        // NullPointerException
    | InvalidFormat(input: string)   // NumberFormatException from Integer.parseInt
    | UnsupportedIdType              // IllegalArgumentException from fromObject

  /** The argument of `fromObject`, by runtime class. */
  datatype IdObject = IntegerObject(i: Int32) | StringObject(s: string) | NullObject | OtherObject(className: string)

  /** `DocumentId.of(int)`: NEW for -1, otherwise a wrapper of the value. */
  function OfInt(n: Int32): DocumentId {
    if n == NEW_ID then NEW else DocumentId(n)
  }

  /** The text `DocumentId.of(String)` hands to `Integer.parseInt`: a
      temporary id's leading prefix becomes a minus sign. */
  function NumericText(t: string): (r: string)
    requires |t| > 0
    ensures |r| == |t| && r[1..] == t[1..]
    ensures r[0] == (if t[0] == TEMPORARY_ID_PREFIX then '-' else t[0])
  {
    if t[0] == TEMPORARY_ID_PREFIX then "-" + t[1..] else t
  }

  /** `DocumentId.of(String)`; `None` is a null argument. */
  function OfString(s: Option<string>): (r: Result<DocumentId, IdError>)
    ensures s == Some(NEW_ID_STRING) ==> r == Ok(NEW)
    ensures s.None? || s == Some("") ==> r.Err? && r.error.NullId?
    ensures s.Some? && s.value != "" && s.value != NEW_ID_STRING ==>
              (r.Ok? <==> ParseInt(NumericText(s.value)).Some?) &&
              (r.Ok? ==> r.value == OfInt(ParseInt(NumericText(s.value)).value)) &&
              (r.Err? ==> r.error == InvalidFormat(NumericText(s.value)))
    ensures r.Ok? && s.value != NEW_ID_STRING && s.value[0] != TEMPORARY_ID_PREFIX ==>
              ParseInt(s.value) == Some(r.value.idInt)
  {
    if s == Some(NEW_ID_STRING) then Ok(NEW)
    else if s.None? then Err(NullId("idStr shall not be null"))
    else if s.value == "" then Err(NullId("idStr shall not be empty"))
    else
      var text := NumericText(s.value);
      match ParseInt(text)
      case Some(n) => Ok(OfInt(n))
      case None => Err(InvalidFormat(text))
  }

  /** `DocumentId.fromNullable`: null or blank gives no id, anything else is trimmed and parsed. */
  function FromNullable(s: Option<string>): (r: Result<Option<DocumentId>, IdError>)
    ensures s.None? || IsBlank(s.value) ==> r == Ok(None)
    ensures s.Some? && !IsBlank(s.value) ==>
              (r.Ok? <==> OfString(Some(Trim(s.value))).Ok?) &&
              (r.Ok? ==> r.value == Some(OfString(Some(Trim(s.value))).value))
  {
    if s.None? || IsBlank(s.value) then Ok(None)
    else
      match OfString(Some(Trim(s.value)))
      case Ok(id) => Ok(Some(id))
      case Err(e) => Err(e)
  }

  /** `DocumentId.fromObject`: only an Integer or a String is accepted. */
  function FromObject(o: IdObject): (r: Result<DocumentId, IdError>)
    ensures o.IntegerObject? ==> r == Ok(OfInt(o.i))
    ensures o.StringObject? ==> r == OfString(Some(o.s))
    ensures o.NullObject? || o.OtherObject? ==> r == Err(UnsupportedIdType)
  {
    match o
    case IntegerObject(i) => Ok(OfInt(i))
    case StringObject(s) => OfString(Some(s))
    case _ => Err(UnsupportedIdType)
  }

  /** The static `isNew(int)`: the NEW id or any temporary (negative) id. */
  predicate IsNewInt(n: int) {
    n == NEW_ID || n < 0
  }

  /** The instance `isNew()`: only the NEW placeholder itself. */
  predicate IsNew(id: DocumentId) {
    id.idInt == NEW_ID
  }

  /** `toJson()` (also `toString()`). The negation of a negative id uses Java's
      32-bit minus, so Integer.MIN_VALUE prints as "T-2147483648". */
  function ToJson(id: DocumentId): (r: string)
    ensures |r| > 0
    ensures r == NEW_ID_STRING <==> id == NEW
    ensures r[0] == TEMPORARY_ID_PREFIX <==> id.idInt < 0 && id != NEW
    ensures id.idInt >= 0 ==> r == IntToString(id.idInt) && ParseInt(r) == Some(id.idInt)
    ensures id.idInt < 0 && id != NEW ==> r == [TEMPORARY_ID_PREFIX] + IntToString(Negate(id.idInt))
    ensures id.idInt < 0 && id != NEW && id.idInt != MIN_INT ==> ParseInt("-" + r[1..]) == Some(id.idInt)
  {
    if id.idInt == NEW_ID then NEW_ID_STRING
    else if id.idInt < 0 then
      ParseIntOfIntToString(id.idInt);
      var r := [TEMPORARY_ID_PREFIX] + IntToString(Negate(id.idInt));
      assert r[0] != NEW_ID_STRING[0];
      r
    else
      ParseIntOfIntToString(id.idInt);
      IntToString(id.idInt)
  }

  /** `hashCode()`: `Objects.hash(idInt)`, i.e. 31 + idInt in 32-bit arithmetic. */
  function HashCode(id: DocumentId): Int32 {
    Wrap32(31 + id.idInt)
  }

  // ---------------------------------------------------------------------------
  // Properties

  /** `of(-1)` and `of("NEW")` are both NEW; any int is wrapped unchanged. */
  lemma OfIntKeepsValue(n: Int32)
    ensures OfInt(n).idInt == n
    ensures OfInt(NEW_ID) == NEW && OfString(Some(NEW_ID_STRING)) == Ok(NEW)
    ensures OfInt(n) == NEW <==> n == NEW_ID
  {
  }

  /** A leading 'T' is read as a minus sign: "T" + k parses like "-" + k. */
  lemma TemporaryPrefixIsMinus(k: string)
    ensures OfString(Some([TEMPORARY_ID_PREFIX] + k)) == OfString(Some("-" + k))
  {
    var t := [TEMPORARY_ID_PREFIX] + k;
    assert t[0] == TEMPORARY_ID_PREFIX && t[1..] == k;
    assert t != NEW_ID_STRING by { assert t[0] != NEW_ID_STRING[0]; }
    var m := "-" + k;
    assert m != NEW_ID_STRING by { assert m[0] != NEW_ID_STRING[0]; }
    assert m[0] != TEMPORARY_ID_PREFIX;
  }

  /** `of("T" + m) == of(-m)` for every magnitude whose negation is an int. */
  lemma TemporaryStringIsNegative(m: nat)
    requires m <= -MIN_INT
    ensures OfString(Some([TEMPORARY_ID_PREFIX] + NatToDecimal(m))) == Ok(OfInt(-(m as int)))
  {
    var d := NatToDecimal(m);
    TemporaryPrefixIsMinus(d);
    MinusDigitsParse(m);
    OfMinusString(d, -(m as int));
  }

  /** "-" followed by the digits of m is the int -m. */
  lemma MinusDigitsParse(m: nat)
    requires m <= -MIN_INT
    ensures ParseInt("-" + NatToDecimal(m)) == Some(-(m as int))
  {
    DecimalRoundTrip(m);
    var s := "-" + NatToDecimal(m);
    assert s[0] == '-' && s[1..] == NatToDecimal(m);
  }

  /** A minus-signed text that parses to n is the id of n. */
  lemma OfMinusString(d: string, n: Int32)
    requires ParseInt("-" + d) == Some(n)
    ensures OfString(Some("-" + d)) == Ok(OfInt(n))
  {
    var s := "-" + d;
    assert s != NEW_ID_STRING by { assert s[0] != NEW_ID_STRING[0]; }
    assert s[0] != TEMPORARY_ID_PREFIX;
  }

  /** Round trip: parsing the JSON form of an id gives the id back, for every
      int except Integer.MIN_VALUE. */
  lemma JsonRoundTrip(n: Int32)
    requires n != MIN_INT
    ensures OfString(Some(ToJson(OfInt(n)))) == Ok(OfInt(n))
  {
    var id := OfInt(n);
    var j := ToJson(id);
    if n == NEW_ID {
    } else if n < 0 {
      assert j[1..] == IntToString(-n);
      TemporaryPrefixIsMinus(j[1..]);
      assert j == [TEMPORARY_ID_PREFIX] + j[1..];
      var m := "-" + j[1..];
      assert m != NEW_ID_STRING by { assert m[0] != NEW_ID_STRING[0]; }
    } else {
      assert j != NEW_ID_STRING;
      assert IsDigit(j[0]);
    }
  }

  /** The one int the round trip misses: Java's minus overflows on
      Integer.MIN_VALUE, so the JSON form is "T-" followed by the digits of
      2147483648, and parsing it fails on the doubled minus sign. */
  lemma JsonRoundTripFailsAtMinValue()
    ensures ToJson(OfInt(MIN_INT)) == "T-" + NatToDecimal(-MIN_INT)
    ensures OfString(Some(ToJson(OfInt(MIN_INT)))).Err?
  {
    MinValueJson();
    var j := ToJson(OfInt(MIN_INT));
    var t := NumericText(j);
    assert t[1] == '-';
    assert !AllDigits(t[1..]) by { assert !IsDigit(t[1..][0]); }
    assert ParseInt(t).None?;
  }

  /** The JSON form of Integer.MIN_VALUE keeps the minus sign of its printed
      negation. */
  lemma MinValueJson()
    ensures ToJson(OfInt(MIN_INT)) == "T-" + NatToDecimal(-MIN_INT)
  {
    SelfNegatingJson(MIN_INT);
  }

  /** An id whose 32-bit negation is itself prints as "T" and then its own
      negative decimal text. */
  lemma SelfNegatingJson(n: Int32)
    requires n < 0 && n != NEW_ID && Negate(n) == n
    ensures ToJson(OfInt(n)) == "T-" + NatToDecimal(-(n as int))
  {
    var id := OfInt(n);
    assert id == DocumentId(n);
    var j := ToJson(id);
    assert j == [TEMPORARY_ID_PREFIX] + IntToString(n);
    NegativeIntToString(n);
  }

  lemma NegativeIntToString(n: int)
    requires n < 0
    ensures IntToString(n) == "-" + NatToDecimal(-n)
  {
  }

  /** The two "new" predicates differ: the static one holds exactly for negative
      ints, the instance one only for -1, so the instance one implies the static
      one but a temporary id shows the converse fails. */
  lemma NewPredicates(id: DocumentId, n: int)
    ensures IsNewInt(n) <==> n < 0
    ensures IsNew(id) ==> IsNewInt(id.idInt)
    ensures IsNewInt(OfInt(-1001).idInt) && !IsNew(OfInt(-1001))
  {
  }

  /** Equal ids hash alike and, since 31 + n is a bijection on 32-bit ints,
      distinct ids hash differently. */
  lemma HashCodeIsInjective(a: DocumentId, b: DocumentId)
    ensures HashCode(a) == HashCode(b) <==> a == b
  {
    if HashCode(a) == HashCode(b) {
      var d := (31 + a.idInt) - (31 + b.idInt);
      assert (HashCode(a) - (31 + a.idInt)) % TWO_32 == 0;
      assert (HashCode(b) - (31 + b.idInt)) % TWO_32 == 0;
      assert d % TWO_32 == 0;
      assert -TWO_32 < d < TWO_32;
    }
  }

  // ---------------------------------------------------------------------------
  // Temporary ids

  /** The process-wide counter behind `generateTemporaryId`, modelled as a value
      threaded from call to call; it starts at -1000. */
  datatype TemporaryIdGenerator = TemporaryIdGenerator(current: Int32)

  const INITIAL_GENERATOR: TemporaryIdGenerator := TemporaryIdGenerator(-1000)

  datatype Generated = Generated(id: Int32, generator: TemporaryIdGenerator)

  /** `generateTemporaryId()`: decrement-and-get, with 32-bit wrap-around. */
  function GenerateTemporaryId(g: TemporaryIdGenerator): (r: Generated)
    ensures r.id == r.generator.current
    ensures g.current != MIN_INT ==> r.id == g.current - 1
    ensures g.current == MIN_INT ==> r.id == MAX_INT
  {
    var next := Wrap32(g.current - 1);
    Generated(next, TemporaryIdGenerator(next))
  }

  /** The ids returned by k successive calls. */
  function GenerateMany(g: TemporaryIdGenerator, k: nat): (ids: seq<Int32>)
    ensures |ids| == k
    decreases k
  {
    if k == 0 then []
    else
      var r := GenerateTemporaryId(g);
      [r.id] + GenerateMany(r.generator, k - 1)
  }

  /** Starting from any counter that has room for k decrements, the i-th call
      returns the counter minus i+1. */
  lemma {:induction false} GenerateManyCountsDown(g: TemporaryIdGenerator, k: nat)
    requires g.current - k >= MIN_INT
    ensures forall i :: 0 <= i < k ==> GenerateMany(g, k)[i] == g.current - 1 - i
    decreases k
  {
    if k > 0 {
      var r := GenerateTemporaryId(g);
      GenerateManyCountsDown(r.generator, k - 1);
      var ids := GenerateMany(g, k);
      assert ids == [r.id] + GenerateMany(r.generator, k - 1);
      forall i | 0 <= i < k
        ensures ids[i] == g.current - 1 - i
      {
        if i > 0 {
          assert ids[i] == GenerateMany(r.generator, k - 1)[i - 1];
        }
      }
    }
  }

  /** How many temporary ids the process can hand out before the counter wraps. */
  const TEMPORARY_ID_CAPACITY: nat := 2147482648

  /** From process start, successive temporary ids are -1001, -1002, ...: strictly
      decreasing, always below -1000 and so never the NEW id, until the counter
      has been used TEMPORARY_ID_CAPACITY times. */
  lemma TemporaryIdsFromStart(k: nat)
    requires k <= TEMPORARY_ID_CAPACITY
    ensures forall i :: 0 <= i < k ==> GenerateMany(INITIAL_GENERATOR, k)[i] == -1001 - i
    ensures forall i, j :: 0 <= i < j < k ==> GenerateMany(INITIAL_GENERATOR, k)[j] < GenerateMany(INITIAL_GENERATOR, k)[i]
    ensures forall i :: 0 <= i < k ==> GenerateMany(INITIAL_GENERATOR, k)[i] < -1000
    ensures forall i :: 0 <= i < k ==> OfInt(GenerateMany(INITIAL_GENERATOR, k)[i]) != NEW
  {
    GenerateManyCountsDown(INITIAL_GENERATOR, k);
  }
}
