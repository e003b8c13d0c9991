/** LookupValue: an id (an `int` for IntegerLookupValue, a string for
    StringLookupValue) with a display name. Equality and hashing look at the
    id only. The display name is modelled by its default-language text. */
module LookupValues {
  import opened Wrappers
  import opened JavaLang

  /** The id of a lookup value; its kind decides the subclass. */
  datatype LookupId = IntId(intId: Int32) | StrId(strId: string)

  datatype LookupValue = LookupValue(id: LookupId, displayName: string)

  predicate IsIntegerLookup(v: LookupValue) {
    v.id.IntId?
  }

  predicate IsStringLookup(v: LookupValue) {
    v.id.StrId?
  }

  datatype LookupError =
    | NullId                          // NullPointerException("id")
    | NumberFormat(text: string)      // NumberFormatException of Integer.parseInt

  /** The Java objects an id can arrive as. A number other than Integer is
      given by its `intValue()` and its `toString()`. */
  datatype JavaObject =
    | NullObject
    | IntegerObject(value: Int32)
    | OtherNumberObject(intValue: Int32, text: string)
    | StringObject(s: string)
    | OtherObject(text: string)

  predicate IsNumber(o: JavaObject) {
    o.IntegerObject? || o.OtherNumberObject?
  }

  /** `toString()` of a non-null object. */
  function ToText(o: JavaObject): (r: string)
    requires !o.NullObject?
    ensures o.StringObject? ==> r == o.s
    ensures o.IntegerObject? ==> ParseInt(r) == Some(o.value)
  {
    match o
    case IntegerObject(n) => ParseIntOfIntToString(n); IntToString(n)
    case OtherNumberObject(_, t) => t
    case StringObject(s) => s
    case OtherObject(t) => t
  }

  function IntValue(o: JavaObject): Int32
    requires IsNumber(o)
  {
    if o.IntegerObject? then o.value else o.intValue
  }

  /** `normalizeId(idObj, numericKey)`. `Ok(None)` is the null result. */
  function NormalizeId(o: JavaObject, numericKey: bool): (r: Result<Option<LookupId>, LookupError>)
    ensures o.NullObject? ==> r == Ok(None)
    ensures !o.NullObject? && !numericKey ==> r == Ok(Some(StrId(ToText(o))))
    ensures !o.NullObject? && numericKey && IsNumber(o) ==>
              r == (if IntValue(o) < 0 then Ok(None) else Ok(Some(IntId(IntValue(o)))))
    ensures !o.NullObject? && numericKey && !IsNumber(o) && IsBlank(ToText(o)) ==> r == Ok(None)
    ensures !o.NullObject? && numericKey && !IsNumber(o) && !IsBlank(ToText(o)) ==>
              match ParseInt(ToText(o))
              case None => r == Err(NumberFormat(ToText(o)))
              case Some(n) => r == (if n < 0 then Ok(None) else Ok(Some(IntId(n))))
    ensures r.Ok? && r.value.Some? && numericKey ==> r.value.value.IntId? && r.value.value.intId >= 0
  {
    if o.NullObject? then Ok(None)
    else if !numericKey then Ok(Some(StrId(ToText(o))))
    else if IsNumber(o) then
      var n := IntValue(o);
      if n < 0 then Ok(None) else Ok(Some(IntId(n)))
    else
      var text := ToText(o);
      if IsBlank(text) then Ok(None)
      else match ParseInt(text)
        case None => Err(NumberFormat(text))
        case Some(n) => if n < 0 then Ok(None) else Ok(Some(IntId(n)))
  }

  /** The object a normalised id is handed on as. */
  function IdObject(id: LookupId): (o: JavaObject)
    ensures !o.NullObject?
  {
    match id
    case IntId(n) => IntegerObject(n)
    case StrId(s) => StringObject(s)
  }

  /** Normalising an already normalised id gives it back. */
  lemma NormalizeIsIdempotent(o: JavaObject, numericKey: bool)
    requires NormalizeId(o, numericKey).Ok? && NormalizeId(o, numericKey).value.Some?
    ensures NormalizeId(IdObject(NormalizeId(o, numericKey).value.value), numericKey) == NormalizeId(o, numericKey)
  {
  }

  /** With a numeric key, an Integer and its decimal text normalise alike. */
  lemma NormalizeNumberAndText(n: Int32)
    ensures NormalizeId(StringObject(IntToString(n)), true) == NormalizeId(IntegerObject(n), true)
  {
    ParseIntOfIntToString(n);
    var s := IntToString(n);
    assert !IsBlank(s) by {
      BlankIffAllTrimmable(s);
      assert !IsTrimmable(s[0]);
    }
  }

  /** The blank test trims, but the parse does not: text with surrounding
      blanks is rejected rather than normalised. */
  lemma NormalizeParsesUntrimmed()
    ensures NormalizeId(StringObject(" 7"), true) == Err(NumberFormat(" 7"))
  {
    assert !IsBlank(" 7") by {
      BlankIffAllTrimmable(" 7");
      assert !IsTrimmable(" 7"[1]);
    }
    assert ParseInt(" 7") == None by {
      assert !IsDigit(" 7"[0]);
    }
  }

  /** Blank text normalises to null under a numeric key, never to an error. */
  lemma NormalizeBlankIsNull(text: string)
    requires forall i :: 0 <= i < |text| ==> IsTrimmable(text[i])
    ensures NormalizeId(StringObject(text), true) == Ok(None)
  {
    BlankIffAllTrimmable(text);
  }

  /** The constructor: a null id fails, a null display name becomes "". */
  function New(id: Option<LookupId>, displayName: Option<string>): (r: Result<LookupValue, LookupError>)
    ensures id.None? <==> r == Err(NullId)
    ensures r.Ok? ==> r.value.id == id.value
    ensures r.Ok? && displayName.Some? ==> r.value.displayName == displayName.value
    ensures r.Ok? && displayName.None? ==> r.value.displayName == ""
  {
    match id
    case None => Err(NullId)
    case Some(i) => Ok(LookupValue(i, displayName.GetOr("")))
  }

  /** `fromObject(id, displayName)`: Integer ids make an IntegerLookupValue,
      every other non-null id a StringLookupValue of its text. */
  function FromObject(id: JavaObject, displayName: string): (r: Option<LookupValue>)
    ensures id.NullObject? <==> r.None?
    ensures r.Some? ==> r.value.displayName == displayName
    ensures r.Some? ==> (IsIntegerLookup(r.value) <==> id.IntegerObject?)
    ensures id.IntegerObject? ==> r.value.id == IntId(id.value)
    ensures !id.NullObject? && !id.IntegerObject? ==> r.value.id == StrId(ToText(id))
  {
    match id
    case NullObject => None
    case IntegerObject(n) => Some(LookupValue(IntId(n), displayName))
    case _ => Some(LookupValue(StrId(ToText(id)), displayName))
  }

  /** `equals`: by id only. */
  predicate Equals(a: LookupValue, b: LookupValue) {
    a.id == b.id
  }

  /** `hashCode()`: `Objects.hashCode(id)`. */
  function HashCode(v: LookupValue): Int32 {
    match v.id
    case IntId(n) => IntHash(n)
    case StrId(s) => StringHash(s)
  }

  /** The display name takes no part in equality or hashing, and equal values
      hash alike. */
  lemma EqualityIgnoresDisplayName(id: LookupId, name1: string, name2: string, a: LookupValue, b: LookupValue)
    ensures Equals(LookupValue(id, name1), LookupValue(id, name2))
    ensures HashCode(LookupValue(id, name1)) == HashCode(LookupValue(id, name2))
    ensures Equals(a, b) ==> HashCode(a) == HashCode(b)
    ensures IsIntegerLookup(a) && IsStringLookup(b) ==> !Equals(a, b)
  {
  }

  /** `getIdAsString()`: the id's `toString()`. */
  function GetIdAsString(v: LookupValue): (r: string)
    ensures v.id.StrId? ==> r == v.id.strId
    ensures v.id.IntId? ==> ParseInt(r) == Some(v.id.intId)
  {
    ToText(IdObject(v.id))
  }

  /** `getIdAsInt()`: the int id, or the string id parsed as an int. */
  function GetIdAsInt(v: LookupValue): (r: Result<Int32, LookupError>)
    ensures v.id.IntId? ==> r == Ok(v.id.intId)
    ensures v.id.StrId? && ParseInt(v.id.strId).None? ==> r == Err(NumberFormat(v.id.strId))
    ensures v.id.StrId? && ParseInt(v.id.strId).Some? ==> r == Ok(ParseInt(v.id.strId).value)
  {
    match v.id
    case IntId(n) => Ok(n)
    case StrId(s) =>
      match ParseInt(s)
      case None => Err(NumberFormat(s))
      case Some(n) => Ok(n)
  }

  /** The two id accessors agree: the int id is the string id parsed. */
  lemma IdAccessorsAgree(v: LookupValue)
    ensures GetIdAsInt(v).Ok? <==> ParseInt(GetIdAsString(v)).Some?
    ensures GetIdAsInt(v).Ok? ==> GetIdAsInt(v).value == ParseInt(GetIdAsString(v)).value
  {
  }

  /** `IntegerLookupValue.of(StringLookupValue)`. */
  function IntegerOf(sv: Option<LookupValue>): (r: Result<Option<LookupValue>, LookupError>)
    requires sv.Some? ==> IsStringLookup(sv.value)
    ensures sv.None? ==> r == Ok(None)
    ensures sv.Some? && r.Ok? ==> r.value.Some? && IsIntegerLookup(r.value.value)
    ensures sv.Some? && r.Ok? ==> r.value.value.displayName == sv.value.displayName
    ensures sv.Some? ==> (r.Ok? <==> GetIdAsInt(sv.value).Ok?)
    ensures sv.Some? && r.Ok? ==> r.value.value.id == IntId(GetIdAsInt(sv.value).value)
  {
    match sv
    case None => Ok(None)
    case Some(s) =>
      match GetIdAsInt(s)
      case Err(e) => Err(e)
      case Ok(n) => Ok(Some(LookupValue(IntId(n), s.displayName)))
  }

  /** `StringLookupValue.of(getIdAsString(), displayName)` of an integer lookup
      value, the conversion the other way. */
  function StringOf(iv: LookupValue): (r: LookupValue)
    requires IsIntegerLookup(iv)
    ensures IsStringLookup(r) && r.displayName == iv.displayName
    ensures GetIdAsString(r) == GetIdAsString(iv)
  {
    LookupValue(StrId(GetIdAsString(iv)), iv.displayName)
  }

  /** Converting an integer lookup value to a string one and back gives it back. */
  lemma IntegerStringRoundTrip(iv: LookupValue)
    requires IsIntegerLookup(iv)
    ensures IntegerOf(Some(StringOf(iv))) == Ok(Some(iv))
  {
  }

  /** `IntegerLookupValue.unknown(id)`: the display name is the id in angle brackets. */
  function IntegerUnknown(id: Int32): (r: LookupValue)
    ensures r.id == IntId(id)
    ensures |r.displayName| >= 3 && r.displayName[0] == '<' && r.displayName[|r.displayName| - 1] == '>'
    ensures ParseInt(r.displayName[1..|r.displayName| - 1]) == Some(id)
  {
    var inner := IntToString(id);
    var name := "<" + inner + ">";
    assert name[1..|name| - 1] == inner;
    ParseIntOfIntToString(id);
    LookupValue(IntId(id), name)
  }

  /** `StringLookupValue.unknown(value)`; a null value fails in the constructor. */
  function StringUnknown(value: Option<string>): (r: Result<LookupValue, LookupError>)
    ensures value.None? ==> r == Err(NullId)
    ensures value.Some? ==> r.Ok? && r.value.id == StrId(value.value)
    ensures value.Some? ==> |r.value.displayName| == |value.value| + 2
    ensures value.Some? ==> r.value.displayName[1..|r.value.displayName| - 1] == value.value
    ensures value.Some? ==> r.value.displayName[0] == '<' && r.value.displayName[|r.value.displayName| - 1] == '>'
  {
    match value
    case None => Err(NullId)
    case Some(s) =>
      var name := "<" + s + ">";
      assert name[1..|name| - 1] == s;
      Ok(LookupValue(StrId(s), name))
  }
}
