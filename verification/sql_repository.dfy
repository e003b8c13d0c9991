/** The pure parts of the SQL document repository: the WHERE clause built as a
    text plus a parameter list kept in step with its placeholders, the SELECT
    statement around it, the at-most-one-row rule of single-document retrieval,
    the window-number counter, and how new and loaded documents get their field
    values. Reading the JDBC result set is left to a collaborator. */
module SqlRepository {
  import opened Wrappers
  import opened JavaLang
  import opened DocumentIds

  datatype RepositoryError =
    | NoKeyColumn                          // RuntimeException: no key column for a record id
    | MoreThanOneRecordFound(count: nat)   // DBMoreThenOneRecordsFoundException

  /** The SQL binding of the entity, as far as the query builder reads it. */
  datatype EntityBinding = EntityBinding(selectFrom: string, keyColumn: Option<string>, parentLinkColumn: Option<string>)

  /** A repository query: the record id (if any) and the parent link id, which
      may itself be null and is passed on as it is. */
  datatype Query = Query(recordId: Option<DocumentId>, parentLinkId: Option<DocumentId>)

  type SqlParam = Option<DocumentId>

  // ---------------------------------------------------------------------------
  // WHERE clause

  /** One `column=?` condition with the parameter bound to its placeholder. */
  datatype Condition = Condition(column: string, param: SqlParam)

  const AND_SEPARATOR: string := "\n AND "
  const WHERE_KEYWORD: string := "\n WHERE "

  /** The conditions a query asks for, in the order the builder emits them:
      the key condition, then the parent link condition. */
  function Conditions(b: EntityBinding, q: Query): (r: Result<seq<Condition>, RepositoryError>)
    ensures r.Err? <==> q.recordId.Some? && b.keyColumn.None?
    ensures r.Err? ==> r.error == NoKeyColumn
    ensures r.Ok? ==> |r.value| == (if q.recordId.Some? then 1 else 0) + (if b.parentLinkColumn.Some? then 1 else 0)
    ensures r.Ok? && q.recordId.Some? ==> r.value[0] == Condition(b.keyColumn.value, q.recordId)
    ensures r.Ok? && b.parentLinkColumn.Some? ==> r.value[|r.value| - 1] == Condition(b.parentLinkColumn.value, q.parentLinkId)
  {
    if q.recordId.Some? && b.keyColumn.None? then Err(NoKeyColumn)
    else
      var key := if q.recordId.Some? then [Condition(b.keyColumn.value, q.recordId)] else [];
      var parent := if b.parentLinkColumn.Some? then [Condition(b.parentLinkColumn.value, q.parentLinkId)] else [];
      Ok(key + parent)
  }

  function ConditionText(c: Condition): string {
    c.column + "=?"
  }

  /** The conditions' texts joined by the AND separator. */
  function JoinConditions(cs: seq<Condition>): (r: string)
    ensures |cs| == 0 <==> r == ""
  {
    if |cs| == 0 then ""
    else if |cs| == 1 then ConditionText(cs[0])
    else ConditionText(cs[0]) + AND_SEPARATOR + JoinConditions(cs[1..])
  }

  /** The parameters of the conditions, in order. */
  function ConditionParams(cs: seq<Condition>): (r: seq<SqlParam>)
    ensures |r| == |cs|
    ensures forall i :: 0 <= i < |cs| ==> r[i] == cs[i].param
  {
    if |cs| == 0 then [] else [cs[0].param] + ConditionParams(cs[1..])
  }

  /** One step of the string builder: separator if something is already there,
      then `column=?`. */
  function AppendCondition(where: string, column: string): string {
    (if |where| > 0 then where + AND_SEPARATOR else where) + column + "=?"
  }

  /** `buildSqlWhereClause(sqlParams, query)`: the clause and the parameters it
      added. */
  function BuildSqlWhereClause(b: EntityBinding, q: Query): (r: Result<(string, seq<SqlParam>), RepositoryError>)
    ensures r.Err? <==> q.recordId.Some? && b.keyColumn.None?
    ensures r.Err? ==> r.error == NoKeyColumn
  {
    if q.recordId.Some? && b.keyColumn.None? then Err(NoKeyColumn)
    else
      var (where1, params1) :=
        if q.recordId.Some? then (AppendCondition("", b.keyColumn.value), [q.recordId]) else ("", []);
      var (where2, params2) :=
        if b.parentLinkColumn.Some? then (AppendCondition(where1, b.parentLinkColumn.value), params1 + [q.parentLinkId])
        else (where1, params1);
      Ok((where2, params2))
  }

  /** The builder emits exactly the joined conditions and their parameters in
      the same order. */
  lemma WhereClauseIsJoinedConditions(b: EntityBinding, q: Query)
    ensures BuildSqlWhereClause(b, q).Ok? <==> Conditions(b, q).Ok?
    ensures BuildSqlWhereClause(b, q).Ok? ==>
              BuildSqlWhereClause(b, q).value.0 == JoinConditions(Conditions(b, q).value) &&
              BuildSqlWhereClause(b, q).value.1 == ConditionParams(Conditions(b, q).value)
  {
    if Conditions(b, q).Ok? {
      var cs := Conditions(b, q).value;
      if |cs| == 2 {
        assert cs[1..] == [cs[1]];
      }
    }
  }

  /** The number of occurrences of `c` in `s`. */
  function CountChar(s: string, c: char): (n: nat)
    ensures n <= |s|
  {
    if |s| == 0 then 0 else (if s[0] == c then 1 else 0) + CountChar(s[1..], c)
  }

  lemma {:induction false} CountCharAppend(a: string, b: string, c: char)
    ensures CountChar(a + b, c) == CountChar(a, c) + CountChar(b, c)
    decreases |a|
  {
    if |a| > 0 {
      assert (a + b)[1..] == a[1..] + b;
      CountCharAppend(a[1..], b, c);
    } else {
      assert a + b == b;
    }
  }

  lemma {:induction false} CountCharOfNoOccurrence(s: string, c: char)
    requires forall i :: 0 <= i < |s| ==> s[i] != c
    ensures CountChar(s, c) == 0
    decreases |s|
  {
    if |s| > 0 {
      CountCharOfNoOccurrence(s[1..], c);
    }
  }

  predicate NoPlaceholderIn(column: string) {
    forall i :: 0 <= i < |column| ==> column[i] != '?'
  }

  /** Joined conditions hold one placeholder per condition. */
  lemma {:induction false} JoinedPlaceholders(cs: seq<Condition>)
    requires forall i :: 0 <= i < |cs| ==> NoPlaceholderIn(cs[i].column)
    ensures CountChar(JoinConditions(cs), '?') == |cs|
    decreases |cs|
  {
    if |cs| > 0 {
      var text := ConditionText(cs[0]);
      CountCharOfNoOccurrence(cs[0].column, '?');
      CountCharAppend(cs[0].column, "=?", '?');
      assert CountChar("=?", '?') == 1;
      if |cs| > 1 {
        JoinedPlaceholders(cs[1..]);
        CountCharAppend(text, AND_SEPARATOR, '?');
        CountCharAppend(text + AND_SEPARATOR, JoinConditions(cs[1..]), '?');
        CountCharOfNoOccurrence(AND_SEPARATOR, '?');
      }
    }
  }

  /** When no column name holds a '?', the clause has exactly one placeholder
      per parameter; the i-th parameter belongs to the i-th condition. */
  lemma PlaceholdersMatchParameters(b: EntityBinding, q: Query)
    requires b.keyColumn.Some? ==> NoPlaceholderIn(b.keyColumn.value)
    requires b.parentLinkColumn.Some? ==> NoPlaceholderIn(b.parentLinkColumn.value)
    requires BuildSqlWhereClause(b, q).Ok?
    ensures CountChar(BuildSqlWhereClause(b, q).value.0, '?') == |BuildSqlWhereClause(b, q).value.1|
    ensures q.recordId.Some? ==> BuildSqlWhereClause(b, q).value.1[0] == q.recordId
    ensures b.parentLinkColumn.Some? ==>
              BuildSqlWhereClause(b, q).value.1[|BuildSqlWhereClause(b, q).value.1| - 1] == q.parentLinkId
  {
    WhereClauseIsJoinedConditions(b, q);
    var cs := Conditions(b, q).value;
    forall i | 0 <= i < |cs| ensures NoPlaceholderIn(cs[i].column) {
      if q.recordId.Some? && i == 0 {
      } else {
        assert cs[i] == Condition(b.parentLinkColumn.value, q.parentLinkId);
      }
    }
    JoinedPlaceholders(cs);
  }

  // ---------------------------------------------------------------------------
  // SELECT statement

  /** `buildSql(sqlParams, query)`: the SELECT ... FROM part, followed by the
      WHERE clause only when that is not empty. */
  function BuildSql(b: EntityBinding, q: Query): (r: Result<(string, seq<SqlParam>), RepositoryError>)
    ensures r.Ok? <==> BuildSqlWhereClause(b, q).Ok?
    ensures r.Ok? ==> r.value.1 == BuildSqlWhereClause(b, q).value.1
    ensures r.Ok? ==> |b.selectFrom| <= |r.value.0| && r.value.0[..|b.selectFrom|] == b.selectFrom
    ensures r.Ok? && BuildSqlWhereClause(b, q).value.0 != "" ==>
              r.value.0[|b.selectFrom|..] == WHERE_KEYWORD + BuildSqlWhereClause(b, q).value.0
  {
    var where :- BuildSqlWhereClause(b, q);
    var sql := if where.0 != "" then b.selectFrom + WHERE_KEYWORD + where.0 else b.selectFrom;
    assert sql[..|b.selectFrom|] == b.selectFrom;
    Ok((sql, where.1))
  }

  /** The statement is the bare SELECT exactly when the query asks for no
      condition: no record id and no parent link column. */
  lemma BareSelectIffNoCondition(b: EntityBinding, q: Query)
    requires BuildSql(b, q).Ok?
    ensures BuildSql(b, q).value.0 == b.selectFrom <==> q.recordId.None? && b.parentLinkColumn.None?
    ensures BuildSql(b, q).value.1 == [] <==> q.recordId.None? && b.parentLinkColumn.None?
  {
    WhereClauseIsJoinedConditions(b, q);
    var where := BuildSqlWhereClause(b, q).value.0;
    if where != "" {
      assert |BuildSql(b, q).value.0| == |b.selectFrom| + |WHERE_KEYWORD| + |where|;
    }
  }

  // ---------------------------------------------------------------------------
  // Single-document retrieval

  /** `retriveDocument(query)` over the rows the query retrieved: none is null,
      one is that document, more is an error. */
  function RetrieveDocument<D>(rows: seq<D>): (r: Result<Option<D>, RepositoryError>)
    ensures |rows| == 0 <==> r == Ok(None)
    ensures r.Ok? && r.value.Some? ==> rows == [r.value.value]
    ensures r.Err? <==> |rows| > 1
    ensures r.Err? ==> r.error == MoreThanOneRecordFound(|rows|)
  {
    if |rows| == 0 then Ok(None)
    else if |rows| > 1 then Err(MoreThanOneRecordFound(|rows|))
    else Ok(Some(rows[0]))
  }

  // ---------------------------------------------------------------------------
  // Window numbers

  /** The process-wide `nextWindowNo` counter, threaded from call to call; it
      starts at 1 and every create or load takes increment-and-get. */
  datatype WindowNoCounter = WindowNoCounter(last: Int32)

  const INITIAL_WINDOW_NO_COUNTER: WindowNoCounter := WindowNoCounter(1)

  datatype Taken = Taken(windowNo: Int32, counter: WindowNoCounter)

  /** `nextWindowNo.incrementAndGet()`, with 32-bit wrap-around. */
  function NextWindowNo(c: WindowNoCounter): (r: Taken)
    ensures r.windowNo == r.counter.last
    ensures c.last != MAX_INT ==> r.windowNo == c.last + 1
    ensures c.last == MAX_INT ==> r.windowNo == MIN_INT
  {
    var next := Wrap32(c.last + 1);
    Taken(next, WindowNoCounter(next))
  }

  /** The window numbers of k successive creates or loads. */
  function TakeWindowNos(c: WindowNoCounter, k: nat): (r: seq<Int32>)
    ensures |r| == k
    decreases k
  {
    if k == 0 then []
    else
      var t := NextWindowNo(c);
      [t.windowNo] + TakeWindowNos(t.counter, k - 1)
  }

  lemma {:induction false} TakeWindowNosCountsUp(c: WindowNoCounter, k: nat)
    requires c.last + k <= MAX_INT
    ensures forall i :: 0 <= i < k ==> TakeWindowNos(c, k)[i] == c.last + 1 + i
    decreases k
  {
    if k > 0 {
      var t := NextWindowNo(c);
      TakeWindowNosCountsUp(t.counter, k - 1);
      var r := TakeWindowNos(c, k);
      assert r == [t.windowNo] + TakeWindowNos(t.counter, k - 1);
      forall i | 0 <= i < k
        ensures r[i] == c.last + 1 + i
      {
        if i > 0 {
          assert r[i] == TakeWindowNos(t.counter, k - 1)[i - 1];
        }
      }
    }
  }

  /** From process start the first window number is 2 and they strictly
      increase, until the counter reaches Integer.MAX_VALUE. */
  lemma WindowNosFromStart(k: nat)
    requires k <= MAX_INT - 1
    ensures k > 0 ==> TakeWindowNos(INITIAL_WINDOW_NO_COUNTER, k)[0] == 2
    ensures forall i, j :: 0 <= i < j < k ==> TakeWindowNos(INITIAL_WINDOW_NO_COUNTER, k)[i] < TakeWindowNos(INITIAL_WINDOW_NO_COUNTER, k)[j]
  {
    TakeWindowNosCountsUp(INITIAL_WINDOW_NO_COUNTER, k);
  }

  // ---------------------------------------------------------------------------
  // Field values of new and loaded documents

  /** A field's value slot: Java null is stored as the NullValue marker. */
  datatype Slot<V> = NullValue | Present(v: V)

  /** `NullValue.makeNotNull(value)`. */
  function MakeNotNull<V>(o: Option<V>): (r: Slot<V>)
    ensures r.NullValue? <==> o.None?
    ensures o.Some? ==> r == Present(o.value)
  {
    match o
    case None => NullValue
    case Some(v) => Present(v)
  }

  /** A document field: its descriptor's name, key flag and default value
      expression, and its current and initial value. */
  datatype Field<E, V> = Field(name: string, isKey: bool, defaultValue: E, value: Slot<V>, initialValue: Slot<V>)

  /** A document as far as the repository fills it; `dependencyUpdates` counts
      the calls of `updateAllDependencies`. */
  datatype Document<E, V> = Document(windowNo: Int32, fields: seq<Field<E, V>>, dependencyUpdates: nat)

  /** The evaluation of a default value expression against the document's
      fields as they stand: a value (or null), or a failure. */
  type Evaluator<!E, !V> = (seq<Field<E, V>>, E) -> Result<Option<V>, string>

  /** How one field comes out of default seeding: when its default evaluates
      in `context`, value and initial value both become the not-null value;
      when evaluation fails, the field is left as it was. */
  predicate Seeded<E(==), V(==)>(context: seq<Field<E, V>>, before: Field<E, V>, after: Field<E, V>, evaluate: Evaluator<E, V>) {
    match evaluate(context, before.defaultValue)
    case Ok(v) => after == before.(value := MakeNotNull(v), initialValue := MakeNotNull(v))
    case Err(_) => after == before
  }

  /** `createNewDocument(entityDescriptor)`: takes the next window number, seeds
      each field in order (each evaluation sees the fields seeded before it),
      and updates the dependencies once at the end. */
  method CreateNewDocument<E(==), V(==)>(counter: WindowNoCounter, fields: seq<Field<E, V>>, evaluate: Evaluator<E, V>)
    returns (doc: Document<E, V>, next: WindowNoCounter)
    ensures doc.windowNo == NextWindowNo(counter).windowNo && next == NextWindowNo(counter).counter
    ensures |doc.fields| == |fields|
    ensures forall k :: 0 <= k < |fields| ==> Seeded(doc.fields[..k] + fields[k..], fields[k], doc.fields[k], evaluate)
    ensures doc.dependencyUpdates == 1
  {
    var taken := NextWindowNo(counter);
    var done: seq<Field<E, V>> := [];
    var i := 0;
    while i < |fields|
      invariant 0 <= i <= |fields| && |done| == i
      invariant forall k :: 0 <= k < i ==> Seeded(done[..k] + fields[k..], fields[k], done[k], evaluate)
    {
      var f := fields[i];
      var next := match evaluate(done + fields[i..], f.defaultValue)
        case Ok(v) => f.(value := MakeNotNull(v), initialValue := MakeNotNull(v))
        case Err(_) => f;
      assert (done + [next])[..i] == done[..i];
      assert forall k :: 0 <= k < i ==> (done + [next])[..k] == done[..k];
      done := done + [next];
      i := i + 1;
    }
    doc := Document(taken.windowNo, done, 1);
    next := taken.counter;
  }

  /** A field read from a row: value and initial value are the same not-null value. */
  function LoadField<E, V>(f: Field<E, V>, retrieve: Field<E, V> -> Option<V>): Field<E, V> {
    f.(value := MakeNotNull(retrieve(f)), initialValue := MakeNotNull(retrieve(f)))
  }

  /** The fields of a loaded document. */
  function LoadFields<E(==), V(==)>(fields: seq<Field<E, V>>, retrieve: Field<E, V> -> Option<V>): (r: seq<Field<E, V>>)
    ensures |r| == |fields|
    ensures forall i :: 0 <= i < |r| ==> r[i].value == r[i].initialValue
    ensures forall i :: 0 <= i < |r| ==> r[i].value == MakeNotNull(retrieve(fields[i]))
    ensures forall i :: 0 <= i < |r| ==> r[i] == LoadField(fields[i], retrieve)
  {
    if |fields| == 0 then [] else [LoadField(fields[0], retrieve)] + LoadFields(fields[1..], retrieve)
  }

  /** `retriveDocument(entityDescriptor, rs)`: a fresh window number, every
      field set from the row through `retrieve`, and one dependency update. A
      loaded document therefore starts without changes. */
  function LoadDocument<E(==), V(==)>(counter: WindowNoCounter, fields: seq<Field<E, V>>,
                              retrieve: Field<E, V> -> Option<V>): (r: (Document<E, V>, WindowNoCounter))
    ensures r.0.windowNo == NextWindowNo(counter).windowNo && r.1 == NextWindowNo(counter).counter
    ensures |r.0.fields| == |fields|
    ensures forall i :: 0 <= i < |fields| ==> r.0.fields[i].value == r.0.fields[i].initialValue
    ensures forall i :: 0 <= i < |fields| ==> r.0.fields[i] == fields[i].(value := r.0.fields[i].value, initialValue := r.0.fields[i].value)
    ensures forall i :: 0 <= i < |fields| ==> r.0.fields[i].value == MakeNotNull(retrieve(fields[i]))
    ensures r.0.fields == LoadFields(fields, retrieve)
    ensures r.0.dependencyUpdates == 1
  {
    var taken := NextWindowNo(counter);
    (Document(taken.windowNo, LoadFields(fields, retrieve), 1), taken.counter)
  }
}
