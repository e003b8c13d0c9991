/** The default row queries of the handling-unit editor's row buffer: the
    filter pipeline of `streamAllRecursive(query)`, `matchesAnyRowRecursive`,
    and the documented selection rule of `streamByIdsExcludingIncludedRows`.
    How a buffer fetches and caches its rows is not modelled; the rows it
    streams are a parameter. */
module HUEditorViewBuffers {
  import opened Wrappers
  import opened JavaLang
  import opened DocumentIds
  import opened Seqs

  /** HUEditorRowType, kept opaque: only equality is used. */
  datatype RowType = RowType(name: string)

  datatype HURow = HURow(rowId: DocumentId, rowType: RowType, huId: Int32, includedRows: seq<HURow>)

  /** HUEditorRowQuery; a null string filter is `None`. */
  datatype RowQuery = RowQuery(rowType: Option<RowType>, stringFilter: Option<string>, excludeHUIds: set<Int32>)

  /** `row.matchesStringFilter(filter)`, a collaborator. */
  type StringMatcher = (HURow, string) -> bool

  /** `Check.isEmpty(str, true)`: null, or blank once trimmed. */
  predicate IsEmptyTrimmed(s: Option<string>) {
    s.None? || IsBlank(s.value)
  }

  /** The three tests of the pipeline, each switched off by its neutral value. */
  predicate PassesRowType(q: RowQuery, row: HURow) {
    q.rowType.None? || row.rowType == q.rowType.value
  }

  predicate PassesStringFilter(q: RowQuery, matches: StringMatcher, row: HURow) {
    IsEmptyTrimmed(q.stringFilter) || matches(row, q.stringFilter.value)
  }

  predicate PassesExclusion(q: RowQuery, row: HURow) {
    row.huId !in q.excludeHUIds
  }

  /** The row satisfies the query. */
  predicate Passes(q: RowQuery, matches: StringMatcher, row: HURow) {
    PassesRowType(q, row) && PassesStringFilter(q, matches, row) && PassesExclusion(q, row)
  }

  /** The row-type stage: filters only when a row type is given. */
  function FilterByRowType(rows: seq<HURow>, q: RowQuery): (r: seq<HURow>)
    ensures forall x :: x in r <==> x in rows && PassesRowType(q, x)
    ensures IsSubsequence(r, rows)
  {
    if q.rowType.Some? then
      var p := (row: HURow) => row.rowType == q.rowType.value;
      FilterIsSubsequence(rows, p);
      Filter(rows, p)
    else
      SubsequenceIsReflexive(rows);
      rows
  }

  /** The string-filter stage: filters only when the filter is not blank. */
  function FilterByString(rows: seq<HURow>, q: RowQuery, matches: StringMatcher): (r: seq<HURow>)
    ensures forall x :: x in r <==> x in rows && PassesStringFilter(q, matches, x)
    ensures IsSubsequence(r, rows)
  {
    if !IsEmptyTrimmed(q.stringFilter) then
      var p := (row: HURow) => matches(row, q.stringFilter.value);
      FilterIsSubsequence(rows, p);
      Filter(rows, p)
    else
      SubsequenceIsReflexive(rows);
      rows
  }

  /** The exclusion stage: filters only when some HU is excluded. */
  function FilterByExcludedHUs(rows: seq<HURow>, q: RowQuery): (r: seq<HURow>)
    ensures forall x :: x in r <==> x in rows && PassesExclusion(q, x)
    ensures IsSubsequence(r, rows)
  {
    if |q.excludeHUIds| != 0 then
      var p := (row: HURow) => row.huId !in q.excludeHUIds;
      FilterIsSubsequence(rows, p);
      Filter(rows, p)
    else
      SubsequenceIsReflexive(rows);
      rows
  }

  /** `streamAllRecursive(query)` over the rows of `streamAllRecursive()`:
      exactly the rows that satisfy the query. */
  function StreamAllRecursive(all: seq<HURow>, q: RowQuery, matches: StringMatcher): (r: seq<HURow>)
    ensures forall x :: x in r <==> x in all && Passes(q, matches, x)
  {
    FilterByExcludedHUs(FilterByString(FilterByRowType(all, q), q, matches), q)
  }

  /** The result keeps the streamed rows' order and only drops rows. */
  lemma StreamIsSubsequence(all: seq<HURow>, q: RowQuery, matches: StringMatcher)
    ensures IsSubsequence(StreamAllRecursive(all, q, matches), all)
  {
    var byType := FilterByRowType(all, q);
    var byText := FilterByString(byType, q, matches);
    SubsequenceIsTransitive(byText, byType, all);
    SubsequenceIsTransitive(FilterByExcludedHUs(byText, q), byText, all);
  }

  /** A query with no row type, a blank string filter and no excluded HUs
      filters nothing. */
  lemma NeutralQueryKeepsAll(all: seq<HURow>, q: RowQuery, matches: StringMatcher)
    requires q.rowType.None? && IsEmptyTrimmed(q.stringFilter) && q.excludeHUIds == {}
    ensures StreamAllRecursive(all, q, matches) == all
  {
  }

  /** `matchesAnyRowRecursive(query)`: the filtered stream has an element. */
  predicate MatchesAnyRowRecursive(all: seq<HURow>, q: RowQuery, matches: StringMatcher) {
    |StreamAllRecursive(all, q, matches)| > 0
  }

  lemma MatchesAnyIffSomeRowPasses(all: seq<HURow>, q: RowQuery, matches: StringMatcher)
    ensures MatchesAnyRowRecursive(all, q, matches) <==> exists i :: 0 <= i < |all| && Passes(q, matches, all[i])
  {
    var r := StreamAllRecursive(all, q, matches);
    if |r| > 0 {
      assert r[0] in all;
      var i :| 0 <= i < |all| && all[i] == r[0];
      assert Passes(q, matches, all[i]);
    } else {
      forall i | 0 <= i < |all| ensures !Passes(q, matches, all[i]) {
        assert all[i] !in r;
      }
    }
  }

  // ---------------------------------------------------------------------------
  // Selecting rows by id

  /** The rows and, recursively, the rows they include, in pre-order. */
  function Flatten(rows: seq<HURow>): (r: seq<HURow>)
    ensures forall x :: x in rows ==> x in r
    decreases rows
  {
    if |rows| == 0 then []
    else [rows[0]] + Flatten(rows[0].includedRows) + Flatten(rows[1..])
  }

  /** The documented contract of `streamByIdsExcludingIncludedRows`: the
      requested rows, except those included (at any depth) in a requested
      row already returned. The tree is walked from the top, and a requested
      row's own included rows are not searched. */
  function SelectByIds(rows: seq<HURow>, ids: set<DocumentId>): (r: seq<HURow>)
    ensures forall x :: x in r ==> x.rowId in ids && x in Flatten(rows)
    decreases rows
  {
    if |rows| == 0 then []
    else
      var first := if rows[0].rowId in ids then [rows[0]] else SelectByIds(rows[0].includedRows, ids);
      first + SelectByIds(rows[1..], ids)
  }

  /** Every requested row of the tree is returned, or is included in a
      returned row. */
  lemma {:induction false} RequestedRowsAreCovered(rows: seq<HURow>, ids: set<DocumentId>, x: HURow)
    requires x in Flatten(rows) && x.rowId in ids
    ensures x in SelectByIds(rows, ids) ||
            exists y :: y in SelectByIds(rows, ids) && x in Flatten(y.includedRows)
    decreases rows
  {
    var head := rows[0];
    var selected := SelectByIds(rows, ids);
    var first := if head.rowId in ids then [head] else SelectByIds(head.includedRows, ids);
    assert selected == first + SelectByIds(rows[1..], ids);
    if x == head {
    } else if x in Flatten(head.includedRows) {
      if head.rowId in ids {
        assert head in selected;
      } else {
        RequestedRowsAreCovered(head.includedRows, ids, x);
      }
    } else {
      assert x in Flatten(rows[1..]);
      RequestedRowsAreCovered(rows[1..], ids, x);
    }
  }

  /** No two rows of the sequence share a row id, as in a row buffer. */
  predicate UniqueRowIds(rows: seq<HURow>) {
    forall i, j :: 0 <= i < j < |rows| ==> rows[i].rowId != rows[j].rowId
  }

  /** Both halves of a sequence with unique row ids have unique row ids, and
      share no row. */
  lemma UniqueRowIdsSplit(a: seq<HURow>, b: seq<HURow>)
    requires UniqueRowIds(a + b)
    ensures UniqueRowIds(a) && UniqueRowIds(b)
    ensures forall x :: x in b ==> x !in a
  {
    forall i, j | 0 <= i < j < |a| ensures a[i].rowId != a[j].rowId {
      assert (a + b)[i] == a[i] && (a + b)[j] == a[j];
    }
    forall i, j | 0 <= i < j < |b| ensures b[i].rowId != b[j].rowId {
      assert (a + b)[|a| + i] == b[i] && (a + b)[|a| + j] == b[j];
    }
    forall x | x in b ensures x !in a {
      var j :| 0 <= j < |b| && b[j] == x;
      forall k | 0 <= k < |a| ensures a[k] != x {
        assert (a + b)[k] == a[k] && (a + b)[|a| + j] == x;
      }
    }
  }

  /** The rows under a row of the tree are rows of the tree. */
  lemma {:induction false} SubtreeInFlatten(rows: seq<HURow>, y: HURow)
    requires y in Flatten(rows)
    ensures forall z :: z in Flatten(y.includedRows) ==> z in Flatten(rows)
    decreases rows
  {
    var h := rows[0];
    assert Flatten(rows) == [h] + Flatten(h.includedRows) + Flatten(rows[1..]);
    if y == h {
    } else if y in Flatten(h.includedRows) {
      SubtreeInFlatten(h.includedRows, y);
    } else {
      SubtreeInFlatten(rows[1..], y);
    }
  }

  /** With unique row ids, no returned row is included (at any depth) in
      another returned row: requested rows under a returned row are left out. */
  lemma {:induction false} SelectedRowsExcludeIncludedRows(rows: seq<HURow>, ids: set<DocumentId>)
    requires UniqueRowIds(Flatten(rows))
    ensures forall x, y :: x in SelectByIds(rows, ids) && y in SelectByIds(rows, ids) ==>
              x !in Flatten(y.includedRows)
    decreases rows
  {
    if |rows| > 0 {
      var h := rows[0];
      var rest := rows[1..];
      var top := [h] + Flatten(h.includedRows);
      var below := Flatten(rest);
      assert Flatten(rows) == top + below;
      assert Flatten([h]) == top by { assert [h][1..] == []; }
      UniqueRowIdsSplit(top, below);
      UniqueRowIdsSplit([h], Flatten(h.includedRows));
      var first := if h.rowId in ids then [h] else SelectByIds(h.includedRows, ids);
      assert SelectByIds(rows, ids) == first + SelectByIds(rest, ids);
      SelectedRowsExcludeIncludedRows(rest, ids);
      if h.rowId !in ids {
        SelectedRowsExcludeIncludedRows(h.includedRows, ids);
      }
      forall x, y | x in SelectByIds(rows, ids) && y in SelectByIds(rows, ids)
        ensures x !in Flatten(y.includedRows)
      {
        if x in first && y in first {
          if h.rowId in ids {
            assert x == h && y == h;
          }
        } else if x in first {
          assert x in top;
          SubtreeInFlatten(rest, y);
        } else if y in first {
          assert y in Flatten([h]);
          SubtreeInFlatten([h], y);
          assert x in below;
        }
      }
    }
  }

  /** The example of the contract: row 1 includes row 2, which includes row 3.
      Asking for {1, 3} returns row 1 only; asking for {3} returns row 3. */
  lemma SelectionExample(t: RowType)
    ensures var r3 := HURow(DocumentId(3), t, 3, []);
            var r2 := HURow(DocumentId(2), t, 2, [r3]);
            var r1 := HURow(DocumentId(1), t, 1, [r2]);
            SelectByIds([r1], {DocumentId(1), DocumentId(3)}) == [r1] &&
            SelectByIds([r1], {DocumentId(3)}) == [r3]
  {
    var r3 := HURow(DocumentId(3), t, 3, []);
    var r2 := HURow(DocumentId(2), t, 2, [r3]);
    var r1 := HURow(DocumentId(1), t, 1, [r2]);
    assert [r1][1..] == [] && [r2][1..] == [] && [r3][1..] == [];
    assert SelectByIds([r3], {DocumentId(3)}) == [r3];
    assert SelectByIds([r2], {DocumentId(3)}) == [r3];
  }
}
