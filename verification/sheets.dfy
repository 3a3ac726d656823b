/**
 The spreadsheet helpers of src/gdrive/client.js that compute something
 rather than only forwarding a call: the row search over a value matrix
 (`findRowInSheet`, `findRowsInSheet`), the grid ranges of row and column
 insertion and row deletion, and the column name of `updateSheetColumnAt`.
 */
module Sheets {
  import opened Wrappers
  import opened Utils

  type Row = seq<string>

  // ----- Row search -----

  /** The index of a matching row and the row itself; index -1 and no row when nothing matches. */
  datatype RowMatch = RowMatch(index: int, values: Option<Row>)

  /** A row tagged with its position in the sheet. */
  datatype IndexedRow = IndexedRow(index: nat, values: Row)

  /** `findRowInSheet` over the sheet's value matrix: the first row the filter accepts. */
  function FindRowInSheet(values: seq<Row>, filter: Row -> bool): (r: RowMatch)
    ensures -1 <= r.index < |values|
    ensures r.index == -1 <==> forall i :: 0 <= i < |values| ==> !filter(values[i])
    ensures r.index != -1 ==> filter(values[r.index]) && forall j :: 0 <= j < r.index ==> !filter(values[j])
    ensures r.index == -1 ==> r.values.None?
    ensures r.index != -1 ==> r.values == Some(values[r.index])
  {
    var index := FindIndex(values, filter);
    RowMatch(index, if index == -1 then None else Some(values[index]))
  }

  /** Each row of the value matrix paired with its zero-based index. */
  function Tag(values: seq<Row>): (r: seq<IndexedRow>)
    ensures |r| == |values|
    ensures forall i :: 0 <= i < |values| ==> r[i] == IndexedRow(i, values[i])
  {
    seq(|values|, i requires 0 <= i < |values| => IndexedRow(i, values[i]))
  }

  /** `findRowsInSheet` over the sheet's value matrix: every accepted row, in sheet order, with its index. */
  function FindRowsInSheet(values: seq<Row>, filter: Row -> bool): (r: seq<IndexedRow>)
    ensures forall t :: t in r ==> t.index < |values| && values[t.index] == t.values && filter(t.values)
    ensures forall i :: 0 <= i < |values| && filter(values[i]) ==> IndexedRow(i, values[i]) in r
    ensures forall a, b :: 0 <= a < b < |r| ==> r[a].index < r[b].index
  {
    var tagged := Tag(values);
    assert forall i :: 0 <= i < |values| && filter(values[i]) ==> tagged[i] in tagged;
    FilterKeepsOrder(tagged, (t: IndexedRow) => filter(t.values), (a: IndexedRow, b: IndexedRow) => a.index < b.index);
    Filter(tagged, (t: IndexedRow) => filter(t.values))
  }

  /** The single-row search reports the first entry of the multi-row search. */
  lemma FindRowIsFirstOfFindRows(values: seq<Row>, filter: Row -> bool)
    ensures var one := FindRowInSheet(values, filter);
      var all := FindRowsInSheet(values, filter);
      && (one.index == -1 <==> all == [])
      && (one.index != -1 ==> all[0] == IndexedRow(one.index, one.values.value))
  {
    var one := FindRowInSheet(values, filter);
    var all := FindRowsInSheet(values, filter);
    if one.index != -1 {
      var t := IndexedRow(one.index, values[one.index]);
      assert t in all;
      var k :| 0 <= k < |all| && all[k] == t;
      assert all[0] in all;
      assert all[0].index <= all[k].index;
    }
  }

  /**
   The JavaScript value `const { values } = await this.getCellRangeInSheet(...)`
   works with. `getCellRangeInSheet` already returns the response's `values`
   array (or `undefined` for an empty range), so destructuring `values` again
   picks the array's own `values` property: the method `Array.prototype.values`.
   */
  datatype JsValue = Undefined | Matrix(rows: seq<Row>) | ArrayValuesMethod

  datatype SheetError =
    | DestructuredUndefined   // `const { values } = undefined`
    | NotAFunction            // `values.findIndex` / `values.map` on a function

  /** `const { values } = range`. */
  function DestructureValues(range: JsValue): Result<JsValue, SheetError>
  {
    match range
    case Undefined => Failure(DestructuredUndefined)
    case Matrix(_) => Success(ArrayValuesMethod)
    case ArrayValuesMethod => Success(Undefined)
  }

  /**
   Searching the bound value, then reading the row at the index found: only an
   array has the search method. Destructuring never binds an array here, so the
   first branch is unreachable from the row search as written.
   */
  function CallFindIndex(values: JsValue, filter: Row -> bool): Result<RowMatch, SheetError>
  {
    match values
    case Matrix(rows) => Success(FindRowInSheet(rows, filter))
    case _ => Failure(NotAFunction)
  }

  /** Mapping then filtering the bound value: only an array has those methods. */
  function CallMapFilter(values: JsValue, filter: Row -> bool): Result<seq<IndexedRow>, SheetError>
  {
    match values
    case Matrix(rows) => Success(FindRowsInSheet(rows, filter))
    case _ => Failure(NotAFunction)
  }

  /** `findRowInSheet` as written, given what `getCellRangeInSheet` resolves to. */
  function FindRowInSheetAsWritten(range: JsValue, filter: Row -> bool): Result<RowMatch, SheetError>
  {
    var values :- DestructureValues(range);
    CallFindIndex(values, filter)
  }

  /** `findRowsInSheet` as written, given what `getCellRangeInSheet` resolves to. */
  function FindRowsInSheetAsWritten(range: JsValue, filter: Row -> bool): Result<seq<IndexedRow>, SheetError>
  {
    var values :- DestructureValues(range);
    CallMapFilter(values, filter)
  }

  /** Whatever the sheet holds, the row searches as written throw before looking at a row. */
  lemma RowSearchAsWrittenAlwaysThrows(rows: seq<Row>, filter: Row -> bool)
    ensures FindRowInSheetAsWritten(Matrix(rows), filter) == Failure(NotAFunction)
    ensures FindRowsInSheetAsWritten(Matrix(rows), filter) == Failure(NotAFunction)
    ensures FindRowInSheetAsWritten(Undefined, filter) == Failure(DestructuredUndefined)
    ensures FindRowsInSheetAsWritten(Undefined, filter) == Failure(DestructuredUndefined)
  {
  }

  // ----- Grid ranges -----

  /** A zero-based half-open range of rows or columns, as in a `GridRange`. */
  datatype DimensionRange = DimensionRange(startIndex: int, endIndex: int)

  predicate Covers(r: DimensionRange, i: int)
  {
    r.startIndex <= i < r.endIndex
  }

  /** `insertRowIntoSheetAt`: `startRowIndex: index - 1, endRowIndex: index`. */
  function InsertRowRange(index: int): (r: DimensionRange)
    ensures forall i :: Covers(r, i) <==> i == index - 1
  {
    DimensionRange(index - 1, index)
  }

  /** `insertSheetColumnAt`: `startColumnIndex: index - 1, endColumnIndex: index`. */
  function InsertColumnRange(index: int): (r: DimensionRange)
    ensures forall i :: Covers(r, i) <==> i == index - 1
  {
    DimensionRange(index - 1, index)
  }

  /** `deleteRowFromSheet`: `startIndex: index, endIndex: index + 1`. */
  function DeleteRowRange(index: int): (r: DimensionRange)
    ensures forall i :: Covers(r, i) <==> i == index
  {
    DimensionRange(index, index + 1)
  }

  /** Deletion counts rows from 0, like `findRowInSheet`: deleting the reported index removes the found row. */
  lemma DeleteRemovesFoundRow(values: seq<Row>, filter: Row -> bool)
    requires FindRowInSheet(values, filter).index != -1
    ensures var m := FindRowInSheet(values, filter);
      && (forall i :: Covers(DeleteRowRange(m.index), i) <==> i == m.index)
      && Some(values[m.index]) == m.values
      && filter(values[m.index])
  {
  }

  /** The two conventions differ by one: inserting at `index` opens the row deleting at `index - 1` removes. */
  lemma InsertAndDeleteCountDifferently(index: int)
    ensures InsertRowRange(index) == DeleteRowRange(index - 1)
  {
  }

  // ----- Column names -----

  /** A UTF-16 code unit, what `String.fromCharCode` produces. */
  type CodeUnit = n: int | 0 <= n < 0x1_0000

  /** `String.fromCharCode(n)` for an integer `n`: ToUint16 wraps it modulo 2^16. */
  function FromCharCode(n: int): CodeUnit
  {
    n % 0x1_0000
  }

  /**
   JavaScript's `a % b`: the remainder takes the sign of the dividend, so a
   negative dividend gives the negated remainder of its magnitude.
   */
  function JsRemainder(a: int, b: int): (r: int)
    requires 0 < b
    ensures a >= 0 ==> 0 <= r < b
    ensures a < 0 ==> -b < r <= 0
    ensures a >= 0 ==> r == a % b
    ensures a < 0 ==> r == -((-a) % b)
  {
    if a >= 0 then a % b else -((-a) % b)
  }

  const At: CodeUnit := 64

  /**
   The column name of `updateSheetColumnAt`: a leading letter for
   `Math.floor(index / 26)` when `index > 26`, then the letter for
   `index % 26`, each offset from `@` (code 64).
   */
  function ColumnName(index: int): (s: seq<CodeUnit>)
    ensures |s| == (if index > 26 then 2 else 1)
    ensures 1 <= index <= 26 ==> s == [FromCharCode(64 + index % 26)]
  {
    (if index > 26 then [FromCharCode(64 + index / 26)] else [])
    + [FromCharCode(64 + JsRemainder(index, 26))]
  }

  /** Up to 25 the name is a single letter A..Y, but 26 comes out as `@` and 52 as `B@`. */
  lemma ColumnNameSmallValues(index: int)
    requires 1 <= index <= 25
    ensures ColumnName(index) == [64 + index]
    ensures 65 <= ColumnName(index)[0] <= 89
  {
  }

  lemma ColumnNameAtMultiplesOf26()
    ensures ColumnName(26) == [At]
    ensures ColumnName(52) == [66, At]
  {
  }

  /** The 1-based bijective base-26 name with digits A..Z: 1 is "A", 26 is "Z", 27 is "AA", 52 is "AZ". */
  function BijectiveColumnName(n: int): (s: seq<CodeUnit>)
    ensures n < 1 ==> s == []
    ensures 1 <= n ==> 0 < |s|
    ensures forall i :: 0 <= i < |s| ==> 65 <= s[i] <= 90
    decreases n
  {
    if n < 1 then []
    else BijectiveColumnName((n - 1) / 26) + [(65 + (n - 1) % 26) as CodeUnit]
  }

  /** Reading a name of letters A..Z back as a column number. */
  function ColumnNumber(s: seq<CodeUnit>): int
  {
    if |s| == 0 then 0 else ColumnNumber(s[..|s| - 1]) * 26 + (s[|s| - 1] as int - 64)
  }

  /** Every column number is read back from its name. */
  lemma {:induction false} ColumnNumberOfName(n: int)
    requires 1 <= n
    ensures ColumnNumber(BijectiveColumnName(n)) == n
    decreases n
  {
    var s := BijectiveColumnName(n);
    var q := (n - 1) / 26;
    assert s[..|s| - 1] == BijectiveColumnName(q);
    if 1 <= q {
      ColumnNumberOfName(q);
    }
  }

  predicate Letters(s: seq<CodeUnit>)
  {
    forall i :: 0 <= i < |s| ==> 65 <= s[i] <= 90
  }

  lemma {:induction false} ColumnNumberPositive(s: seq<CodeUnit>)
    requires Letters(s) && 0 < |s|
    ensures 1 <= ColumnNumber(s)
  {
    if 1 < |s| {
      ColumnNumberPositive(s[..|s| - 1]);
    }
  }

  /** Every name of letters A..Z is the name of its column number. */
  lemma {:induction false} NameOfColumnNumber(s: seq<CodeUnit>)
    requires Letters(s) && 0 < |s|
    ensures BijectiveColumnName(ColumnNumber(s)) == s
    decreases |s|
  {
    var prefix := s[..|s| - 1];
    var n := ColumnNumber(s);
    var d := s[|s| - 1] - 65;
    assert n - 1 == ColumnNumber(prefix) * 26 + d;
    assert (n - 1) / 26 == ColumnNumber(prefix) && (n - 1) % 26 == d;
    if 0 < |prefix| {
      NameOfColumnNumber(prefix);
    }
    assert s == prefix + [s[|s| - 1]];
  }

  /** Between 27 and 701 the name as written has two letters, from the quotient and the remainder of `index` by 26. */
  lemma ColumnNameTwoLetters(n: int)
    requires 27 <= n <= 701
    ensures ColumnName(n) == [64 + n / 26, 64 + n % 26]
  {
    assert 1 <= n / 26 <= 26;
    assert FromCharCode(64 + n / 26) == 64 + n / 26;
    assert FromCharCode(64 + JsRemainder(n, 26)) == 64 + n % 26;
  }

  /** Between 1 and 26 the bijective name is the single letter `n`. */
  lemma BijectiveOneLetter(n: int)
    requires 1 <= n <= 26
    ensures BijectiveColumnName(n) == [64 + n]
  {
    assert (n - 1) / 26 == 0;
  }

  /** Between 27 and 702 the bijective name has two letters, from the quotient and remainder of `n - 1` by 26. */
  lemma BijectiveTwoLetters(n: int)
    requires 27 <= n <= 702
    ensures BijectiveColumnName(n) == [64 + (n - 1) / 26, 65 + (n - 1) % 26]
  {
    var q := (n - 1) / 26;
    assert 1 <= q <= 26;
    BijectiveOneLetter(q);
  }

  /**
   Below 702 (the last two-letter name, "ZZ") the name as written agrees with
   the bijective name exactly when the index is not a multiple of 26.
   */
  lemma ColumnNameDiffersAtMultiplesOf26(n: int)
    requires 1 <= n <= 701
    ensures ColumnName(n) == BijectiveColumnName(n) <==> n % 26 != 0
  {
    var a := ColumnName(n);
    var b := BijectiveColumnName(n);
    if n < 26 {
      BijectiveOneLetter(n);
      ColumnNameSmallValues(n);
    } else if n == 26 {
      BijectiveOneLetter(n);
      ColumnNameAtMultiplesOf26();
      assert a[0] != b[0];
    } else {
      ColumnNameTwoLetters(n);
      BijectiveTwoLetters(n);
      var q, r := n / 26, n % 26;
      assert n == 26 * q + r;
      if r != 0 {
        assert (n - 1) / 26 == q && (n - 1) % 26 == r - 1;
      } else {
        assert a[1] != b[1];
      }
    }
  }
}
