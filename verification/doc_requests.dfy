/**
 The Google Docs `batchUpdate` request lists built by src/gdrive/client.js:
 filling a freshly inserted table cell by cell (`#getFillTableRequests`),
 inserting a table (`#insertBlock`) and replacing a table's body
 (`#updateBlockContent`). Submitting a batch is I/O; here a batch is the
 returned list of requests.
 */
module DocRequests {
  import opened Wrappers
  import opened Utils
  import GDoc

  datatype Request =
    | InsertTable(rows: int, columns: int, location: int)
    | InsertText(text: string, location: int)
    | DeleteTableRow(tableStart: int, rowIndex: int)
    | InsertTableRow(tableStart: int, insertBelow: bool)
    | DeleteContentRange(startIndex: int, endIndex: int)

  /** Why building a batch threw a TypeError. */
  datatype BatchError =
    | EmptyBlockData      // `blockData[0].length` on an empty matrix
    | MissingHeaderRow    // `tableRows[0].endIndex` on a table without rows

  /** A block's cell values, one row per inner sequence. */
  type Matrix = seq<seq<string>>

  /** JavaScript's `String.length`: UTF-16 code units, two for a character outside the BMP. */
  function JsLength(s: string): (n: nat)
    ensures |s| <= n <= 2 * |s|
    ensures (forall i :: 0 <= i < |s| ==> s[i] as int < 0x1_0000) ==> n == |s|
  {
    if |s| == 0 then 0 else (if s[0] as int < 0x1_0000 then 1 else 2) + JsLength(s[1..])
  }

  /** One cell of the row-major walk: its text, and whether it opens its row (`j == 0`). */
  datatype Slot = Slot(text: string, opensRow: bool)

  /** A cell text and the index at which its `insertText` request is placed. */
  datatype Placed = Placed(text: string, location: int)

  function RowSlots(row: seq<string>): (r: seq<Slot>)
    ensures |r| == |row|
    ensures forall j :: 0 <= j < |row| ==> r[j] == Slot(row[j], j == 0)
  {
    seq(|row|, j requires 0 <= j < |row| => Slot(row[j], j == 0))
  }

  /** The cells of `data` in row-major order, as the nested map followed by flattening visits them. */
  function Slots(data: Matrix): seq<Slot>
  {
    if |data| == 0 then [] else RowSlots(data[0]) + Slots(data[1..])
  }

  /** The number of cells in `data`. */
  function CellCount(data: Matrix): nat
  {
    if |data| == 0 then 0 else |data[0]| + CellCount(data[1..])
  }

  lemma {:induction false} SlotsLength(data: Matrix)
    ensures |Slots(data)| == CellCount(data)
  {
    if |data| > 0 {
      SlotsLength(data[1..]);
    }
  }

  /**
   The placement walk with the running `end` counter of `#getFillTableRequests`:
   a cell that opens a row first bumps `end` by one, the cell starts at `end + 1`,
   and `end` moves to `start + cell.length + 1`.
   */
  function Layout(end: int, slots: seq<Slot>): (r: seq<Placed>)
    ensures |r| == |slots|
    ensures forall k :: 0 <= k < |slots| ==> r[k].text == slots[k].text
    ensures 0 < |slots| ==> r[0].location == end + (if slots[0].opensRow then 2 else 1)
    ensures forall k :: 0 <= k < |slots| - 1 ==>
      r[k + 1].location == r[k].location + JsLength(slots[k].text) + (if slots[k + 1].opensRow then 3 else 2)
    decreases |slots|
  {
    if |slots| == 0 then []
    else
      var e := if slots[0].opensRow then end + 1 else end;
      var start := e + 1;
      [Placed(slots[0].text, start)] + Layout(start + JsLength(slots[0].text) + 1, slots[1..])
  }

  /** Cell placements are strictly increasing along the walk. */
  lemma {:induction false} LayoutIncreasing(end: int, slots: seq<Slot>)
    ensures forall i, j :: 0 <= i < j < |slots| ==> Layout(end, slots)[i].location < Layout(end, slots)[j].location
  {
    forall i, j | 0 <= i < j < |slots|
      ensures Layout(end, slots)[i].location < Layout(end, slots)[j].location
    {
      LayoutPairIncreasing(Layout(end, slots), slots, i, j);
    }
  }

  /** Locations that grow at every step grow between any two positions. */
  lemma LayoutPairIncreasing(r: seq<Placed>, slots: seq<Slot>, i: nat, j: nat)
    requires |r| == |slots| && i < j < |slots|
    requires forall k :: 0 <= k < |slots| - 1 ==>
      r[k + 1].location == r[k].location + JsLength(slots[k].text) + (if slots[k + 1].opensRow then 3 else 2)
    ensures r[i].location < r[j].location
  {
    var k := i + 1;
    while k < j
      invariant i < k <= j
      invariant r[i].location < r[k].location
    {
      k := k + 1;
    }
  }

  function ToInsertText(p: Placed): Request
  {
    InsertText(p.text, p.location)
  }

  function Map(ps: seq<Placed>): (r: seq<Request>)
    ensures |r| == |ps|
    ensures forall k :: 0 <= k < |ps| ==> r[k] == ToInsertText(ps[k])
  {
    seq(|ps|, k requires 0 <= k < |ps| => ToInsertText(ps[k]))
  }

  /** Both requests carry a location and the first one's is smaller. */
  predicate Precedes(a: Request, b: Request)
  {
    (a.InsertText? || a.InsertTable?) && (b.InsertText? || b.InsertTable?) && a.location < b.location
  }

  /** The fill keeps a request only when its text is truthy, and the empty string is falsy. */
  predicate HasText(r: Request)
  {
    r.InsertText? && r.text != ""
  }

  /**
   `#getFillTableRequests(index, blockData)`: one `insertText` per non-empty cell,
   row-major, at strictly increasing locations. Empty cells are skipped but still
   take their place in the walk.
   */
  function FillTableRequests(index: int, data: Matrix): (r: seq<Request>)
    ensures forall k :: 0 <= k < |r| ==> r[k].InsertText? && r[k].text != ""
    ensures forall i, j :: 0 <= i < j < |r| ==> r[i].location < r[j].location
    ensures |r| <= CellCount(data)
  {
    var placed := Layout(index + 2, Slots(data));
    var all := Map(placed);
    LayoutIncreasing(index + 2, Slots(data));
    SlotsLength(data);
    FilterKeepsOrder(all, HasText, Precedes);
    var r := Filter(all, HasText);
    assert forall k :: 0 <= k < |r| ==> r[k] in r;
    r
  }

  /** `rs` holds exactly the `insertText` of every cell of `placed` that is not empty. */
  ghost predicate NonEmptyCellsOf(rs: seq<Request>, placed: seq<Placed>)
  {
    forall q :: q in rs <==> exists k :: 0 <= k < |placed| && placed[k].text != "" && q == ToInsertText(placed[k])
  }

  /** Dropping the empty cells keeps exactly the `insertText` of every placed cell that is not empty. */
  lemma KeptExactlyNonEmpty(placed: seq<Placed>)
    ensures NonEmptyCellsOf(Filter(Map(placed), HasText), placed)
  {
    var all := Map(placed);
    forall q | q in Filter(all, HasText)
      ensures exists k :: 0 <= k < |placed| && placed[k].text != "" && q == ToInsertText(placed[k])
    {
      var k :| 0 <= k < |all| && all[k] == q;
    }
    forall k | 0 <= k < |placed| && placed[k].text != ""
      ensures ToInsertText(placed[k]) in Filter(all, HasText)
    {
      assert all[k] in all;
    }
  }

  /**
   A request is in the fill exactly when it is the `insertText` of a cell
   that is not empty, placed where the walk puts that cell.
   */
  lemma FillIsNonEmptyCells(index: int, data: Matrix)
    ensures NonEmptyCellsOf(FillTableRequests(index, data), Layout(index + 2, Slots(data)))
  {
    var placed := Layout(index + 2, Slots(data));
    assert FillTableRequests(index, data) == Filter(Map(placed), HasText);
    KeptExactlyNonEmpty(placed);
  }

  /** The number of cells in the rows before row `i`: where row `i` starts in the walk. */
  function RowStart(data: Matrix, i: nat): nat
    requires i <= |data|
  {
    CellCount(data[..i])
  }

  /** The walk is row-major: cell `(i, j)` is slot `RowStart(data, i) + j`, and it opens its row exactly when `j == 0`. */
  lemma {:induction false} SlotsRowMajor(data: Matrix, i: nat, j: nat)
    requires i < |data| && j < |data[i]|
    ensures RowStart(data, i) + j < |Slots(data)|
    ensures Slots(data)[RowStart(data, i) + j] == Slot(data[i][j], j == 0)
    decreases i
  {
    SlotsLength(data);
    SlotsLength(data[1..]);
    if i == 0 {
      assert data[..0] == [];
    } else {
      SlotsRowMajor(data[1..], i - 1, j);
      assert data[..i][1..] == data[1..][..i - 1];
      assert RowStart(data, i) == |data[0]| + RowStart(data[1..], i - 1);
    }
  }

  /** Cell (0,0) of a table whose first row has a cell is placed at `index + 4`. */
  lemma FirstCellOffset(index: int, data: Matrix)
    requires 0 < |data| && 0 < |data[0]|
    ensures Layout(index + 2, Slots(data))[0] == Placed(data[0][0], index + 4)
  {
    assert Slots(data)[0] == Slot(data[0][0], true);
  }

  /** `#insertBlock`: one `insertTable` sized from the data, then the fill computed from the same index. */
  function InsertBlockRequests(index: int, data: Matrix): (r: Result<seq<Request>, BatchError>)
    ensures r.Failure? <==> |data| == 0
    ensures r.Success? ==>
      && 0 < |r.value|
      && r.value[0] == InsertTable(|data|, |data[0]|, index)
      && r.value[1..] == FillTableRequests(index, data)
  {
    if |data| == 0 then Failure(EmptyBlockData)
    else Success([InsertTable(|data|, |data[0]|, index)] + FillTableRequests(index, data))
  }

  /**
   The row deletions of a table rewrite, computed the way the source does it:
   drop the header row, reverse the rest, and let the `i`-th deletion name row
   `arr.length - i`, where `arr` is the reversed list. Only the list's length
   matters; its elements are ignored.
   */
  function DeleteRowRequests<R>(tableStart: int, tableRows: seq<R>): (r: seq<Request>)
    ensures |tableRows| == 0 ==> r == []
    ensures 0 < |tableRows| ==> |r| == |tableRows| - 1
    ensures forall k :: 0 <= k < |r| ==> r[k] == DeleteTableRow(tableStart, |tableRows| - 1 - k)
  {
    var arr := if |tableRows| == 0 then [] else Reverse(tableRows[1..]);
    seq(|arr|, i requires 0 <= i < |arr| => DeleteTableRow(tableStart, |arr| - i))
  }

  /** `.reverse()`: the same elements in the opposite order. */
  function Reverse<R>(s: seq<R>): (r: seq<R>)
    ensures |r| == |s|
    ensures forall i :: 0 <= i < |s| ==> r[i] == s[|s| - 1 - i]
  {
    if |s| == 0 then [] else Reverse(s[1..]) + [s[0]]
  }

  /** Rows are deleted bottom-up, and the header row 0 never. */
  lemma DeleteRowsBottomUp<R>(tableStart: int, tableRows: seq<R>)
    ensures var r := DeleteRowRequests(tableStart, tableRows);
      && (forall k :: 0 <= k < |r| ==> 1 <= r[k].rowIndex < |tableRows|)
      && (forall i, j :: 0 <= i < j < |r| ==> r[i].rowIndex > r[j].rowIndex)
      && (forall row :: 1 <= row < |tableRows| ==> DeleteTableRow(tableStart, row) in r)
  {
    var r := DeleteRowRequests(tableStart, tableRows);
    forall row | 1 <= row < |tableRows|
      ensures DeleteTableRow(tableStart, row) in r
    {
      assert r[|tableRows| - 1 - row] == DeleteTableRow(tableStart, row);
    }
  }

  function InsertRowRequests(tableStart: int, count: nat): (r: seq<Request>)
    ensures |r| == count
    ensures forall k :: 0 <= k < count ==> r[k] == InsertTableRow(tableStart, true)
  {
    seq(count, _ => InsertTableRow(tableStart, true))
  }

  /**
   `#updateBlockContent(documentId, block, blockData)` for a table starting at
   `tableStart` with rows `tableRows`: delete every row but the header from the
   bottom up, insert one row per data row below it, and fill the cells anchored
   at the header row's `endIndex`.
   */
  function UpdateBlockRequests(tableStart: int, tableRows: seq<GDoc.TableRow>, data: Matrix): (r: Result<seq<Request>, BatchError>)
    ensures r.Failure? <==> |tableRows| == 0
    ensures r.Success? ==>
      var n := |tableRows|;
      && |r.value| == (n - 1) + |data| + |FillTableRequests(tableRows[0].endIndex, data)|
      && (forall k :: 0 <= k < n - 1 ==> r.value[k] == DeleteTableRow(tableStart, n - 1 - k))
      && (forall k :: n - 1 <= k < n - 1 + |data| ==> r.value[k] == InsertTableRow(tableStart, true))
      && r.value[n - 1 + |data|..] == FillTableRequests(tableRows[0].endIndex, data)
  {
    if |tableRows| == 0 then Failure(MissingHeaderRow)
    else
      Success(DeleteRowRequests(tableStart, tableRows)
        + InsertRowRequests(tableStart, |data|)
        + FillTableRequests(tableRows[0].endIndex, data))
  }

  /** A rewrite batch opens with the bottom-up deletions and then one row insertion per data row. */
  lemma UpdateBatchPrefix(tableStart: int, tableRows: seq<GDoc.TableRow>, data: Matrix)
    requires 0 < |tableRows|
    ensures var b := UpdateBlockRequests(tableStart, tableRows, data);
      var n := |tableRows|;
      && b.Success?
      && n - 1 + |data| <= |b.value|
      && (forall i :: 0 <= i < n - 1 ==> b.value[i] == DeleteTableRow(tableStart, n - 1 - i))
      && (forall i :: n - 1 <= i < n - 1 + |data| ==> b.value[i] == InsertTableRow(tableStart, true))
  {
  }

  // ----- Row counts -----

  /**
   The number of rows a table has after the row edits of `reqs` are applied in
   order, or `None` when a deletion names a row that is not there. Requests
   other than row insertions and deletions leave the count alone.
   */
  function RowsAfter(rows: nat, reqs: seq<Request>): Option<nat>
    decreases |reqs|
  {
    if |reqs| == 0 then Some(rows)
    else match reqs[0]
      case DeleteTableRow(_, i) => if 0 <= i < rows then RowsAfter(rows - 1, reqs[1..]) else None
      case InsertTableRow(_, _) => RowsAfter(rows + 1, reqs[1..])
      case _ => RowsAfter(rows, reqs[1..])
  }

  /** Applying two lists of edits one after the other is applying their concatenation. */
  lemma {:induction false} RowsAfterConcat(rows: nat, a: seq<Request>, b: seq<Request>)
    ensures RowsAfter(rows, a + b) == (match RowsAfter(rows, a) case None => None case Some(m) => RowsAfter(m, b))
    decreases |a|
  {
    if |a| == 0 {
      assert a + b == b;
    } else {
      assert (a + b)[0] == a[0] && (a + b)[1..] == a[1..] + b;
      match a[0]
      case DeleteTableRow(_, i) =>
        if 0 <= i < rows {
          RowsAfterConcat(rows - 1, a[1..], b);
        }
      case InsertTableRow(_, _) => RowsAfterConcat(rows + 1, a[1..], b);
      case InsertTable(_, _, _) => RowsAfterConcat(rows, a[1..], b);
      case InsertText(_, _) => RowsAfterConcat(rows, a[1..], b);
      case DeleteContentRange(_, _) => RowsAfterConcat(rows, a[1..], b);
    }
  }

  /** Deleting rows `n - 1` down to 1 of an `n`-row table is always possible and leaves the header row alone. */
  lemma {:induction false} DeletesLeaveHeader<R>(tableStart: int, tableRows: seq<R>)
    requires 0 < |tableRows|
    ensures RowsAfter(|tableRows|, DeleteRowRequests(tableStart, tableRows)) == Some(1)
    decreases |tableRows|
  {
    var ds := DeleteRowRequests(tableStart, tableRows);
    if 1 < |tableRows| {
      var shorter := tableRows[..|tableRows| - 1];
      DeletesLeaveHeader(tableStart, shorter);
      assert ds[1..] == DeleteRowRequests(tableStart, shorter);
    }
  }

  /** Each row insertion adds one row. */
  lemma {:induction false} InsertsAddRows(rows: nat, tableStart: int, count: nat)
    ensures RowsAfter(rows, InsertRowRequests(tableStart, count)) == Some(rows + count)
    decreases count
  {
    if 0 < count {
      InsertsAddRows(rows + 1, tableStart, count - 1);
      assert InsertRowRequests(tableStart, count)[1..] == InsertRowRequests(tableStart, count - 1);
    }
  }

  /** Text insertions do not change the number of rows. */
  lemma {:induction false} TextKeepsRows(rows: nat, reqs: seq<Request>)
    requires forall k :: 0 <= k < |reqs| ==> reqs[k].InsertText?
    ensures RowsAfter(rows, reqs) == Some(rows)
    decreases |reqs|
  {
    if 0 < |reqs| {
      TextKeepsRows(rows, reqs[1..]);
    }
  }

  /**
   Every deletion of a table rewrite names a row that exists when it runs, and
   the rewritten table ends with its header row plus one row per data row.
   */
  lemma UpdateLeavesHeaderAndDataRows(tableStart: int, tableRows: seq<GDoc.TableRow>, data: Matrix)
    requires 0 < |tableRows|
    ensures RowsAfter(|tableRows|, UpdateBlockRequests(tableStart, tableRows, data).value) == Some(1 + |data|)
  {
    var deletes := DeleteRowRequests(tableStart, tableRows);
    var inserts := InsertRowRequests(tableStart, |data|);
    var fill := FillTableRequests(tableRows[0].endIndex, data);
    DeletesLeaveHeader(tableStart, tableRows);
    InsertsAddRows(1, tableStart, |data|);
    TextKeepsRows(1 + |data|, fill);
    RowsAfterConcat(|tableRows|, deletes, inserts);
    RowsAfterConcat(|tableRows|, deletes + inserts, fill);
  }
}
