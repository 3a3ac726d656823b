/**
 The structural edits of src/gdrive/client.js on a fetched document:
 `appendBlock`, `insertBlockAt`, `removeBlock`, `updateBlock`,
 `updatePageMetadata` and `updateSectionMetadata`. Each produces the single
 `batchUpdate` call it would submit, or the reason the JavaScript throws
 before submitting anything. Fetching the document is I/O and is replaced
 by the `Document` argument.
 */
module DocEditor {
  import opened Wrappers
  import opened Utils
  import opened GDoc
  import opened Sections
  import opened DocRequests

  datatype EditError =
    | UndefinedSibling    // `appendBlock` reads `endIndex` of a missing element
    | UndefinedBlock      // the addressed table does not exist
    | HeaderNotText       // a table's first cell does not start with a text run
    | Batch(reason: BatchError)

  /** One `documents.batchUpdate` call. */
  datatype Update = Update(documentId: string, requests: seq<Request>)

  function Submit(documentId: string, batch: Result<seq<Request>, BatchError>): (r: Result<Update, EditError>)
    ensures r.Success? <==> batch.Success?
    ensures r.Success? ==> r.value == Update(documentId, batch.value)
    ensures r.Failure? ==> r.error == Batch(batch.error)
  {
    match batch
    case Success(requests) => Success(Update(documentId, requests))
    case Failure(e) => Failure(Batch(e))
  }

  // ----- Positional edits -----

  /**
   `appendBlock(docPath, sectionIndex, blockData)`: a new table at the end of
   the element just before the break that closes section `sectionIndex`.
   */
  function AppendBlock(doc: Document, sectionIndex: int, data: Matrix): (r: Result<Update, EditError>)
    ensures AppendPosition(doc.content, sectionIndex).None? ==> r == Failure(UndefinedSibling)
    ensures AppendPosition(doc.content, sectionIndex).Some? && |data| == 0 ==> r == Failure(Batch(EmptyBlockData))
    ensures r.Success? ==>
      && r.value.documentId == doc.documentId
      && 0 < |r.value.requests|
      && r.value.requests[0] == InsertTable(|data|, |data[0]|, AppendPosition(doc.content, sectionIndex).value)
      && r.value.requests[1..] == FillTableRequests(AppendPosition(doc.content, sectionIndex).value, data)
  {
    match AppendPosition(doc.content, sectionIndex)
    case None => Failure(UndefinedSibling)
    case Some(position) => Submit(doc.documentId, InsertBlockRequests(position, data))
  }

  /**
   An append succeeds exactly when the section is closed by a break that is not
   the first element and the data has a row; the table then goes right before
   that break.
   */
  lemma AppendBlockLocation(doc: Document, sectionIndex: int, data: Matrix)
    ensures AppendBlock(doc, sectionIndex, data).Success?
        <==> 0 <= sectionIndex < Breaks(doc.content) && !(sectionIndex == 0 && IsBreak(doc.content[0])) && 0 < |data|
    ensures AppendBlock(doc, sectionIndex, data).Success? ==>
      exists k :: 1 <= k < |doc.content| && IsBreak(doc.content[k]) && Breaks(doc.content[..k]) == sectionIndex
        && AppendBlock(doc, sectionIndex, data).value.requests[0]
           == InsertTable(|data|, |data[0]|, doc.content[k - 1].endIndex)
  {
    AppendPositionCharacterization(doc.content, sectionIndex);
  }

  /**
   `insertBlockAt(docPath, sectionIndex, index, blockData)`: a new table at the
   position `#getElementPosition` computes, which is -1 when nothing matches;
   the source passes -1 on to the backend unchecked.
   */
  function InsertBlockAt(doc: Document, sectionIndex: int, index: int, data: Matrix): (r: Result<Update, EditError>)
    ensures r.Success? <==> 0 < |data|
    ensures r.Success? ==>
      var position := GetElementPosition(doc.content, sectionIndex, index);
      && r.value.documentId == doc.documentId
      && 0 < |r.value.requests|
      && r.value.requests[0] == InsertTable(|data|, |data[0]|, position)
      && r.value.requests[1..] == FillTableRequests(position, data)
  {
    Submit(doc.documentId, InsertBlockRequests(GetElementPosition(doc.content, sectionIndex, index), data))
  }

  /** Inserting at position 0 of section 0 always targets index -1. */
  lemma InsertAtOriginTargetsMinusOne(doc: Document, data: Matrix)
    requires 0 < |data|
    ensures InsertBlockAt(doc, 0, 0, data).value.requests[0] == InsertTable(|data|, |data[0]|, -1)
  {
    OriginNeverMatches(doc.content);
  }

  // ----- Blocks by position -----

  predicate HasTable(c: Element)
  {
    c.table.Some?
  }

  /** The body elements that carry a table, in document order: the blocks `removeBlock` and `updateBlock` index into. */
  function Blocks(content: seq<Element>): (r: seq<Element>)
    ensures forall c :: c in r ==> c in content && c.table.Some?
    ensures |r| == CountSat(content, HasTable)
  {
    FilterLength(content, HasTable);
    Filter(content, HasTable)
  }

  /** The element at content index `k`, if it has a table, is block number "tables before it". */
  lemma BlockAddressing(content: seq<Element>, k: nat)
    requires k < |content| && content[k].table.Some?
    ensures CountSat(content[..k], HasTable) < |Blocks(content)|
    ensures Blocks(content)[CountSat(content[..k], HasTable)] == content[k]
  {
    assert content == content[..k] + ([content[k]] + content[k + 1..]);
    FilterConcat(content[..k], [content[k]] + content[k + 1..], HasTable);
    FilterConcat([content[k]], content[k + 1..], HasTable);
    FilterLength(content[..k], HasTable);
    assert Filter([content[k]], HasTable) == [content[k]];
  }

  /** Every block is some table element of the content, addressed by the count of tables before it. */
  lemma {:induction false} BlockHasAddress(content: seq<Element>, b: nat)
    requires b < |Blocks(content)|
    ensures exists k ::
      && 0 <= k < |content| && content[k].table.Some?
      && CountSat(content[..k], HasTable) == b && Blocks(content)[b] == content[k]
    decreases |content|
  {
    var last := |content| - 1;
    var init := content[..last];
    BlocksSnoc(init, content[last]);
    assert content == init + [content[last]];
    if b < |Blocks(init)| {
      BlockHasAddress(init, b);
      var k :| 0 <= k < last && init[k].table.Some?
        && CountSat(init[..k], HasTable) == b && Blocks(init)[b] == init[k];
      assert init[..k] == content[..k];
      assert Blocks(content)[b] == content[k];
    } else {
      assert content[last].table.Some? && CountSat(content[..last], HasTable) == b;
      assert Blocks(content)[b] == content[last];
    }
  }

  /** Appending an element adds it to the blocks exactly when it has a table. */
  lemma BlocksSnoc(init: seq<Element>, x: Element)
    ensures Blocks(init + [x]) == Blocks(init) + (if x.table.Some? then [x] else [])
  {
    FilterConcat(init, [x], HasTable);
    assert [x][1..] == [];
  }

  /** `removeBlock(docPath, blockIndex)`: one range deletion spanning the addressed table. */
  function RemoveBlock(doc: Document, blockIndex: int): (r: Result<Update, EditError>)
    ensures r.Failure? <==> !(0 <= blockIndex < |Blocks(doc.content)|)
    ensures r.Failure? ==> r.error == UndefinedBlock
    ensures r.Success? ==> |r.value.requests| == 1 && r.value.requests[0].DeleteContentRange?
    ensures r.Success? ==> r.value.documentId == doc.documentId
  {
    var blocks := Blocks(doc.content);
    if 0 <= blockIndex < |blocks| then
      Success(Update(doc.documentId, [DeleteContentRange(blocks[blockIndex].startIndex, blocks[blockIndex].endIndex)]))
    else
      Failure(UndefinedBlock)
  }

  /** Removing block `b` deletes exactly the content range of the `b`-th element that has a table. */
  lemma RemoveBlockSpansAddressedTable(doc: Document, k: nat)
    requires k < |doc.content| && doc.content[k].table.Some?
    ensures RemoveBlock(doc, CountSat(doc.content[..k], HasTable))
         == Success(Update(doc.documentId, [DeleteContentRange(doc.content[k].startIndex, doc.content[k].endIndex)]))
  {
    BlockAddressing(doc.content, k);
  }

  /** `updateBlock(docPath, blockIndex, blockData)`: rewrite the addressed table's body. */
  function UpdateBlock(doc: Document, blockIndex: int, data: Matrix): (r: Result<Update, EditError>)
    ensures !(0 <= blockIndex < |Blocks(doc.content)|) ==> r == Failure(UndefinedBlock)
    ensures 0 <= blockIndex < |Blocks(doc.content)| ==>
      var t := Blocks(doc.content)[blockIndex];
      r == Submit(doc.documentId, UpdateBlockRequests(t.startIndex, t.table.value.tableRows, data))
  {
    var blocks := Blocks(doc.content);
    if 0 <= blockIndex < |blocks| then
      var t := blocks[blockIndex];
      Submit(doc.documentId, UpdateBlockRequests(t.startIndex, t.table.value.tableRows, data))
    else
      Failure(UndefinedBlock)
  }

  /** Updating block `b` rewrites the `b`-th element that has a table, anchored at that element's offsets. */
  lemma UpdateBlockRewritesAddressedTable(doc: Document, k: nat, data: Matrix)
    requires k < |doc.content| && doc.content[k].table.Some?
    ensures UpdateBlock(doc, CountSat(doc.content[..k], HasTable), data)
         == Submit(doc.documentId, UpdateBlockRequests(doc.content[k].startIndex, doc.content[k].table.value.tableRows, data))
  {
    BlockAddressing(doc.content, k);
  }

  // ----- Blocks by header name -----

  /**
   What reading a table's header text yields: the first text run of the first
   paragraph of the first cell of the first row. A missing table, row, cell or
   content element is guarded and gives no header; a missing paragraph, element
   or text run below that is not guarded and throws.
   */
  datatype Probe = NoHeader | HeaderText(text: string) | Throws

  function HeaderProbe(c: Element): Probe
  {
    if c.table.None? then NoHeader
    else
      var rows := c.table.value.tableRows;
      if |rows| == 0 || |rows[0].tableCells| == 0 || |rows[0].tableCells[0].content| == 0 then NoHeader
      else
        var first := rows[0].tableCells[0].content[0];
        if first.paragraph.None? then Throws
        else if |first.paragraph.value.elements| == 0 then Throws
        else if first.paragraph.value.elements[0].textRun.None? then Throws
        else HeaderText(first.paragraph.value.elements[0].textRun.value.content)
  }

  function LowerChar(c: char): char
  {
    if 'A' <= c <= 'Z' then (c as int + 32) as char else c
  }

  /** `toLowerCase()` on the ASCII letters. */
  function AsciiLower(s: string): (r: string)
    ensures |r| == |s|
    ensures forall i :: 0 <= i < |s| ==> r[i] == LowerChar(s[i])
  {
    seq(|s|, i requires 0 <= i < |s| => LowerChar(s[i]))
  }

  /** `x` and `y` are the same character up to the case of an ASCII letter. */
  predicate SameIgnoringCase(x: char, y: char)
  {
    || x == y
    || ('A' <= x <= 'Z' && y as int == x as int + 32)
    || ('A' <= y <= 'Z' && x as int == y as int + 32)
  }

  /** `a` and `b` agree position by position up to the case of ASCII letters. */
  predicate CaselessEqual(a: string, b: string)
  {
    |a| == |b| && forall i :: 0 <= i < |a| ==> SameIgnoringCase(a[i], b[i])
  }

  /** Lower-casing two strings makes them equal exactly when they are equal up to ASCII case. */
  lemma AsciiLowerMatchesCaseless(a: string, b: string)
    ensures AsciiLower(a) == AsciiLower(b) <==> CaselessEqual(a, b)
  {
    if CaselessEqual(a, b) {
      assert forall i :: 0 <= i < |a| ==> AsciiLower(a)[i] == AsciiLower(b)[i];
    }
    if AsciiLower(a) == AsciiLower(b) {
      forall i | 0 <= i < |a|
        ensures SameIgnoringCase(a[i], b[i])
      {
        assert LowerChar(a[i]) == LowerChar(b[i]);
      }
    }
  }

  /** Lower-casing leaves no ASCII capital behind, so doing it twice is doing it once. */
  lemma AsciiLowerIdempotent(s: string)
    ensures forall i :: 0 <= i < |s| ==> !('A' <= AsciiLower(s)[i] <= 'Z')
    ensures AsciiLower(AsciiLower(s)) == AsciiLower(s)
  {
  }

  const MetadataName: string := "metadata\n"
  const SectionMetadataName: string := "section metadata\n"

  /** The table's header text, lower-cased, is `name`. */
  predicate Named(c: Element, name: string)
  {
    HeaderProbe(c).HeaderText? && AsciiLower(HeaderProbe(c).text) == name
  }

  /** The callback of `find`/`filter` stops here: it either throws or matches. */
  predicate Decides(c: Element, name: string)
  {
    HeaderProbe(c).Throws? || Named(c, name)
  }

  /** The first element whose lower-cased header text is `name`; a header probe that throws aborts the search. */
  function FindNamed(content: seq<Element>, name: string): (r: Result<Option<Element>, EditError>)
    ensures r == Success(None) <==> forall c :: c in content ==> !Decides(c, name)
    ensures r.Success? && r.value.Some? ==>
      exists k ::
        && 0 <= k < |content| && content[k] == r.value.value && Named(content[k], name)
        && forall j :: 0 <= j < k ==> !Decides(content[j], name)
    ensures r.Failure? ==> r.error == HeaderNotText
    ensures r.Failure? ==>
      exists k ::
        && 0 <= k < |content| && HeaderProbe(content[k]).Throws?
        && forall j :: 0 <= j < k ==> !Decides(content[j], name)
  {
    var k := FindIndex(content, c => Decides(c, name));
    if k == -1 then Success(None)
    else if HeaderProbe(content[k]).Throws? then Failure(HeaderNotText)
    else Success(Some(content[k]))
  }

  /** Every element whose lower-cased header text is `name`; the probe runs on every element, so any malformed header throws. */
  function FilterNamed(content: seq<Element>, name: string): (r: Result<seq<Element>, EditError>)
    ensures r.Failure? <==> exists c :: c in content && HeaderProbe(c).Throws?
    ensures r.Failure? ==> r.error == HeaderNotText
    ensures r.Success? ==> r.value == Filter(content, c => Named(c, name))
    ensures r.Success? ==> forall i :: 0 <= i < |r.value| ==> Named(r.value[i], name) && r.value[i].table.Some?
  {
    var k := FindIndex(content, c => HeaderProbe(c).Throws?);
    if k != -1 then Failure(HeaderNotText)
    else
      var kept := Filter(content, c => Named(c, name));
      assert forall i :: 0 <= i < |kept| ==> kept[i] in kept && Named(kept[i], name);
      Success(kept)
  }

  /** `Object.entries(metadata)` as rows of two cells. */
  function EntriesMatrix(entries: seq<(string, string)>): (m: Matrix)
    ensures |m| == |entries|
    ensures forall i :: 0 <= i < |entries| ==> m[i] == [entries[i].0, entries[i].1]
  {
    seq(|entries|, i requires 0 <= i < |entries| => [entries[i].0, entries[i].1])
  }

  /** Reads rows of exactly two cells back as key/value entries; any other row shape gives `None`. */
  function MatrixEntries(m: Matrix): Option<seq<(string, string)>>
    decreases |m|
  {
    if |m| == 0 then Some([])
    else if |m[0]| != 2 then None
    else match MatrixEntries(m[1..])
      case None => None
      case Some(rest) => Some([(m[0][0], m[0][1])] + rest)
  }

  /** The entries are written as rows that read back as the same entries, in the same order. */
  lemma {:induction false} EntriesRoundTrip(entries: seq<(string, string)>)
    ensures MatrixEntries(EntriesMatrix(entries)) == Some(entries)
    decreases |entries|
  {
    if 0 < |entries| {
      EntriesRoundTrip(entries[1..]);
      assert EntriesMatrix(entries)[1..] == EntriesMatrix(entries[1..]);
      assert [entries[0]] + entries[1..] == entries;
    }
  }

  /** Conversely, a matrix that reads back as entries is exactly the matrix those entries are written as. */
  lemma {:induction false} MatrixOfEntries(m: Matrix, entries: seq<(string, string)>)
    requires MatrixEntries(m) == Some(entries)
    ensures EntriesMatrix(entries) == m
    decreases |m|
  {
    if 0 < |m| {
      var rest := MatrixEntries(m[1..]).value;
      MatrixOfEntries(m[1..], rest);
      assert entries == [(m[0][0], m[0][1])] + rest;
      assert m[0] == [m[0][0], m[0][1]];
      assert m == [m[0]] + m[1..];
    }
  }

  /** A named table has a header row, so rewriting it never fails for lack of one. */
  lemma NamedHasHeaderRow(c: Element, name: string)
    requires Named(c, name)
    ensures c.table.Some? && 0 < |c.table.value.tableRows|
  {
  }

  /** `updatePageMetadata(docPath, metadata)`: rewrite the first table headed "metadata". */
  function UpdatePageMetadata(doc: Document, entries: seq<(string, string)>): (r: Result<Update, EditError>)
    ensures FindNamed(doc.content, MetadataName).Failure? ==> r == Failure(HeaderNotText)
    ensures FindNamed(doc.content, MetadataName) == Success(None) ==> r == Failure(UndefinedBlock)
    ensures r.Success? ==>
      exists k ::
        && 0 <= k < |doc.content| && Named(doc.content[k], MetadataName)
        && (forall j :: 0 <= j < k ==> !Decides(doc.content[j], MetadataName))
        && r == Submit(doc.documentId, UpdateBlockRequests(doc.content[k].startIndex,
                                                           doc.content[k].table.value.tableRows, EntriesMatrix(entries)))
    ensures FindNamed(doc.content, MetadataName).Success? && FindNamed(doc.content, MetadataName).value.Some? ==> r.Success?
  {
    var found :- FindNamed(doc.content, MetadataName);
    match found
    case None => Failure(UndefinedBlock)
    case Some(t) =>
      NamedHasHeaderRow(t, MetadataName);
      Submit(doc.documentId, UpdateBlockRequests(t.startIndex, t.table.value.tableRows, EntriesMatrix(entries)))
  }

  /**
   `updateSectionMetadata(docPath, sectionIndex, metadata)`: rewrite the
   `sectionIndex`-th table headed "section metadata", counted over the whole
   document rather than within section `sectionIndex`.
   */
  function UpdateSectionMetadata(doc: Document, sectionIndex: int, entries: seq<(string, string)>): (r: Result<Update, EditError>)
    ensures FilterNamed(doc.content, SectionMetadataName).Failure? ==> r == Failure(HeaderNotText)
    ensures FilterNamed(doc.content, SectionMetadataName).Success? ==>
      var tables := FilterNamed(doc.content, SectionMetadataName).value;
      && (r.Success? <==> 0 <= sectionIndex < |tables|)
      && (r.Success? ==> r == Submit(doc.documentId, UpdateBlockRequests(tables[sectionIndex].startIndex,
                                       tables[sectionIndex].table.value.tableRows, EntriesMatrix(entries))))
  {
    var tables :- FilterNamed(doc.content, SectionMetadataName);
    if 0 <= sectionIndex < |tables| then
      var t := tables[sectionIndex];
      assert t in tables;
      NamedHasHeaderRow(t, SectionMetadataName);
      Submit(doc.documentId, UpdateBlockRequests(t.startIndex, t.table.value.tableRows, EntriesMatrix(entries)))
    else
      Failure(UndefinedBlock)
  }

  /** Header matching ignores the case of ASCII letters: "Metadata", "METADATA" and "metadata" name the same table. */
  lemma NameMatchIgnoresCase(c: Element, d: Element, name: string)
    requires HeaderProbe(c).HeaderText? && HeaderProbe(d).HeaderText?
    requires AsciiLower(HeaderProbe(c).text) == AsciiLower(HeaderProbe(d).text)
    ensures Named(c, name) <==> Named(d, name)
  {
  }

  /**
   When the search finds the metadata table at content index `k`, the update
   succeeds: it deletes that table's non-header rows bottom-up and then opens
   one row per entry below the kept header row.
   */
  lemma PageMetadataRowCount(doc: Document, entries: seq<(string, string)>, k: nat)
    requires k < |doc.content| && FindNamed(doc.content, MetadataName) == Success(Some(doc.content[k]))
    ensures UpdatePageMetadata(doc, entries).Success?
    ensures Named(doc.content[k], MetadataName) && doc.content[k].table.Some?
    ensures var n := |doc.content[k].table.value.tableRows|;
      var reqs := UpdatePageMetadata(doc, entries).value.requests;
      && n - 1 + |entries| <= |reqs|
      && (forall i :: 0 <= i < n - 1 ==> reqs[i] == DeleteTableRow(doc.content[k].startIndex, n - 1 - i))
      && (forall i :: n - 1 <= i < n - 1 + |entries| ==> reqs[i] == InsertTableRow(doc.content[k].startIndex, true))
  {
    var t := doc.content[k];
    assert Named(t, MetadataName);
    NamedHasHeaderRow(t, MetadataName);
    UpdateBatchPrefix(t.startIndex, t.table.value.tableRows, EntriesMatrix(entries));
  }
}
