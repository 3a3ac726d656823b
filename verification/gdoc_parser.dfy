/**
 The event walk of src/gdrive/gdoc.parser.js.

 `parse(document, cb)` visits the body depth-first and calls `cb('text', …)`
 and `cb('image', …)`. The model returns the calls as a sequence of events.
 A walk that reaches an inline object whose id is missing from
 `document.inlineObjects`, or whose entry lacks its properties or its embedded
 object, throws a TypeError after the callbacks made so far, so a `Trace`
 records the events emitted before the throw and whether the walk threw.
 */
module GDocParser {
  import opened Wrappers
  import opened GDoc

  datatype Event = Text(content: string) | Image(contentUri: string)

  datatype Trace = Trace(events: seq<Event>, thrown: bool)

  const Silent := Trace([], false)

  /** Run `a`, then `b` unless `a` threw. */
  function Then(a: Trace, b: Trace): Trace
  {
    if a.thrown then a else Trace(a.events + b.events, b.thrown)
  }

  lemma ThenAssociative(a: Trace, b: Trace, c: Trace)
    ensures Then(Then(a, b), c) == Then(a, Then(b, c))
  {
  }

  /** The characters `String.prototype.trim` removes: ECMAScript WhiteSpace and LineTerminator. */
  predicate IsTrimmed(c: char)
  {
    var n := c as int;
    n == 0x09 || n == 0x0A || n == 0x0B || n == 0x0C || n == 0x0D || n == 0x20 || n == 0xA0
    || n == 0x1680 || (0x2000 <= n <= 0x200A) || n == 0x2028 || n == 0x2029
    || n == 0x202F || n == 0x205F || n == 0x3000 || n == 0xFEFF
  }

  /** `s.trim()` is the empty string. */
  predicate Blank(s: string)
  {
    forall i :: 0 <= i < |s| ==> IsTrimmed(s[i])
  }

  /** The chain from an inline object id to its embedded object is complete: every link is present. */
  predicate Resolves(id: string, doc: Document)
  {
    && id in doc.inlineObjects
    && doc.inlineObjects[id].inlineObjectProperties.Some?
    && doc.inlineObjects[id].inlineObjectProperties.value.embeddedObject.Some?
  }

  /** The embedded object at the end of a complete chain. */
  function EmbeddedOf(id: string, doc: Document): EmbeddedObject
    requires Resolves(id, doc)
  {
    doc.inlineObjects[id].inlineObjectProperties.value.embeddedObject.value
  }

  /** The events a well-behaved walk of `doc` may emit: visible text, and images of embedded objects. */
  ghost predicate Emittable(e: Event, doc: Document)
  {
    match e
    case Text(content) => !Blank(content)
    case Image(uri) =>
      exists id :: Resolves(id, doc) && EmbeddedOf(id, doc).imageProperties == Some(ImageProperties(uri))
  }

  ghost predicate AllEmittable(t: Trace, doc: Document)
  {
    forall e :: e in t.events ==> Emittable(e, doc)
  }

  function ParseText(t: TextRun): (r: Trace)
    ensures !r.thrown
    ensures |r.events| <= 1
    ensures r.events == [] <==> Blank(t.content)
  {
    if Blank(t.content) then Silent else Trace([Text(t.content)], false)
  }

  /**
   `parseObject`: a missing id, missing properties or a missing embedded
   object each yield `undefined` somewhere along the property chain, and the
   next property access throws.
   */
  function ParseObject(id: string, doc: Document): (r: Trace)
    ensures r.thrown <==> !Resolves(id, doc)
    ensures |r.events| <= 1
    ensures AllEmittable(r, doc)
  {
    if id !in doc.inlineObjects then Trace([], true)
    else match doc.inlineObjects[id].inlineObjectProperties
      case None => Trace([], true)
      case Some(props) =>
        match props.embeddedObject
        case None => Trace([], true)
        case Some(obj) =>
          match obj.imageProperties
          case Some(image) => Trace([Image(image.contentUri)], false)
          case None => Silent
  }

  /** `parseStructuralElement`: the first present key among table, paragraph, textRun, inlineObjectElement wins. */
  function ParseStructuralElement(el: Element, doc: Document): (r: Trace)
    ensures AllEmittable(r, doc)
    decreases el
  {
    if el.table.Some? then ParseTable(el.table.value, doc)
    else if el.paragraph.Some? then ParseElements(el.paragraph.value.elements, doc)
    else if el.textRun.Some? then ParseText(el.textRun.value)
    else if el.inlineObjectId.Some? then ParseObject(el.inlineObjectId.value, doc)
    else Silent
  }

  /** `forEach` over a list of elements: body content, paragraph elements, or cell content. */
  function ParseElements(els: seq<Element>, doc: Document): (r: Trace)
    ensures AllEmittable(r, doc)
    decreases els
  {
    if |els| == 0 then Silent
    else Then(ParseStructuralElement(els[0], doc), ParseElements(els[1..], doc))
  }

  function ParseTable(t: Table, doc: Document): (r: Trace)
    ensures AllEmittable(r, doc)
    decreases t
  {
    ParseRows(t.tableRows, doc)
  }

  function ParseRows(rows: seq<TableRow>, doc: Document): (r: Trace)
    ensures AllEmittable(r, doc)
    decreases rows
  {
    if |rows| == 0 then Silent
    else Then(ParseCells(rows[0].tableCells, doc), ParseRows(rows[1..], doc))
  }

  function ParseCells(cells: seq<TableCell>, doc: Document): (r: Trace)
    ensures AllEmittable(r, doc)
    decreases cells
  {
    if |cells| == 0 then Silent
    else Then(ParseElements(cells[0].content, doc), ParseCells(cells[1..], doc))
  }

  /** `parse(document, cb)`: the events of the body, in document order. */
  function Parse(doc: Document): (r: Trace)
    ensures AllEmittable(r, doc)
  {
    ParseElements(doc.content, doc)
  }

  // ----- Reference: where the walk throws -----

  /** Every inline object the walk reaches under `el` (honouring dispatch precedence) is present. */
  ghost predicate ObjectsResolve(el: Element, doc: Document)
    decreases el
  {
    if el.table.Some? then RowsResolve(el.table.value.tableRows, doc)
    else if el.paragraph.Some? then AllResolve(el.paragraph.value.elements, doc)
    else if el.textRun.Some? then true
    else if el.inlineObjectId.Some? then Resolves(el.inlineObjectId.value, doc)
    else true
  }

  ghost predicate AllResolve(els: seq<Element>, doc: Document)
    decreases els
  {
    forall i :: 0 <= i < |els| ==> ObjectsResolve(els[i], doc)
  }

  ghost predicate RowsResolve(rows: seq<TableRow>, doc: Document)
    decreases rows
  {
    forall i :: 0 <= i < |rows| ==> CellsResolve(rows[i].tableCells, doc)
  }

  ghost predicate CellsResolve(cells: seq<TableCell>, doc: Document)
    decreases cells
  {
    forall i :: 0 <= i < |cells| ==> AllResolve(cells[i].content, doc)
  }

  /** The walk throws exactly when it reaches an inline object whose chain to an embedded object is broken. */
  lemma {:induction false} ThrowsIffUnresolved(el: Element, doc: Document)
    ensures ParseStructuralElement(el, doc).thrown <==> !ObjectsResolve(el, doc)
    decreases el
  {
    if el.table.Some? {
      RowsThrowIffUnresolved(el.table.value.tableRows, doc);
    } else if el.paragraph.Some? {
      ElementsThrowIffUnresolved(el.paragraph.value.elements, doc);
    }
  }

  lemma {:induction false} ElementsThrowIffUnresolved(els: seq<Element>, doc: Document)
    ensures ParseElements(els, doc).thrown <==> !AllResolve(els, doc)
    decreases els
  {
    if |els| > 0 {
      ThrowsIffUnresolved(els[0], doc);
      ElementsThrowIffUnresolved(els[1..], doc);
      assert forall i :: 1 <= i < |els| ==> els[i] == els[1..][i - 1];
    }
  }

  lemma {:induction false} RowsThrowIffUnresolved(rows: seq<TableRow>, doc: Document)
    ensures ParseRows(rows, doc).thrown <==> !RowsResolve(rows, doc)
    decreases rows
  {
    if |rows| > 0 {
      CellsThrowIffUnresolved(rows[0].tableCells, doc);
      RowsThrowIffUnresolved(rows[1..], doc);
      assert forall i :: 1 <= i < |rows| ==> rows[i] == rows[1..][i - 1];
    }
  }

  lemma {:induction false} CellsThrowIffUnresolved(cells: seq<TableCell>, doc: Document)
    ensures ParseCells(cells, doc).thrown <==> !CellsResolve(cells, doc)
    decreases cells
  {
    if |cells| > 0 {
      ElementsThrowIffUnresolved(cells[0].content, doc);
      CellsThrowIffUnresolved(cells[1..], doc);
      assert forall i :: 1 <= i < |cells| ==> cells[i] == cells[1..][i - 1];
    }
  }

  // ----- Document order -----

  /** The walk of a concatenation is the walk of the first part followed by the walk of the second. */
  lemma {:induction false} ParseElementsConcat(a: seq<Element>, b: seq<Element>, doc: Document)
    ensures ParseElements(a + b, doc) == Then(ParseElements(a, doc), ParseElements(b, doc))
    decreases |a|
  {
    if |a| == 0 {
      assert a + b == b;
    } else {
      assert (a + b)[1..] == a[1..] + b;
      ParseElementsConcat(a[1..], b, doc);
      ThenAssociative(ParseStructuralElement(a[0], doc), ParseElements(a[1..], doc), ParseElements(b, doc));
    }
  }

  /** The contents of a row's cells, left to right. */
  function RowContent(cells: seq<TableCell>): seq<Element>
  {
    if |cells| == 0 then [] else cells[0].content + RowContent(cells[1..])
  }

  /** The contents of all cells of a table, in row-major order. */
  function TableContent(rows: seq<TableRow>): seq<Element>
  {
    if |rows| == 0 then [] else RowContent(rows[0].tableCells) + TableContent(rows[1..])
  }

  lemma {:induction false} CellsInOrder(cells: seq<TableCell>, doc: Document)
    ensures ParseCells(cells, doc) == ParseElements(RowContent(cells), doc)
  {
    if |cells| > 0 {
      CellsInOrder(cells[1..], doc);
      ParseElementsConcat(cells[0].content, RowContent(cells[1..]), doc);
    }
  }

  lemma {:induction false} RowsInOrder(rows: seq<TableRow>, doc: Document)
    ensures ParseRows(rows, doc) == ParseElements(TableContent(rows), doc)
  {
    if |rows| > 0 {
      RowsInOrder(rows[1..], doc);
      CellsInOrder(rows[0].tableCells, doc);
      ParseElementsConcat(RowContent(rows[0].tableCells), TableContent(rows[1..]), doc);
    }
  }

  /** A table emits exactly what its cells' contents emit when laid end to end in row-major order. */
  lemma TableEventsRowMajor(t: Table, doc: Document)
    ensures ParseTable(t, doc) == ParseElements(TableContent(t.tableRows), doc)
  {
    RowsInOrder(t.tableRows, doc);
  }

  // ----- Single elements -----

  /** A text run emits its content exactly when the content is not blank after trimming. */
  lemma TextRunEvents(el: Element, doc: Document)
    requires el.table.None? && el.paragraph.None? && el.textRun.Some?
    ensures var r := ParseStructuralElement(el, doc);
      !r.thrown && (r.events == [Text(el.textRun.value.content)] <==> !Blank(el.textRun.value.content))
      && (r.events == [] <==> Blank(el.textRun.value.content))
  {
  }

  /** A resolved inline object emits its image's content URI when it has image properties, and nothing otherwise. */
  lemma InlineObjectEvents(el: Element, doc: Document)
    requires el.table.None? && el.paragraph.None? && el.textRun.None? && el.inlineObjectId.Some?
    requires Resolves(el.inlineObjectId.value, doc)
    ensures var r := ParseStructuralElement(el, doc);
      var obj := EmbeddedOf(el.inlineObjectId.value, doc);
      !r.thrown
      && (obj.imageProperties.Some? ==> r.events == [Image(obj.imageProperties.value.contentUri)])
      && (obj.imageProperties.None? ==> r.events == [])
  {
  }

  /** Section breaks and elements of any unsupported kind emit nothing and do not throw. */
  lemma SilentKinds(el: Element, doc: Document)
    requires el.table.None? && el.paragraph.None? && el.textRun.None? && el.inlineObjectId.None?
    ensures ParseStructuralElement(el, doc) == Trace([], false)
  {
  }

  /** An element with a table is walked as that table, whatever other keys it carries. */
  lemma TableTakesPrecedence(el: Element, doc: Document, p: Option<Paragraph>, t: Option<TextRun>, o: Option<string>)
    requires el.table.Some?
    ensures ParseStructuralElement(el, doc)
         == ParseStructuralElement(el.(paragraph := p, textRun := t, inlineObjectId := o), doc)
  {
  }

  /** Without a table, a paragraph wins over a text run and an inline object. */
  lemma ParagraphTakesPrecedence(el: Element, doc: Document, t: Option<TextRun>, o: Option<string>)
    requires el.table.None? && el.paragraph.Some?
    ensures ParseStructuralElement(el, doc)
         == ParseStructuralElement(el.(textRun := t, inlineObjectId := o), doc)
  {
  }

  /** Without a table or paragraph, a text run wins over an inline object. */
  lemma TextRunTakesPrecedence(el: Element, doc: Document, o: Option<string>)
    requires el.table.None? && el.paragraph.None? && el.textRun.Some?
    ensures ParseStructuralElement(el, doc) == ParseStructuralElement(el.(inlineObjectId := o), doc)
  {
  }
}
