/**
 The fetched Google Docs document as the client code reads it.

 A JSON element is an object on which any of the keys `table`, `paragraph`,
 `textRun`, `inlineObjectElement` and `sectionBreak` may be present, so an
 `Element` carries each of them as an optional field rather than being one
 variant of a sum type: the parser's dispatch order decides which key wins.
 Body content, paragraph elements and table-cell content all use `Element`.
 Offsets (`startIndex`, `endIndex`) are the document's own UTF-16 positions.
 */
module GDoc {
  import opened Wrappers

  datatype TextRun = TextRun(content: string)

  datatype ImageProperties = ImageProperties(contentUri: string)

  /** An embedded object; it is an image when it has image properties. */
  datatype EmbeddedObject = EmbeddedObject(imageProperties: Option<ImageProperties>)

  /** The properties of an inline object; the embedded object may be absent. */
  datatype InlineObjectProperties = InlineObjectProperties(embeddedObject: Option<EmbeddedObject>)

  /** An entry of the document's inline object table; its properties may be absent. */
  datatype InlineObject = InlineObject(inlineObjectProperties: Option<InlineObjectProperties>)

  datatype Element = Element(
    startIndex: int,
    endIndex: int,
    table: Option<Table>,
    paragraph: Option<Paragraph>,
    textRun: Option<TextRun>,
    inlineObjectId: Option<string>,
    sectionBreak: bool)

  datatype Paragraph = Paragraph(elements: seq<Element>)

  datatype Table = Table(tableRows: seq<TableRow>)

  datatype TableRow = TableRow(endIndex: int, tableCells: seq<TableCell>)

  datatype TableCell = TableCell(content: seq<Element>)

  datatype Document = Document(
    documentId: string,
    content: seq<Element>,
    inlineObjects: map<string, InlineObject>)

  /** An element that is nothing but a text run. */
  function TextRunElement(start: int, end: int, text: string): Element
  {
    Element(start, end, None, None, Some(TextRun(text)), None, false)
  }

  /** A body paragraph holding a single text run. */
  function ParagraphElement(start: int, end: int, text: string): Element
  {
    Element(start, end, None, Some(Paragraph([TextRunElement(start, end, text)])), None, None, false)
  }

  function TableElement(start: int, end: int, t: Table): Element
  {
    Element(start, end, Some(t), None, None, None, false)
  }
}
