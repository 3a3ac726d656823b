/**
 Section counting over the top-level body content, as `#getElementPosition`
 and `appendBlock` in src/gdrive/client.js do it: a paragraph whose first
 text run is `---\n` or `—\n` is a section break; the section counter starts
 at 0 and goes up by one at each break, and the position counter is reset to
 0 at a break and goes up by one at every other element.

 `Breaks` and `Position` give the two counters after a prefix of the content
 directly; the source's scans thread them as mutable state, and the scans
 below are proved to agree with them.
 */
module Sections {
  import opened Wrappers
  import opened GDoc

  const Dashes: string := "---\n"
  const EmDash: string := "—\n"

  /** A paragraph whose first element is a text run reading three hyphens or an em dash, each followed by a newline. */
  predicate IsBreak(c: Element)
  {
    && c.paragraph.Some?
    && |c.paragraph.value.elements| > 0
    && c.paragraph.value.elements[0].textRun.Some?
    && (c.paragraph.value.elements[0].textRun.value.content == Dashes
        || c.paragraph.value.elements[0].textRun.value.content == EmDash)
  }

  /** The section counter after scanning `s`: the number of breaks in it. */
  function Breaks(s: seq<Element>): nat
  {
    if |s| == 0 then 0 else Breaks(s[..|s| - 1]) + (if IsBreak(s[|s| - 1]) then 1 else 0)
  }

  /** The position counter after scanning `s`: the elements after its last break. */
  function Position(s: seq<Element>): nat
  {
    if |s| == 0 then 0 else if IsBreak(s[|s| - 1]) then 0 else Position(s[..|s| - 1]) + 1
  }

  /** The section counter right after element `k`. */
  function SectionAt(content: seq<Element>, k: nat): nat
    requires k < |content|
  {
    Breaks(content[..k + 1])
  }

  /** The scan's counters read (`sectionIndex`, `index`) right after element `k`. */
  predicate Matches(content: seq<Element>, sectionIndex: int, index: int, k: nat)
    requires k < |content|
  {
    Breaks(content[..k + 1]) == sectionIndex && Position(content[..k + 1]) == index
  }

  /** Element `k` is the first one after which the counters read (`sectionIndex`, `index`). */
  predicate FirstMatch(content: seq<Element>, sectionIndex: int, index: int, k: nat)
    requires k < |content|
  {
    Matches(content, sectionIndex, index, k) && forall j :: 0 <= j < k ==> !Matches(content, sectionIndex, index, j)
  }

  /** One step of the scan, from the counters before `content[k]` to the counters after it. */
  lemma Step(content: seq<Element>, k: nat)
    requires k < |content|
    ensures Breaks(content[..k + 1]) == Breaks(content[..k]) + (if IsBreak(content[k]) then 1 else 0)
    ensures Position(content[..k + 1]) == (if IsBreak(content[k]) then 0 else Position(content[..k]) + 1)
  {
    assert content[..k + 1][..k] == content[..k];
  }

  /**
   The `find` callback of `#getElementPosition`, run from element `k` with the
   counters `sIdx` and `pos` it has reached: the index of the first element
   after which both counters match.
   */
  function ScanForPosition(content: seq<Element>, sectionIndex: int, index: int, k: nat, sIdx: int, pos: int): (r: Option<nat>)
    requires k <= |content|
    requires sIdx == Breaks(content[..k]) && pos == Position(content[..k])
    ensures r.Some? ==> k <= r.value < |content| && Matches(content, sectionIndex, index, r.value)
    ensures r.Some? ==> forall j :: k <= j < r.value ==> !Matches(content, sectionIndex, index, j)
    ensures r.None? ==> forall j :: k <= j < |content| ==> !Matches(content, sectionIndex, index, j)
    decreases |content| - k
  {
    if k == |content| then None
    else
      var brk := IsBreak(content[k]);
      var sIdx' := if brk then sIdx + 1 else sIdx;
      var pos' := if brk then 0 else pos + 1;
      Step(content, k);
      if sIdx' == sectionIndex && pos' == index then Some(k)
      else ScanForPosition(content, sectionIndex, index, k + 1, sIdx', pos')
  }

  /**
   `#getElementPosition(doc, sectionIndex, index)`: the `endIndex` of the first
   element after which the section counter is `sectionIndex` and the position
   counter is `index`, or -1 when there is none.
   */
  function GetElementPosition(content: seq<Element>, sectionIndex: int, index: int): (r: int)
    ensures (forall k :: 0 <= k < |content| ==> !Matches(content, sectionIndex, index, k)) ==> r == -1
    ensures forall k :: 0 <= k < |content| && FirstMatch(content, sectionIndex, index, k) ==> r == content[k].endIndex
  {
    assert content[..0] == [];
    match ScanForPosition(content, sectionIndex, index, 0, 0, 0)
    case Some(k) =>
      assert forall k' :: 0 <= k' < |content| && FirstMatch(content, sectionIndex, index, k') ==> k' == k;
      content[k].endIndex
    case None => -1
  }

  /** Before any break, the position counter counts every element. */
  lemma {:induction false} NoBreakPositionIsLength(s: seq<Element>)
    requires Breaks(s) == 0
    ensures Position(s) == |s|
  {
    if |s| > 0 {
      NoBreakPositionIsLength(s[..|s| - 1]);
    }
  }

  /** Position 0 in section 0 is never reached: the first element leaves one counter above 0 for good. */
  lemma OriginNeverMatches(content: seq<Element>)
    ensures GetElementPosition(content, 0, 0) == -1
  {
    forall k | 0 <= k < |content|
      ensures !Matches(content, 0, 0, k)
    {
      if Breaks(content[..k + 1]) == 0 {
        NoBreakPositionIsLength(content[..k + 1]);
      }
    }
  }

  /** Position 0 is read exactly right after a break; with the section counter it names that break. */
  lemma PositionZeroIsBreak(content: seq<Element>, sectionIndex: int, k: nat)
    requires k < |content|
    ensures Matches(content, sectionIndex, 0, k)
        <==> IsBreak(content[k]) && Breaks(content[..k + 1]) == sectionIndex
  {
    Step(content, k);
  }

  /** A positive position in a section names a non-break element. */
  lemma PositiveIndexIsContent(content: seq<Element>, sectionIndex: int, index: int, k: nat)
    requires k < |content| && 0 < index
    requires Matches(content, sectionIndex, index, k)
    ensures !IsBreak(content[k])
  {
    Step(content, k);
  }

  // ----- appendBlock -----

  /**
   The `findIndex` callback of `appendBlock`, run from element `k` with the
   section counter `sIdx`: the first element after which the counter exceeds
   `sectionIndex`, or -1.
   */
  function ScanForNextSection(content: seq<Element>, sectionIndex: int, k: nat, sIdx: int): (r: int)
    requires k <= |content|
    requires sIdx == Breaks(content[..k])
    ensures r == -1 || k <= r < |content|
    ensures r != -1 ==> SectionAt(content, r) > sectionIndex
    ensures forall j :: k <= j < |content| && (r == -1 || j < r) ==> SectionAt(content, j) <= sectionIndex
    decreases |content| - k
  {
    if k == |content| then -1
    else
      var sIdx' := if IsBreak(content[k]) then sIdx + 1 else sIdx;
      Step(content, k);
      if sIdx' > sectionIndex then k
      else ScanForNextSection(content, sectionIndex, k + 1, sIdx')
  }

  function NextSectionIndex(content: seq<Element>, sectionIndex: int): (r: int)
    ensures -1 <= r < |content|
    ensures r != -1 ==> SectionAt(content, r) > sectionIndex
    ensures forall j :: 0 <= j < |content| && (r == -1 || j < r) ==> SectionAt(content, j) <= sectionIndex
  {
    assert content[..0] == [];
    ScanForNextSection(content, sectionIndex, 0, 0)
  }

  /**
   `appendBlock`'s insertion point: the `endIndex` of the element just before
   the one found by `NextSectionIndex`. That element is `undefined` when the
   search fails or stops at position 0, and reading its `endIndex` throws.
   */
  function AppendPosition(content: seq<Element>, sectionIndex: int): (r: Option<int>)
    ensures r.Some? <==> 1 <= NextSectionIndex(content, sectionIndex)
    ensures r.Some? ==> r == Some(content[NextSectionIndex(content, sectionIndex) - 1].endIndex)
  {
    var k := NextSectionIndex(content, sectionIndex);
    if k < 1 then None else Some(content[k - 1].endIndex)
  }

  /** Over a longer prefix the section counter is at least as large. */
  lemma {:induction false} BreaksMonotone(content: seq<Element>, i: nat, j: nat)
    requires i <= j <= |content|
    ensures Breaks(content[..i]) <= Breaks(content[..j])
    decreases j - i
  {
    if i < j {
      Step(content, j - 1);
      assert content[..j - 1 + 1] == content[..j];
      BreaksMonotone(content, i, j - 1);
    }
  }

  /** Where the search stops at `k > 0`, element `k` is the break that opens section `sectionIndex + 1`. */
  lemma NextSectionIsBreak(content: seq<Element>, sectionIndex: int)
    requires 1 <= NextSectionIndex(content, sectionIndex)
    ensures var k := NextSectionIndex(content, sectionIndex);
      && IsBreak(content[k])
      && Breaks(content[..k]) == sectionIndex
      && SectionAt(content, k) == sectionIndex + 1
  {
    var k := NextSectionIndex(content, sectionIndex);
    Step(content, k);
    assert content[..k - 1 + 1] == content[..k];
    assert SectionAt(content, k - 1) <= sectionIndex;
  }

  /** For a section index that is not negative, the search succeeds exactly when the section is followed by a break. */
  lemma NextSectionFound(content: seq<Element>, sectionIndex: int)
    requires 0 <= sectionIndex
    ensures NextSectionIndex(content, sectionIndex) != -1 <==> sectionIndex < Breaks(content)
  {
    var k := NextSectionIndex(content, sectionIndex);
    assert content[..|content|] == content;
    if k != -1 {
      BreaksMonotone(content, k + 1, |content|);
    } else if 0 < |content| {
      assert content[..|content| - 1 + 1] == content;
      assert SectionAt(content, |content| - 1) <= sectionIndex;
    }
  }

  /** The search stops at the very first element exactly when that element already lifts the counter above the section. */
  lemma NextSectionAtStart(content: seq<Element>, sectionIndex: int)
    requires 0 < |content|
    ensures NextSectionIndex(content, sectionIndex) == 0
        <==> sectionIndex < (if IsBreak(content[0]) then 1 else 0)
  {
    Step(content, 0);
    assert content[..0] == [];
  }

  /**
   `appendBlock` finds an insertion point exactly when the section has a break
   after it and that break is not the very first element; the point is the end
   of the element before the break that closes the section. In particular the
   last section (and the only section of a document without breaks) cannot be
   appended to.
   */
  lemma AppendPositionCharacterization(content: seq<Element>, sectionIndex: int)
    ensures AppendPosition(content, sectionIndex).Some?
        <==> 0 <= sectionIndex < Breaks(content) && !(sectionIndex == 0 && IsBreak(content[0]))
    ensures AppendPosition(content, sectionIndex).Some? ==>
      exists k :: 1 <= k < |content| && IsBreak(content[k]) && SectionAt(content, k) == sectionIndex + 1
        && Breaks(content[..k]) == sectionIndex
        && AppendPosition(content, sectionIndex) == Some(content[k - 1].endIndex)
  {
    var k := NextSectionIndex(content, sectionIndex);
    if 0 <= sectionIndex {
      NextSectionFound(content, sectionIndex);
    }
    if 1 <= k {
      NextSectionIsBreak(content, sectionIndex);
      NextSectionAtStart(content, sectionIndex);
    } else if k == 0 {
      NextSectionAtStart(content, sectionIndex);
    } else if 0 < |content| {
      NextSectionAtStart(content, sectionIndex);
    }
  }

  /** Corollary: appending to the last section always fails. */
  lemma LastSectionCannotBeAppendedTo(content: seq<Element>)
    ensures AppendPosition(content, Breaks(content)).None?
  {
    AppendPositionCharacterization(content, Breaks(content));
  }
}
