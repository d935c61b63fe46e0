/**
 * `format_page_result` of mineru/cli/layout_ocr_streaming.py: turns one
 * page of the middle JSON into the public page record, numbering the boxes
 * it emits with one counter shared by layout and discarded boxes.
 *
 * The block converter `format_block_to_layout_box` is a parameter
 * (`Converter`). The source passes it the running id; the model assumes it
 * puts that id into the box unchanged and that whether it yields a box does
 * not depend on the id, so it is given the block alone and the id is
 * attached here.
 */
module PageFormat {
  import opened Wrappers

  /** One block of the middle JSON, uninterpreted by the formatter. */
  datatype RawBlock = RawBlock(raw: string)

  /** A glyph and its bounding box. */
  datatype CharBox = CharBox(glyph: string, bbox: seq<real>)
  datatype Span = Span(chars: seq<CharBox>)
  datatype Line = Line(spans: seq<Span>)

  /** What the converter produces for a block: everything of a box but its id. */
  datatype BoxBody = BoxBody(boxType: string, bbox: seq<real>, lines: seq<Line>)

  /** An emitted box; `isDiscarded` is the `is_discarded` key, absent when false. */
  datatype LayoutBox = LayoutBox(boxId: nat, body: BoxBody, isDiscarded: bool)

  /** The fields of a middle-JSON page the formatter reads; a missing block list reads as empty. */
  datatype PageInfo = PageInfo(
    pageIdx: int,
    pageSize: (int, int),
    paraBlocks: seq<RawBlock>,
    preprocBlocks: seq<RawBlock>,
    discardedBlocks: seq<RawBlock>)

  /** The page record sent to clients; `discardedBoxes` is absent unless requested. */
  datatype PageData = PageData(
    pageIndex: int,
    width: int,
    height: int,
    layoutBoxes: seq<LayoutBox>,
    discardedBoxes: Option<seq<LayoutBox>>)

  type Converter = RawBlock -> Option<BoxBody>

  /** `page_info.get("para_blocks") or page_info.get("preproc_blocks", [])`. */
  function MainBlocks(info: PageInfo): seq<RawBlock> {
    if |info.paraBlocks| > 0 then info.paraBlocks else info.preprocBlocks
  }

  /** Reference: the converted bodies of the blocks that yield one, in block order. */
  function Emitted(blocks: seq<RawBlock>, convert: Converter): seq<BoxBody> {
    if |blocks| == 0 then []
    else
      (match convert(blocks[0]) case Some(b) => [b] case None => [])
      + Emitted(blocks[1..], convert)
  }

  /** All boxes of a page, layout boxes first. */
  function AllBoxes(page: PageData): seq<LayoutBox> {
    page.layoutBoxes + (match page.discardedBoxes case Some(d) => d case None => [])
  }

  /**
   * The emission loop over one block list: each block that converts becomes
   * the next box and takes the next id; a block that yields nothing is
   * skipped and takes no id.
   */
  function FormatBlocks(blocks: seq<RawBlock>, convert: Converter, nextId: nat, discarded: bool): (boxes: seq<LayoutBox>)
    ensures |boxes| == |Emitted(blocks, convert)| <= |blocks|
    ensures forall j :: 0 <= j < |boxes| ==>
      boxes[j] == LayoutBox(nextId + j, Emitted(blocks, convert)[j], discarded)
  {
    if |blocks| == 0 then []
    else
      match convert(blocks[0])
      case None => FormatBlocks(blocks[1..], convert, nextId, discarded)
      case Some(body) => [LayoutBox(nextId, body, discarded)] + FormatBlocks(blocks[1..], convert, nextId + 1, discarded)
  }

  /** `format_page_result`: main blocks first, then, when requested, the discarded blocks. */
  function FormatPage(info: PageInfo, includeDiscarded: bool, convert: Converter): (page: PageData)
    ensures page.pageIndex == info.pageIdx && page.width == info.pageSize.0 && page.height == info.pageSize.1
    ensures |page.layoutBoxes| <= |MainBlocks(info)|
    ensures page.discardedBoxes.Some? <==> includeDiscarded
    ensures includeDiscarded ==> |page.discardedBoxes.value| <= |info.discardedBlocks|
  {
    var layout := FormatBlocks(MainBlocks(info), convert, 0, false);
    PageData(
      info.pageIdx, info.pageSize.0, info.pageSize.1, layout,
      if includeDiscarded then Some(FormatBlocks(info.discardedBlocks, convert, |layout|, true)) else None)
  }

  /** Emitting from one more block appends that block's body, if any. */
  lemma {:induction false} EmittedSnoc(blocks: seq<RawBlock>, b: RawBlock, convert: Converter)
    ensures Emitted(blocks + [b], convert)
      == Emitted(blocks, convert) + (match convert(b) case Some(x) => [x] case None => [])
    decreases |blocks|
  {
    if |blocks| > 0 {
      assert (blocks + [b])[1..] == blocks[1..] + [b];
      EmittedSnoc(blocks[1..], b, convert);
    }
  }

  /** The loop of the source over one block list, sharing the id counter `boxId`. */
  method AppendBoxes(blocks: seq<RawBlock>, convert: Converter, firstId: nat, discarded: bool) returns (boxes: seq<LayoutBox>, boxId: nat)
    ensures boxes == FormatBlocks(blocks, convert, firstId, discarded)
    ensures boxId == firstId + |boxes|
  {
    boxes, boxId := [], firstId;
    for i := 0 to |blocks|
      invariant boxId == firstId + |boxes|
      invariant |boxes| == |Emitted(blocks[..i], convert)|
      invariant forall j :: 0 <= j < |boxes| ==>
        boxes[j] == LayoutBox(firstId + j, Emitted(blocks[..i], convert)[j], discarded)
    {
      EmittedSnoc(blocks[..i], blocks[i], convert);
      assert blocks[..i + 1] == blocks[..i] + [blocks[i]];
      match convert(blocks[i])
      case Some(body) =>
        boxes := boxes + [LayoutBox(boxId, body, discarded)];
        boxId := boxId + 1;
      case None =>
    }
    assert blocks[..|blocks|] == blocks;
  }

  /** `format_page_result` as the source writes it, one loop per block list. */
  method FormatPageResult(info: PageInfo, includeDiscarded: bool, convert: Converter) returns (page: PageData)
    ensures page == FormatPage(info, includeDiscarded, convert)
  {
    var layout, boxId := AppendBoxes(MainBlocks(info), convert, 0, false);
    var discarded: Option<seq<LayoutBox>> := None;
    if includeDiscarded {
      var boxes;
      boxes, boxId := AppendBoxes(info.discardedBlocks, convert, boxId, true);
      discarded := Some(boxes);
    }
    page := PageData(info.pageIdx, info.pageSize.0, info.pageSize.1, layout, discarded);
  }

  /**
   * What a formatted page promises: its index and size are copied from the
   * page info; box ids across layout and then discarded boxes are exactly
   * 0, 1, ..., k-1; layout boxes are the converted main blocks in order and
   * no more than the blocks; discarded boxes are present exactly when asked
   * for, are the converted discarded blocks in order, and all carry the flag.
   */
  lemma FormatPageSpec(info: PageInfo, includeDiscarded: bool, convert: Converter)
    ensures var page := FormatPage(info, includeDiscarded, convert);
      && page.pageIndex == info.pageIdx
      && page.width == info.pageSize.0 && page.height == info.pageSize.1
      && (forall j :: 0 <= j < |AllBoxes(page)| ==> AllBoxes(page)[j].boxId == j)
      && |page.layoutBoxes| <= |MainBlocks(info)|
      && (forall j :: 0 <= j < |page.layoutBoxes| ==>
            page.layoutBoxes[j].body == Emitted(MainBlocks(info), convert)[j] && !page.layoutBoxes[j].isDiscarded)
      && |page.layoutBoxes| == |Emitted(MainBlocks(info), convert)|
      && (page.discardedBoxes.Some? <==> includeDiscarded)
      && (includeDiscarded ==>
            && |page.discardedBoxes.value| == |Emitted(info.discardedBlocks, convert)|
            && forall j :: 0 <= j < |page.discardedBoxes.value| ==>
                 page.discardedBoxes.value[j].body == Emitted(info.discardedBlocks, convert)[j]
                 && page.discardedBoxes.value[j].isDiscarded)
  {
    var page := FormatPage(info, includeDiscarded, convert);
    var all := AllBoxes(page);
    forall j | 0 <= j < |all| ensures all[j].boxId == j {
      if j >= |page.layoutBoxes| {
        assert all[j] == page.discardedBoxes.value[j - |page.layoutBoxes|];
      }
    }
  }

  /** Without the flag the discarded blocks are never formatted: the page does not depend on them. */
  lemma DiscardedIgnoredWhenOff(info: PageInfo, other: seq<RawBlock>, convert: Converter)
    ensures FormatPage(info, false, convert) == FormatPage(info.(discardedBlocks := other), false, convert)
  {
  }

  /** A block that converts to nothing leaves the ids of all later boxes unchanged. */
  lemma SkippedBlockTakesNoId(b: RawBlock, blocks: seq<RawBlock>, convert: Converter, nextId: nat, discarded: bool)
    requires convert(b).None?
    ensures FormatBlocks([b] + blocks, convert, nextId, discarded) == FormatBlocks(blocks, convert, nextId, discarded)
  {
    assert ([b] + blocks)[1..] == blocks;
  }

  /**
   * Two ordinary blocks and one discarded block that all convert: the
   * ordinary boxes get ids 0 and 1 and the discarded one id 2, or no
   * discarded list at all without the flag.
   */
  lemma BoxNumberingExample(info: PageInfo, convert: Converter)
    requires |info.paraBlocks| == 2 && |info.discardedBlocks| == 1
    requires convert(info.paraBlocks[0]).Some? && convert(info.paraBlocks[1]).Some?
    requires convert(info.discardedBlocks[0]).Some?
    ensures var page := FormatPage(info, true, convert);
      && |page.layoutBoxes| == 2 && page.layoutBoxes[0].boxId == 0 && page.layoutBoxes[1].boxId == 1
      && page.discardedBoxes.Some? && |page.discardedBoxes.value| == 1
      && page.discardedBoxes.value[0].boxId == 2 && page.discardedBoxes.value[0].isDiscarded
    ensures FormatPage(info, false, convert).discardedBoxes == None
  {
    var bs := info.paraBlocks;
    assert bs[1..][1..] == [];
    assert Emitted(bs[1..], convert) == [convert(bs[1]).value] + Emitted(bs[1..][1..], convert);
    assert Emitted(bs, convert) == [convert(bs[0]).value] + Emitted(bs[1..], convert);
    assert info.discardedBlocks[1..] == [];
  }
}
