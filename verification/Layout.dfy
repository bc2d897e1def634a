/** The layout half of `generate_pdf`: where each itinerary block lands on which
    page. Drawing calls, fonts and the QR raster are left to the PDF library;
    what is kept is the vertical cursor, in whole millimetres (A4 is 297 mm tall
    and every offset in the renderer is a whole number of millimetres). */
module Layout {
  import opened Wrappers
  import opened Text
  import opened Itinerary

  const PageHeight: int := 297
  /** Baseline of the title, and where the cursor goes after a page break. */
  const PageTop: int := PageHeight - 20
  const TitleDrop: int := 15
  /** Cursor when the first entry is considered: just below the title. */
  const FirstCursor: int := PageTop - TitleDrop
  /** An entry is moved to a new page when the cursor is strictly below this. */
  const BreakBelow: int := 40
  const LineStep: int := 7
  /** The QR image's lower edge sits this far below the URL line. */
  const QrDrop: int := 5
  /** Width and height of the QR image. */
  const QrSize: int := 25
  const EntryGap: int := 30
  const MapsPrefix: string := "https://www.google.com/maps/search/?api=1&query="

  /** The map search link: the prefix followed by the place text, unescaped. */
  function MapsUrl(place: string): string
  {
    MapsPrefix + place
  }

  /** Reads the query back out of a link built by `MapsUrl`. */
  function QueryOf(url: string): Option<string>
  {
    if StartsWith(url, MapsPrefix) then Some(url[|MapsPrefix|..]) else None
  }

  /** The place text survives in the link verbatim: nothing is escaped or
      dropped, so the link determines the place and the place the link. */
  lemma MapsUrlRoundTrip(place: string)
    ensures QueryOf(MapsUrl(place)) == Some(place)
    ensures StartsWith(MapsUrl(place), MapsPrefix)
  {
    assert MapsUrl(place)[..|MapsPrefix|] == MapsPrefix;
    assert MapsUrl(place)[|MapsPrefix|..] == place;
  }

  lemma MapsUrlInjective(p: string, q: string)
    requires MapsUrl(p) == MapsUrl(q)
    ensures p == q
  {
    MapsUrlRoundTrip(p);
    MapsUrlRoundTrip(q);
  }

  /** One entry as laid out: the page it lands on (0 is the title page), the
      baselines of its header, place, optional memo and URL lines, the lower
      edge of its QR image, and the URL the QR encodes. */
  datatype Block = Block(
    entry: Entry,
    page: nat,
    headerY: int,
    placeY: int,
    memoY: Option<int>,
    urlY: int,
    qrY: int,
    url: string)

  /** Where the cursor is left once a block has been drawn. */
  function After(b: Block): int
  {
    b.urlY - EntryGap
  }

  /** The page-break rule: a block considered at cursor `y` on `page` opens a new
      page at the top exactly when `y` is below the threshold, and otherwise
      starts at `y` on the same page. */
  predicate Opens(page: nat, y: int, b: Block)
  {
    if y < BreakBelow then b.page == page + 1 && b.headerY == PageTop
    else b.page == page && b.headerY == y
  }

  /** The lines of a block, one line step apart, the memo line present exactly
      when the memo is non-empty, and the URL built from the place. */
  predicate WellShaped(b: Block)
  {
    && b.placeY == b.headerY - LineStep
    && (b.memoY.Some? <==> b.entry.memo != "")
    && (b.memoY.Some? ==> b.memoY.value == b.placeY - LineStep)
    && b.urlY == (if b.memoY.Some? then b.memoY.value else b.placeY) - LineStep
    && b.qrY == b.urlY - QrDrop
    && b.url == MapsUrl(b.entry.place)
  }

  function PlaceBlock(e: Entry, page: nat, y: int): (b: Block)
    ensures Opens(page, y, b) && WellShaped(b) && b.entry == e
  {
    var p: nat := if y < BreakBelow then page + 1 else page;
    var top := if y < BreakBelow then PageTop else y;
    var placeY := top - LineStep;
    var memoY := if e.memo != "" then Some(placeY - LineStep) else None;
    var urlY := (if e.memo != "" then placeY - LineStep else placeY) - LineStep;
    Block(e, p, top, placeY, memoY, urlY, urlY - QrDrop, MapsUrl(e.place))
  }

  /** Consecutive blocks follow the page-break rule from each other's cursor. */
  predicate Chained(bs: seq<Block>)
  {
    && (forall i :: 0 <= i < |bs| ==> WellShaped(bs[i]))
    && (forall i :: 0 <= i < |bs| - 1 ==> Opens(bs[i].page, After(bs[i]), bs[i + 1]))
  }

  datatype Placement = Placement(blocks: seq<Block>, lastPage: nat, cursor: int)

  /** The renderer's loop over (already sorted) items, starting at cursor `y` on `page`. */
  function Place(items: seq<Entry>, page: nat, y: int): Placement
    decreases |items|
  {
    if items == [] then Placement([], page, y)
    else
      var b := PlaceBlock(items[0], page, y);
      var rest := Place(items[1..], b.page, After(b));
      Placement([b] + rest.blocks, rest.lastPage, rest.cursor)
  }

  /** One block per item, in item order, each following the page-break rule
      from the cursor the previous one left; the last page and cursor are
      those after the last block. */
  lemma {:induction false} PlaceShape(items: seq<Entry>, page: nat, y: int)
    ensures var r := Place(items, page, y);
      && |r.blocks| == |items|
      && (forall i :: 0 <= i < |items| ==> r.blocks[i].entry == items[i])
      && Chained(r.blocks)
      && (items != [] ==> Opens(page, y, r.blocks[0]))
      && (items == [] ==> r.lastPage == page && r.cursor == y)
      && (items != [] ==> r.lastPage == r.blocks[|items| - 1].page
                          && r.cursor == After(r.blocks[|items| - 1]))
    decreases |items|
  {
    if items != [] {
      var b := PlaceBlock(items[0], page, y);
      PlaceShape(items[1..], b.page, After(b));
    }
  }

  lemma PlaceStep(items: seq<Entry>, page: nat, y: int)
    requires items != []
    ensures var b := PlaceBlock(items[0], page, y);
            var rest := Place(items[1..], b.page, After(b));
            Place(items, page, y).blocks == [b] + rest.blocks
            && Place(items, page, y).lastPage == rest.lastPage
  {
  }

  /** Under the page-break rule no header is drawn below the threshold: either
      the cursor was at or above it, or the block opened a fresh page. */
  lemma HeadersAboveBreak(bs: seq<Block>, page: nat, y: int)
    requires Chained(bs) && (bs != [] ==> Opens(page, y, bs[0]))
    ensures forall i :: 0 <= i < |bs| ==> BreakBelow <= bs[i].headerY
  {
    forall i | 0 <= i < |bs| ensures BreakBelow <= bs[i].headerY {
      if i > 0 {
        assert Opens(bs[i - 1].page, After(bs[i - 1]), bs[i]);
      }
    }
  }

  /** Starting from a cursor on the page, no header is drawn above the top. */
  lemma {:induction false} HeaderBelowTop(bs: seq<Block>, page: nat, y: int, i: nat)
    requires Chained(bs) && (bs != [] ==> Opens(page, y, bs[0])) && y <= PageTop
    requires i < |bs|
    ensures bs[i].headerY <= PageTop
  {
    if i > 0 {
      HeaderBelowTop(bs, page, y, i - 1);
      assert Opens(bs[i - 1].page, After(bs[i - 1]), bs[i]);
    }
  }

  /** The pages blocks land on run from the starting page to the last block's,
      with at most one new page per block after a start above the threshold. */
  lemma PageRange(bs: seq<Block>, page: nat, y: int)
    requires Chained(bs) && bs != [] && Opens(page, y, bs[0])
    ensures forall i :: 0 <= i < |bs| ==> page <= bs[i].page <= bs[|bs| - 1].page
    ensures y >= BreakBelow ==> bs[|bs| - 1].page < page + |bs|
  {
    forall i | 0 <= i < |bs| ensures page <= bs[i].page <= bs[|bs| - 1].page {
      PagesMonotone(bs, 0, i);
      PagesMonotone(bs, i, |bs| - 1);
    }
    PagesMonotone(bs, 0, |bs| - 1);
  }

  /** The laid-out document: the blocks in drawing order and the number of pages. */
  datatype Document = Document(blocks: seq<Block>, pageCount: nat)

  /** The pages of entries already in order, placed from just below the title
      on the first page. */
  function Paginate(es: seq<Entry>): (d: Document)
    ensures |d.blocks| == |es|
    ensures forall i :: 0 <= i < |es| ==> d.blocks[i].entry == es[i]
    ensures Chained(d.blocks)
    ensures es != [] ==> d.blocks[0].page == 0 && d.blocks[0].headerY == FirstCursor
    ensures forall i :: 0 <= i < |es| ==> BreakBelow <= d.blocks[i].headerY <= PageTop
    ensures forall i :: 0 <= i < |es| ==> d.blocks[i].page < d.pageCount
    ensures es == [] ==> d.pageCount == 1
    ensures es != [] ==> d.pageCount == d.blocks[|es| - 1].page + 1 <= |es|
  {
    var p := Place(es, 0, FirstCursor);
    PlaceShape(es, 0, FirstCursor);
    HeadersAboveBreak(p.blocks, 0, FirstCursor);
    assert forall i :: 0 <= i < |es| ==> p.blocks[i].headerY <= PageTop by {
      forall i | 0 <= i < |es| {
        HeaderBelowTop(p.blocks, 0, FirstCursor, i);
      }
    }
    if es != [] then
      PageRange(p.blocks, 0, FirstCursor);
      Document(p.blocks, p.lastPage + 1)
    else
      Document(p.blocks, p.lastPage + 1)
  }

  /** `generate_pdf` without the drawing: sort by date, then paginate. The
      blocks are the sorted items, one each, in order. */
  function Render(items: seq<Entry>): (d: Document)
    ensures |d.blocks| == |items|
    ensures forall i :: 0 <= i < |items| ==> d.blocks[i].entry == SortByDate(items)[i]
    ensures items == [] ==> d.pageCount == 1
  {
    Paginate(SortByDate(items))
  }

  /** The entries of a block sequence, in drawing order. */
  function Entries(bs: seq<Block>): (es: seq<Entry>)
    ensures |es| == |bs| && forall i :: 0 <= i < |bs| ==> es[i] == bs[i].entry
  {
    seq(|bs|, i requires 0 <= i < |bs| => bs[i].entry)
  }

  /** The renderer draws each item exactly once, ascending by date, with items
      sharing a date in the order they were entered. */
  lemma RenderOrder(items: seq<Entry>)
    ensures Entries(Render(items).blocks) == SortByDate(items)
    ensures SortedByDate(Entries(Render(items).blocks))
    ensures multiset(Entries(Render(items).blocks)) == multiset(items)
    ensures forall k :: WithDate(Entries(Render(items).blocks), k) == WithDate(items, k)
  {
    forall k ensures WithDate(Entries(Render(items).blocks), k) == WithDate(items, k) {
      SortByDateStable(items, k);
    }
  }

  /** Each block's link is the search prefix followed by that entry's raw place. */
  lemma RenderLinks(items: seq<Entry>)
    ensures forall i :: 0 <= i < |items| ==>
      var b := Render(items).blocks[i];
      b.url == MapsPrefix + b.entry.place && QueryOf(b.url) == Some(b.entry.place)
  {
    forall i | 0 <= i < |items| {
      MapsUrlRoundTrip(Render(items).blocks[i].entry.place);
    }
  }

  /** The cursor falls by two lines, a third when a memo is drawn, and the gap. */
  lemma CursorDrop(b: Block)
    requires WellShaped(b)
    ensures After(b) == b.headerY - 2 * LineStep - EntryGap - (if b.entry.memo != "" then LineStep else 0)
    ensures b.memoY.Some? <==> b.entry.memo != ""
  {
  }

  /** Nothing of a block is drawn off its page: the QR image's lower edge stays
      above the bottom and its upper edge below the top. */
  lemma BlocksOnPage(items: seq<Entry>)
    ensures forall i :: 0 <= i < |items| ==>
      0 < Render(items).blocks[i].qrY && Render(items).blocks[i].qrY + QrSize <= PageHeight
  {
  }

  lemma {:induction false} PagesMonotone(bs: seq<Block>, i: nat, j: nat)
    requires Chained(bs) && i <= j < |bs|
    ensures bs[i].page <= bs[j].page <= bs[i].page + (j - i)
    decreases j - i
  {
    if i < j {
      PagesMonotone(bs, i, j - 1);
    }
  }

  /** Within one page every further block starts at least one minimal entry
      height (two lines and the gap) lower. */
  lemma {:induction false} SamePageDrop(bs: seq<Block>, i: nat, j: nat)
    requires Chained(bs) && i <= j < |bs| && bs[i].page == bs[j].page
    ensures bs[j].headerY <= bs[i].headerY - (2 * LineStep + EntryGap) * (j - i)
    decreases j - i
  {
    if i < j {
      PagesMonotone(bs, i, j - 1);
      PagesMonotone(bs, j - 1, j);
      SamePageDrop(bs, i, j - 1);
      assert Opens(bs[j - 1].page, After(bs[j - 1]), bs[j]);
    }
  }

  /** Blocks whose headers all lie between the break threshold and the top. */
  predicate Framed(bs: seq<Block>)
  {
    && Chained(bs)
    && forall i :: 0 <= i < |bs| ==> BreakBelow <= bs[i].headerY <= PageTop
  }

  /** A page holds at most six entries, so any seven consecutive blocks reach
      a later page. */
  lemma SevenBlocksSpanTwoPages(bs: seq<Block>, i: nat)
    requires Framed(bs) && i + 6 < |bs|
    ensures bs[i].page < bs[i + 6].page
  {
    PagesMonotone(bs, i, i + 6);
    if bs[i].page == bs[i + 6].page {
      SamePageDrop(bs, i, i + 6);
      assert false;
    }
  }

  lemma {:induction false} BlockPageAtLeast(bs: seq<Block>, k: nat)
    requires Framed(bs) && 6 * k < |bs|
    ensures bs[6 * k].page >= bs[0].page + k
  {
    if k > 0 {
      BlockPageAtLeast(bs, k - 1);
      SevenBlocksSpanTwoPages(bs, 6 * (k - 1));
    }
  }

  /** The document needs at least one page per six entries; more than six
      entries always spill past the first page. */
  lemma PageCountLowerBound(items: seq<Entry>)
    ensures |items| <= 6 * Render(items).pageCount
    ensures |items| > 6 ==> Render(items).pageCount >= 2
  {
    var d := Render(items);
    if |items| > 0 {
      var k := (|items| - 1) / 6;
      assert Framed(d.blocks);
      BlockPageAtLeast(d.blocks, k);
      PagesMonotone(d.blocks, 6 * k, |items| - 1);
    }
  }

  /** One iteration of the renderer's loop as written: break the page if the
      cursor is below the threshold, then step the cursor down line by line. */
  method DrawEntry(e: Entry, page: nat, y: int) returns (b: Block, page': nat, y': int)
    ensures b == PlaceBlock(e, page, y)
    ensures page' == b.page && y' == After(b)
  {
    page', y' := page, y;
    if y' < BreakBelow {
      page' := page' + 1;
      y' := PageTop;
    }
    var headerY := y';
    y' := y' - LineStep;
    var placeY := y';
    y' := y' - LineStep;
    var memoY := None;
    if e.memo != "" {
      memoY := Some(y');
      y' := y' - LineStep;
    }
    b := Block(e, page', headerY, placeY, memoY, y', y' - QrDrop, MapsUrl(e.place));
    y' := y' - EntryGap;
  }

  /** One trip round the renderer's loop extends the drawn prefix by the block
      `Place` puts next. */
  lemma LoopStep(sorted: seq<Entry>, i: nat, blocks: seq<Block>, page0: nat, y0: int, whole: Placement)
    requires i < |sorted|
    requires blocks + Place(sorted[i..], page0, y0).blocks == whole.blocks
    requires Place(sorted[i..], page0, y0).lastPage == whole.lastPage
    ensures var b := PlaceBlock(sorted[i], page0, y0);
      && (blocks + [b]) + Place(sorted[i + 1..], b.page, After(b)).blocks == whole.blocks
      && Place(sorted[i + 1..], b.page, After(b)).lastPage == whole.lastPage
  {
    var b := PlaceBlock(sorted[i], page0, y0);
    PlaceStep(sorted[i..], page0, y0);
    assert sorted[i..][0] == sorted[i] && sorted[i..][1..] == sorted[i + 1..];
    Regroup(blocks, [b], Place(sorted[i + 1..], b.page, After(b)).blocks);
  }

  /** Once every entry is drawn, the drawn prefix is the whole placement. */
  lemma LoopDone(sorted: seq<Entry>, blocks: seq<Block>, page: nat, y: int, whole: Placement)
    requires blocks + Place(sorted[|sorted|..], page, y).blocks == whole.blocks
    requires Place(sorted[|sorted|..], page, y).lastPage == whole.lastPage
    ensures blocks == whole.blocks && page == whole.lastPage
  {
    assert sorted[|sorted|..] == [];
    assert blocks + [] == blocks;
  }

  /** The renderer's loop as written, over entries already in order: a mutable
      cursor and page, one iteration per entry, starting below the title. */
  method PlaceAll(sorted: seq<Entry>) returns (blocks: seq<Block>, page: nat)
    ensures blocks == Place(sorted, 0, FirstCursor).blocks
    ensures page == Place(sorted, 0, FirstCursor).lastPage
  {
    ghost var whole := Place(sorted, 0, FirstCursor);
    page := 0;
    var y := PageTop;
    y := y - TitleDrop;
    blocks := [];
    var i := 0;
    assert sorted[0..] == sorted;
    while i < |sorted|
      invariant 0 <= i <= |sorted|
      invariant blocks + Place(sorted[i..], page, y).blocks == whole.blocks
      invariant Place(sorted[i..], page, y).lastPage == whole.lastPage
    {
      LoopStep(sorted, i, blocks, page, y, whole);
      var b;
      b, page, y := DrawEntry(sorted[i], page, y);
      blocks := blocks + [b];
      i := i + 1;
    }
    LoopDone(sorted, blocks, page, y, whole);
  }

  /** `generate_pdf` as written: sort, then run the loop. It produces exactly
      the document `Render` describes. */
  method LayOut(items: seq<Entry>) returns (d: Document)
    ensures d == Render(items)
  {
    var sorted := SortByDate(items);
    var blocks, page := PlaceAll(sorted);
    d := Document(blocks, page + 1);
  }
}
