/**
 * The Page Segmenter: the single pass of `_get_per_page` that cuts the block
 * list into pages at PAGE blocks and collects each page's text and its
 * text-carrying blocks.
 */
module PageSegmenter {
  import opened Wrappers
  import opened Blocks

  predicate IsPage(b: Block) {
    b.blockType == Page
  }

  /** The blocks that go to a page: not PAGE blocks, and carrying "Text". */
  predicate IsTextBlock(b: Block) {
    b.blockType != Page && b.text.Some?
  }

  ghost predicate AllText(g: seq<Block>) {
    forall j :: 0 <= j < |g| ==> IsTextBlock(g[j])
  }

  /** A page's text: each block's text followed by one space, in order. */
  function PageText(g: seq<Block>): string
    requires AllText(g)
  {
    if g == [] then "" else PageText(g[..|g| - 1]) + (g[|g| - 1].text.value + " ")
  }

  function Flatten(gs: seq<seq<Block>>): seq<Block> {
    if gs == [] then [] else Flatten(gs[..|gs| - 1]) + gs[|gs| - 1]
  }

  /**
   * The loop's state after a prefix of the blocks: the pages already closed
   * (appended to `pages_text` / `pages_response`) and the accumulators
   * `text` / `blocks` of the page being filled.
   */
  datatype Segmenter = Segmenter(texts: seq<string>, groups: seq<seq<Block>>, text: string, group: seq<Block>)

  /** One iteration of the loop; `first` is `first_iteration`. */
  function Step(s: Segmenter, b: Block, first: bool): Segmenter {
    if b.blockType == Page then
      if first then s else Segmenter(s.texts + [s.text], s.groups + [s.group], "", [])
    else if b.text.Some? then
      Segmenter(s.texts, s.groups, s.text + (b.text.value + " "), s.group + [b])
    else s
  }

  /** The loop run over all of `bs`: `first_iteration` holds only for the first block. */
  function Run(bs: seq<Block>): Segmenter {
    if bs == [] then Segmenter([], [], "", [])
    else Step(Run(bs[..|bs| - 1]), bs[|bs| - 1], |bs| == 1)
  }

  /** What `_get_per_page` leaves in `pages_text` and `pages_response`. */
  datatype Pages = Pages(texts: seq<string>, blocks: seq<seq<Block>>)

  /** `_get_per_page`: the loop, then the last page appended unconditionally. */
  function Segment(bs: seq<Block>): Pages {
    var s := Run(bs);
    Pages(s.texts + [s.text], s.groups + [s.group])
  }

  /** The number of PAGE blocks after the first position: each closes a page. */
  function PageBreaks(bs: seq<Block>): nat {
    if |bs| <= 1 then 0
    else PageBreaks(bs[..|bs| - 1]) + (if IsPage(bs[|bs| - 1]) then 1 else 0)
  }

  /** Every prefix closes one page per PAGE block after the first position. */
  lemma {:induction false} RunLength(bs: seq<Block>)
    ensures |Run(bs).texts| == |Run(bs).groups| == PageBreaks(bs)
  {
    if bs != [] {
      RunLength(bs[..|bs| - 1]);
    }
  }

  /** Each page holds text blocks only, and its text is theirs. */
  ghost predicate PagesMatch(texts: seq<string>, groups: seq<seq<Block>>) {
    |texts| == |groups| &&
    forall i :: 0 <= i < |groups| ==> AllText(groups[i]) && texts[i] == PageText(groups[i])
  }

  lemma ClosePage(texts: seq<string>, groups: seq<seq<Block>>, text: string, group: seq<Block>)
    requires PagesMatch(texts, groups) && AllText(group) && text == PageText(group)
    ensures PagesMatch(texts + [text], groups + [group])
  {
    var ts, gs := texts + [text], groups + [group];
    forall i | 0 <= i < |gs|
      ensures AllText(gs[i]) && ts[i] == PageText(gs[i])
    {
      if i < |groups| {
        assert gs[i] == groups[i] && ts[i] == texts[i];
      }
    }
  }

  /** The open page holds text blocks and their text. */
  lemma {:induction false} RunOpen(bs: seq<Block>)
    ensures AllText(Run(bs).group) && Run(bs).text == PageText(Run(bs).group)
  {
    if bs != [] {
      var prefix := bs[..|bs| - 1];
      var b := bs[|bs| - 1];
      RunOpen(prefix);
      var s := Run(prefix);
      assert Run(bs) == Step(s, b, |bs| == 1);
      if IsTextBlock(b) {
        var g := s.group + [b];
        assert Run(bs).group == g;
        assert forall j :: 0 <= j < |g| ==> IsTextBlock(g[j]);
        assert g[..|g| - 1] == s.group;
        assert PageText(g) == s.text + (b.text.value + " ");
      }
    }
  }

  /** Every closed page holds text blocks and their text. */
  lemma {:induction false} RunTexts(bs: seq<Block>)
    ensures PagesMatch(Run(bs).texts, Run(bs).groups)
  {
    if bs != [] {
      var prefix := bs[..|bs| - 1];
      RunTexts(prefix);
      RunOpen(prefix);
      var s := Run(prefix);
      if IsPage(bs[|bs| - 1]) && |bs| != 1 {
        ClosePage(s.texts, s.groups, s.text, s.group);
      }
    }
  }

  /** The pages, concatenated, are the text blocks of the prefix in order. */
  lemma {:induction false} RunFlatten(bs: seq<Block>)
    ensures Flatten(Run(bs).groups) + Run(bs).group == Filter(bs, IsTextBlock)
  {
    if bs != [] {
      var prefix := bs[..|bs| - 1];
      var b := bs[|bs| - 1];
      var s := Run(prefix);
      RunFlatten(prefix);
      assert Filter(bs, IsTextBlock) == Filter(prefix, IsTextBlock) + (if IsTextBlock(b) then [b] else []);
      if IsPage(b) && |bs| != 1 {
        var gs := s.groups + [s.group];
        assert gs[..|gs| - 1] == s.groups;
        assert Flatten(gs) == Flatten(s.groups) + s.group;
      } else if IsTextBlock(b) {
        assert Flatten(s.groups) + (s.group + [b]) == (Flatten(s.groups) + s.group) + [b];
      }
    }
  }

  /**
   * `pages_text` and `pages_response` have one entry per page: one more than
   * the number of PAGE blocks after the first position.
   */
  lemma SegmentLength(bs: seq<Block>)
    ensures |Segment(bs).texts| == |Segment(bs).blocks| == PageBreaks(bs) + 1
  {
    RunLength(bs);
  }

  /**
   * Each page holds exactly the non-PAGE blocks with text, in block order
   * and none reordered, and its text is their texts each followed by a space.
   */
  lemma SegmentContents(bs: seq<Block>)
    ensures |Segment(bs).texts| == |Segment(bs).blocks|
    ensures forall i :: 0 <= i < |Segment(bs).blocks| ==>
      AllText(Segment(bs).blocks[i]) && Segment(bs).texts[i] == PageText(Segment(bs).blocks[i])
    ensures Flatten(Segment(bs).blocks) == Filter(bs, IsTextBlock)
  {
    RunTexts(bs);
    RunOpen(bs);
    RunFlatten(bs);
    var s := Run(bs);
    ClosePage(s.texts, s.groups, s.text, s.group);
    var gs := s.groups + [s.group];
    assert gs[..|gs| - 1] == s.groups;
  }

  /** The first block opens the first page, and lands on it when it carries text. */
  lemma SegmentFirst(b: Block)
    ensures IsTextBlock(b) ==> Segment([b]) == Pages([b.text.value + " "], [[b]])
    ensures !IsTextBlock(b) ==> Segment([b]) == Pages([""], [[]])
  {
    assert [b][..0] == [];
    assert Run([b]) == Step(Run([]), b, true);
    if IsTextBlock(b) {
      assert "" + (b.text.value + " ") == b.text.value + " ";
      assert [] + [b] == [b];
    }
  }

  /**
   * Each later block decides where it lands from the pages so far: a PAGE
   * block opens a new, empty page; a text block is appended to the last
   * page and its text, followed by a space, to the last page's text; any
   * other block changes nothing.
   */
  lemma SegmentSnoc(bs: seq<Block>, b: Block)
    requires |bs| >= 1
    ensures var p, q := Segment(bs), Segment(bs + [b]);
      && |p.texts| >= 1 && |p.blocks| >= 1
      && (IsPage(b) ==> q == Pages(p.texts + [""], p.blocks + [[]]))
      && (IsTextBlock(b) ==>
            q == Pages(p.texts[..|p.texts| - 1] + [p.texts[|p.texts| - 1] + (b.text.value + " ")],
                       p.blocks[..|p.blocks| - 1] + [p.blocks[|p.blocks| - 1] + [b]]))
      && (!IsPage(b) && !IsTextBlock(b) ==> q == p)
  {
    var all := bs + [b];
    assert all[..|all| - 1] == bs;
    var s := Run(bs);
    assert Run(all) == Step(s, b, false);
    var p := Segment(bs);
    assert p.texts[..|p.texts| - 1] == s.texts;
    assert p.blocks[..|p.blocks| - 1] == s.groups;
  }

  /** A text block after pages `texts + [t]` / `blocks + [g]` joins the last one. */
  lemma SegmentSnocText(bs: seq<Block>, b: Block, texts: seq<string>, t: string, blocks: seq<seq<Block>>, g: seq<Block>)
    requires |bs| >= 1 && IsTextBlock(b)
    requires Segment(bs) == Pages(texts + [t], blocks + [g])
    ensures Segment(bs + [b]) == Pages(texts + [t + (b.text.value + " ")], blocks + [g + [b]])
  {
    SegmentSnoc(bs, b);
    assert (texts + [t])[..|texts|] == texts;
    assert (blocks + [g])[..|blocks|] == blocks;
  }

  /**
   * PAGE, WORD a, PAGE, WORD b: each word lands on the page its PAGE block
   * opened, "a " on the first and "b " on the second.
   */
  lemma TwoPagesTwoWords(page1: Block, a: Block, page2: Block, b: Block)
    requires IsPage(page1) && IsPage(page2) && IsTextBlock(a) && IsTextBlock(b)
    ensures Segment([page1, a, page2, b]) == Pages([a.text.value + " ", b.text.value + " "], [[a], [b]])
  {
    var ta, tb := a.text.value + " ", b.text.value + " ";
    var s1 := [page1];
    var s2 := s1 + [a];
    var s3 := s2 + [page2];
    var s4 := s3 + [b];
    SegmentFirst(page1);
    assert Segment(s1) == Pages([] + [""], [] + [[]]);
    SegmentSnocText(s1, a, [], "", [], []);
    assert "" + ta == ta && [] + [a] == [a];
    assert Segment(s2) == Pages([ta], [[a]]);
    SegmentSnoc(s2, page2);
    assert Segment(s3) == Pages([ta] + [""], [[a]] + [[]]);
    SegmentSnocText(s3, b, [ta], "", [[a]], []);
    assert "" + tb == tb && [] + [b] == [b];
    assert s4 == [page1, a, page2, b];
  }

  lemma {:induction false} PageBreaksCount(bs: seq<Block>)
    requires bs != []
    ensures PageBreaks(bs) + (if IsPage(bs[0]) then 1 else 0) == Count(bs, IsPage)
  {
    if |bs| > 1 {
      var prefix := bs[..|bs| - 1];
      PageBreaksCount(prefix);
    }
  }

  /** When the list starts with a PAGE block there is exactly one page per PAGE block. */
  lemma PageCountFromFirstPage(bs: seq<Block>)
    requires bs != [] && IsPage(bs[0])
    ensures |Segment(bs).texts| == |Segment(bs).blocks| == Count(bs, IsPage)
  {
    SegmentLength(bs);
    PageBreaksCount(bs);
  }

  /** Without PAGE blocks there is exactly one (possibly empty) page. */
  lemma SinglePageWithoutPageBlocks(bs: seq<Block>)
    requires Count(bs, IsPage) == 0
    ensures |Segment(bs).texts| == |Segment(bs).blocks| == 1
  {
    SegmentLength(bs);
    if bs != [] {
      PageBreaksCount(bs);
    }
  }
}
