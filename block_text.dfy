/**
 * The Cell Text Resolver, `_get_block_text`: the text of a block assembled
 * from the blocks its CHILD relationships name.
 */
module BlockText {
  import opened Wrappers
  import opened Blocks

  /**
   * What one child adds: a WORD its "Text" and a space; in the `WithForms`
   * variant a SELECTED selection element "X "; anything else nothing.
   * Reading "Text" or "SelectionStatus" from a block without it raises KeyError.
   */
  function Contribution(variant: Variant, child: Block): Result<string, Error> {
    match child.blockType
    case Word =>
      if child.text.Some? then Success(child.text.value + " ") else Failure(KeyError("Text"))
    case SelectionElement =>
      if variant == WordsOnly then Success("")
      else if child.selectionStatus.None? then Failure(KeyError("SelectionStatus"))
      else if child.selectionStatus.value == Selected then Success("X ")
      else Success("")
    case _ => Success("")
  }

  /** The loop over child ids: look each one up in `blocks_map` and append its contribution. */
  function IdsText(variant: Variant, blocksMap: map<string, Block>, ids: seq<string>): Result<string, Error> {
    if ids == [] then Success("")
    else
      var prefix :- IdsText(variant, blocksMap, ids[..|ids| - 1]);
      var id := ids[|ids| - 1];
      if id !in blocksMap then Failure(KeyError(id))
      else
        var piece :- Contribution(variant, blocksMap[id]);
        Success(prefix + piece)
  }

  /** `_get_block_text(block)`: "" without "Relationships", else the text of its CHILD ids. */
  function TextOf(variant: Variant, blocksMap: map<string, Block>, b: Block): Result<string, Error> {
    if b.relationships.None? then Success("")
    else IdsText(variant, blocksMap, RelatedIds(b.relationships.value, Child))
  }

  /** A child id that resolves to a block with a contribution. */
  predicate ChildResolves(variant: Variant, blocksMap: map<string, Block>, id: string) {
    id in blocksMap && Contribution(variant, blocksMap[id]).Success?
  }

  /** The text fails exactly when some child id is unknown or a child lacks a field it needs. */
  lemma {:induction false} IdsTextSucceeds(variant: Variant, blocksMap: map<string, Block>, ids: seq<string>)
    ensures IdsText(variant, blocksMap, ids).Success? <==>
      forall k :: 0 <= k < |ids| ==> ChildResolves(variant, blocksMap, ids[k])
  {
    if ids != [] {
      var prefix := ids[..|ids| - 1];
      IdsTextSucceeds(variant, blocksMap, prefix);
      assert forall k :: 0 <= k < |prefix| ==> prefix[k] == ids[k];
    }
  }

  /** The first failing child decides the error: text after it is never looked at. */
  lemma {:induction false} IdsTextFailureSticks(variant: Variant, blocksMap: map<string, Block>, ids: seq<string>, more: seq<string>)
    requires IdsText(variant, blocksMap, ids).Failure?
    ensures IdsText(variant, blocksMap, ids + more) == IdsText(variant, blocksMap, ids)
  {
    if more == [] {
      assert ids + more == ids;
    } else {
      var front := more[..|more| - 1];
      assert (ids + more)[..|ids + more| - 1] == ids + front;
      IdsTextFailureSticks(variant, blocksMap, ids, front);
    }
  }

  /** One more child id: the text so far plus the child's contribution, or the first error. */
  lemma IdsTextSnoc(variant: Variant, blocksMap: map<string, Block>, ids: seq<string>, id: string)
    requires IdsText(variant, blocksMap, ids).Success?
    ensures id !in blocksMap ==> IdsText(variant, blocksMap, ids + [id]) == Failure(KeyError(id))
    ensures id in blocksMap && Contribution(variant, blocksMap[id]).Failure? ==>
      IdsText(variant, blocksMap, ids + [id]) == Failure(Contribution(variant, blocksMap[id]).error)
    ensures id in blocksMap && Contribution(variant, blocksMap[id]).Success? ==>
      IdsText(variant, blocksMap, ids + [id]) ==
        Success(IdsText(variant, blocksMap, ids).value + Contribution(variant, blocksMap[id]).value)
  {
    assert (ids + [id])[..|ids|] == ids;
  }

  /** A failure at id `j` of CHILD relationship `i` is the failure of the whole text. */
  lemma IdsTextFailsAt(variant: Variant, blocksMap: map<string, Block>, rels: seq<Relationship>, i: nat, j: nat)
    requires i < |rels| && rels[i].relType == Child && j < |rels[i].ids|
    requires IdsText(variant, blocksMap, RelatedIds(rels[..i], Child) + rels[i].ids[..j + 1]).Failure?
    ensures IdsText(variant, blocksMap, RelatedIds(rels, Child)) ==
      IdsText(variant, blocksMap, RelatedIds(rels[..i], Child) + rels[i].ids[..j + 1])
  {
    RelatedIdsAround(rels, Child, i, j);
    IdsTextFailureSticks(variant, blocksMap, RelatedIds(rels[..i], Child) + rels[i].ids[..j + 1],
                         rels[i].ids[j + 1..] + RelatedIds(rels[i + 1..], Child));
  }

  /**
   * Child `j` of CHILD relationship `i` extends the ids read so far by one;
   * if that fails, the whole block's text fails the same way.
   */
  lemma IdsTextStep(variant: Variant, blocksMap: map<string, Block>, rels: seq<Relationship>, i: nat, j: nat)
    requires i < |rels| && rels[i].relType == Child && j < |rels[i].ids|
    ensures var next := IdsText(variant, blocksMap, RelatedIds(rels[..i], Child) + rels[i].ids[..j + 1]);
      && next == IdsText(variant, blocksMap, (RelatedIds(rels[..i], Child) + rels[i].ids[..j]) + [rels[i].ids[j]])
      && (next.Failure? ==> IdsText(variant, blocksMap, RelatedIds(rels, Child)) == next)
  {
    var done := RelatedIds(rels[..i], Child);
    assert done + rels[i].ids[..j + 1] == (done + rels[i].ids[..j]) + [rels[i].ids[j]];
    if IdsText(variant, blocksMap, done + rels[i].ids[..j + 1]).Failure? {
      IdsTextFailsAt(variant, blocksMap, rels, i, j);
    }
  }

  /**
   * One child id of CHILD relationship `i`: an unknown id or a failing
   * contribution is the failure of the whole text; otherwise the text so far
   * grows by the child's contribution.
   */
  lemma ChildStep(variant: Variant, blocksMap: map<string, Block>, rels: seq<Relationship>, i: nat, j: nat)
    requires i < |rels| && rels[i].relType == Child && j < |rels[i].ids|
    requires IdsText(variant, blocksMap, RelatedIds(rels[..i], Child) + rels[i].ids[..j]).Success?
    ensures var id := rels[i].ids[j];
      id !in blocksMap ==> IdsText(variant, blocksMap, RelatedIds(rels, Child)) == Failure(KeyError(id))
    ensures var id := rels[i].ids[j];
      id in blocksMap && Contribution(variant, blocksMap[id]).Failure? ==>
        IdsText(variant, blocksMap, RelatedIds(rels, Child)) == Failure(Contribution(variant, blocksMap[id]).error)
    ensures var id, done := rels[i].ids[j], RelatedIds(rels[..i], Child);
      id in blocksMap && Contribution(variant, blocksMap[id]).Success? ==>
        IdsText(variant, blocksMap, done + rels[i].ids[..j + 1]) ==
          Success(IdsText(variant, blocksMap, done + rels[i].ids[..j]).value + Contribution(variant, blocksMap[id]).value)
  {
    IdsTextStep(variant, blocksMap, rels, i, j);
    IdsTextSnoc(variant, blocksMap, RelatedIds(rels[..i], Child) + rels[i].ids[..j], rels[i].ids[j]);
  }

  /** Order is preserved: the text of `ids + more` is the text of `ids` followed by that of `more`. */
  lemma {:induction false} IdsTextAppend(variant: Variant, blocksMap: map<string, Block>, ids: seq<string>, more: seq<string>)
    requires IdsText(variant, blocksMap, ids).Success? && IdsText(variant, blocksMap, more).Success?
    ensures IdsText(variant, blocksMap, ids + more) ==
      Success(IdsText(variant, blocksMap, ids).value + IdsText(variant, blocksMap, more).value)
  {
    if more == [] {
      assert ids + more == ids;
      assert IdsText(variant, blocksMap, ids).value + "" == IdsText(variant, blocksMap, ids).value;
    } else {
      var front := more[..|more| - 1];
      var id := more[|more| - 1];
      assert (ids + more)[..|ids + more| - 1] == ids + front;
      assert (ids + more)[|ids + more| - 1] == id;
      assert IdsText(variant, blocksMap, front).Success?;
      IdsTextAppend(variant, blocksMap, ids, front);
      var piece := Contribution(variant, blocksMap[id]).value;
      assert IdsText(variant, blocksMap, more).value == IdsText(variant, blocksMap, front).value + piece;
      var a := IdsText(variant, blocksMap, ids).value;
      var f := IdsText(variant, blocksMap, front).value;
      assert (a + f) + piece == a + (f + piece);
    }
  }

  /** The WORD children among `ids`, in order. */
  function WordChildren(blocksMap: map<string, Block>, ids: seq<string>): seq<Block>
    requires forall k :: 0 <= k < |ids| ==> ids[k] in blocksMap
  {
    if ids == [] then []
    else
      var b := blocksMap[ids[|ids| - 1]];
      WordChildren(blocksMap, ids[..|ids| - 1]) + (if b.blockType == Word then [b] else [])
  }

  /** Each block's "Text" followed by one space, concatenated in order. */
  function SpacedWords(ws: seq<Block>): string
    requires forall k :: 0 <= k < |ws| ==> ws[k].text.Some?
  {
    if ws == [] then "" else SpacedWords(ws[..|ws| - 1]) + ws[|ws| - 1].text.value + " "
  }

  /**
   * In the `WordsOnly` variant the text is exactly the WORD children's texts,
   * each followed by a space: selection elements add nothing, even SELECTED.
   */
  lemma {:induction false} WordsOnlyText(blocksMap: map<string, Block>, ids: seq<string>)
    requires IdsText(WordsOnly, blocksMap, ids).Success?
    ensures forall k :: 0 <= k < |ids| ==> ids[k] in blocksMap
    ensures forall k :: 0 <= k < |WordChildren(blocksMap, ids)| ==> WordChildren(blocksMap, ids)[k].text.Some?
    ensures IdsText(WordsOnly, blocksMap, ids).value == SpacedWords(WordChildren(blocksMap, ids))
  {
    IdsTextSucceeds(WordsOnly, blocksMap, ids);
    if ids != [] {
      var prefix := ids[..|ids| - 1];
      assert forall k :: 0 <= k < |prefix| ==> prefix[k] == ids[k];
      WordsOnlyText(blocksMap, prefix);
      var ws := WordChildren(blocksMap, ids);
      var b := blocksMap[ids[|ids| - 1]];
      if b.blockType == Word {
        assert ws == WordChildren(blocksMap, prefix) + [b];
        assert ws[..|ws| - 1] == WordChildren(blocksMap, prefix);
        assert ws[|ws| - 1] == b;
      } else {
        assert ws == WordChildren(blocksMap, prefix);
      }
    }
  }

  /** No child is a SELECTED selection element. */
  predicate NoSelectedChild(blocksMap: map<string, Block>, ids: seq<string>) {
    forall k :: 0 <= k < |ids| && ids[k] in blocksMap && blocksMap[ids[k]].blockType == SelectionElement ==>
      blocksMap[ids[k]].selectionStatus == Some(NotSelected)
  }

  /**
   * The two variants agree on a block whose selection elements are all
   * NOT_SELECTED: a checkbox only shows, as "X ", when it is SELECTED.
   */
  lemma {:induction false} VariantsAgree(blocksMap: map<string, Block>, ids: seq<string>)
    requires NoSelectedChild(blocksMap, ids)
    ensures IdsText(WithForms, blocksMap, ids) == IdsText(WordsOnly, blocksMap, ids)
  {
    if ids != [] {
      var prefix := ids[..|ids| - 1];
      assert forall k :: 0 <= k < |prefix| ==> prefix[k] == ids[k];
      VariantsAgree(blocksMap, prefix);
    }
  }

  /** A SELECTED selection element adds exactly "X " in the `WithForms` variant. */
  lemma SelectedAddsMark(blocksMap: map<string, Block>, ids: seq<string>, id: string)
    requires IdsText(WithForms, blocksMap, ids).Success?
    requires id in blocksMap && blocksMap[id].blockType == SelectionElement
    requires blocksMap[id].selectionStatus == Some(Selected)
    ensures IdsText(WithForms, blocksMap, ids + [id]) == Success(IdsText(WithForms, blocksMap, ids).value + "X ")
  {
    assert (ids + [id])[..|ids|] == ids;
  }

  /** Worked example: children "Total" then "Due" read "Total Due ". */
  lemma TwoWordsInOrder(variant: Variant, total: Block, due: Block, cell: Block)
    requires total == Block("w1", Word, Some("Total"), None, None, None, None, None, None)
    requires due == Block("w2", Word, Some("Due"), None, None, None, None, None, None)
    requires cell == Block("c", Cell, None, None, Some([Relationship(Child, ["w1", "w2"])]), None, Some(1), Some(1), None)
    ensures TextOf(variant, map["w1" := total, "w2" := due], cell) == Success("Total Due ")
  {
    var rels := [Relationship(Child, ["w1", "w2"])];
    assert RelatedIds(rels, Child) == ["w1", "w2"] by {
      assert rels[..0] == [];
    }
    var m := map["w1" := total, "w2" := due];
    assert ["w1", "w2"][..1] == ["w1"];
    assert ["w1"][..0] == [];
    assert "Total" + " " == "Total ";
    assert "Due" + " " == "Due ";
    assert Contribution(variant, total) == Success("Total ");
    assert Contribution(variant, due) == Success("Due ");
    assert IdsText(variant, m, []) == Success("");
    assert IdsText(variant, m, ["w1"]) == Success("" + "Total ");
    assert "" + "Total " == "Total ";
    var ids := ["w1", "w2"];
    assert ids[..|ids| - 1] == ["w1"] && ids[|ids| - 1] == "w2";
    assert "w1"[1] != "w2"[1];
    assert m["w2"] == due;
    assert IdsText(variant, m, ids) == Success("Total " + "Due ");
    assert "Total " + "Due " == "Total Due ";
  }

  /** A block whose only CHILD id is a word reads as that word and a space. */
  lemma OneWordText(variant: Variant, blocksMap: map<string, Block>, b: Block, id: string)
    requires b.relationships.Some? && RelatedIds(b.relationships.value, Child) == [id]
    requires id in blocksMap && blocksMap[id].blockType == Word && blocksMap[id].text.Some?
    ensures TextOf(variant, blocksMap, b) == Success(blocksMap[id].text.value + " ")
  {
    var t := blocksMap[id].text.value + " ";
    assert [id][..0] == [];
    assert IdsText(variant, blocksMap, []) == Success("");
    assert Contribution(variant, blocksMap[id]) == Success(t);
    assert "" + t == t;
    assert IdsText(variant, blocksMap, [id]) == Success(t);
  }

  /** An unknown child id fails with a KeyError naming it. */
  lemma UnknownChildFails(variant: Variant, blocksMap: map<string, Block>, ids: seq<string>, k: nat)
    requires k < |ids| && ids[k] !in blocksMap
    ensures IdsText(variant, blocksMap, ids).Failure?
  {
    IdsTextSucceeds(variant, blocksMap, ids);
  }
}
