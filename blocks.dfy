/**
 * The shape of a Textract response as the formatter reads it: a flat list of
 * typed blocks linked by CHILD and VALUE relationships, plus document metadata.
 * Fields the formatter reads with `block["X"]` but that a block may lack are
 * `Option`s, so that the KeyError the formatter raises can be modelled.
 */
module Blocks {
  import opened Wrappers

  datatype BlockType =
    | Page | Line | Word | Table | Cell | KeyValueSet | SelectionElement
    | OtherBlockType(name: string)

  datatype RelationshipType = Child | Value | OtherRelationshipType(name: string)

  datatype SelectionStatus = Selected | NotSelected

  /** One entry of a block's "Relationships" list: a "Type" and its "Ids". */
  datatype Relationship = Relationship(relType: RelationshipType, ids: seq<string>)

  datatype Block = Block(
    id: string,
    blockType: BlockType,
    text: Option<string>,
    page: Option<int>,
    relationships: Option<seq<Relationship>>,
    entityTypes: Option<seq<string>>,
    rowIndex: Option<int>,
    columnIndex: Option<int>,
    selectionStatus: Option<SelectionStatus>)

  datatype DocumentMetadata = DocumentMetadata(pages: Option<int>)

  /** A Textract response: "Blocks" and "DocumentMetadata" may be absent. */
  datatype Response = Response(blocks: Option<seq<Block>>, documentMetadata: Option<DocumentMetadata>)

  /** The two results an AWS OCR object may hold (None until requested). */
  datatype AwsOcr = AwsOcr(analysisResponse: Option<Response>, textResponse: Option<Response>)

  /**
   * The two copies of the formatter: `WithForms` (ocr/lambdas/aws) builds
   * key/value maps and forms and renders selected checkboxes; `WordsOnly`
   * (OCR/) does neither.
   */
  datatype Variant = WithForms | WordsOnly

  /** The exceptions the formatter can raise. */
  datatype Error =
    | NotExecuted          // neither an analysis nor a text response is present
    | MissingBlocks        // the bare `raise` on a response without "Blocks"
    | KeyError(key: string)
    | IndexError           // `pages_tables[page - 1]` out of range
    | UnboundValueBlock    // a key block whose relationships name no VALUE id

  /** A reconstructed table: row index -> column index -> cell text. */
  type Table = map<int, map<int, string>>

  /**
   * The ids of every relationship of type `t`, relationship by relationship and
   * in list order: the ids the formatter's nested `for` loops visit.
   */
  function RelatedIds(rels: seq<Relationship>, t: RelationshipType): (ids: seq<string>)
    ensures forall id :: id in ids <==> exists k :: 0 <= k < |rels| && rels[k].relType == t && id in rels[k].ids
  {
    if rels == [] then []
    else
      var last := rels[|rels| - 1];
      var prefix := RelatedIds(rels[..|rels| - 1], t);
      assert forall k :: 0 <= k < |rels| - 1 ==> rels[..|rels| - 1][k] == rels[k];
      prefix + (if last.relType == t then last.ids else [])
  }

  /** The ids of consecutive relationship lists follow each other. */
  lemma {:induction false} RelatedIdsAppend(a: seq<Relationship>, b: seq<Relationship>, t: RelationshipType)
    ensures RelatedIds(a + b, t) == RelatedIds(a, t) + RelatedIds(b, t)
  {
    if b == [] {
      assert a + b == a;
    } else {
      var front := b[..|b| - 1];
      assert (a + b)[..|a + b| - 1] == a + front;
      RelatedIdsAppend(a, front, t);
    }
  }

  /** One more relationship adds its ids when it has type `t`. */
  lemma RelatedIdsStep(rels: seq<Relationship>, t: RelationshipType, i: nat)
    requires i < |rels|
    ensures RelatedIds(rels[..i + 1], t) == RelatedIds(rels[..i], t) + (if rels[i].relType == t then rels[i].ids else [])
  {
    assert rels[..i + 1][..i] == rels[..i];
  }

  /** The ids visited up to and including id `j` of relationship `i`, then the rest. */
  lemma RelatedIdsAround(rels: seq<Relationship>, t: RelationshipType, i: nat, j: nat)
    requires i < |rels| && rels[i].relType == t && j < |rels[i].ids|
    ensures RelatedIds(rels, t) ==
      (RelatedIds(rels[..i], t) + rels[i].ids[..j + 1]) + (rels[i].ids[j + 1..] + RelatedIds(rels[i + 1..], t))
  {
    assert rels == rels[..i + 1] + rels[i + 1..];
    RelatedIdsAppend(rels[..i + 1], rels[i + 1..], t);
    RelatedIdsStep(rels, t, i);
    var ids := rels[i].ids;
    assert ids == ids[..j + 1] + ids[j + 1..];
  }

  /** The elements of `s` satisfying `p`, in order. */
  function Filter<T(==, !new)>(s: seq<T>, p: T -> bool): (r: seq<T>)
    ensures |r| <= |s|
    ensures forall x :: x in r <==> x in s && p(x)
  {
    if s == [] then []
    else
      assert s == s[..|s| - 1] + [s[|s| - 1]];
      Filter(s[..|s| - 1], p) + (if p(s[|s| - 1]) then [s[|s| - 1]] else [])
  }

  lemma FilterSnoc<T(!new)>(s: seq<T>, x: T, p: T -> bool)
    ensures Filter(s + [x], p) == Filter(s, p) + (if p(x) then [x] else [])
  {
    assert (s + [x])[..|s|] == s;
  }

  lemma {:induction false} FilterAppend<T(!new)>(a: seq<T>, b: seq<T>, p: T -> bool)
    ensures Filter(a + b, p) == Filter(a, p) + Filter(b, p)
  {
    if b == [] {
      assert a + b == a;
    } else {
      var front := b[..|b| - 1];
      assert (a + b)[..|a + b| - 1] == a + front;
      FilterAppend(a, front, p);
    }
  }

  /** The number of elements of `s` satisfying `p`. */
  function Count<T>(s: seq<T>, p: T -> bool): nat {
    if s == [] then 0 else Count(s[..|s| - 1], p) + (if p(s[|s| - 1]) then 1 else 0)
  }

  lemma {:induction false} FilterLength<T(!new)>(s: seq<T>, p: T -> bool)
    ensures |Filter(s, p)| == Count(s, p)
  {
    if s != [] {
      FilterLength(s[..|s| - 1], p);
    }
  }

  /** No two blocks share an Id (Textract's contract; the formatter does not check it). */
  ghost predicate UniqueIds(bs: seq<Block>) {
    forall i, j :: 0 <= i < j < |bs| ==> bs[i].id != bs[j].id
  }
}
