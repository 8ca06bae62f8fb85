/**
 * What a `ResponseFormatter` holds once its constructor has run, as a
 * function of the AWS OCR object it was given: response selection, the
 * "Blocks" check, the three block maps, the per-page split, the page
 * count, and for analysis responses the tables, their grouping by page and
 * (in the `WithForms` copy) the forms.
 */
module Formatting {
  import opened Wrappers
  import opened Blocks
  import opened Dicts
  import opened BlockIndex
  import opened PageSegmenter
  import opened Tables
  import opened Forms

  /** `response_type`: "analysis" or "text". */
  datatype ResponseType = Analysis | Text

  /** The formatter's attributes after construction (`Aws_ocr` and `response` aside). */
  datatype DocumentModel = DocumentModel(
    responseType: ResponseType,
    blocks: seq<Block>,
    blocksMap: Dict<string, Block>,
    keyMap: Option<Dict<string, Block>>,
    valueMap: Option<Dict<string, Block>>,
    pagesText: seq<string>,
    pagesResponse: seq<seq<Block>>,
    numPages: int,
    tables: Option<seq<TableResult>>,
    pagesTables: seq<seq<Table>>,
    numTables: Option<int>,
    forms: Option<map<string, string>>)

  /** The analysis response when present, else the text response, else the "execute first" exception. */
  function SelectResponse(ocr: AwsOcr): (r: Result<(Response, ResponseType), Error>)
    ensures r.Failure? <==> ocr.analysisResponse.None? && ocr.textResponse.None?
    ensures r.Failure? ==> r.error == NotExecuted
    ensures ocr.analysisResponse.Some? ==> r == Success((ocr.analysisResponse.value, Analysis))
    ensures ocr.analysisResponse.None? && ocr.textResponse.Some? ==> r == Success((ocr.textResponse.value, Text))
  {
    if ocr.analysisResponse.Some? then Success((ocr.analysisResponse.value, Analysis))
    else if ocr.textResponse.Some? then Success((ocr.textResponse.value, Text))
    else Failure(NotExecuted)
  }

  /**
   * `self.response["Blocks"]`: the `WithForms` copy tests for the key first
   * and re-raises (no active exception); the `WordsOnly` copy indexes directly.
   */
  function ResponseBlocks(variant: Variant, response: Response): (r: Result<seq<Block>, Error>)
    ensures r.Success? <==> response.blocks.Some?
    ensures r.Success? ==> r.value == response.blocks.value
    ensures r.Failure? ==> r.error == (if variant == WithForms then MissingBlocks else KeyError("Blocks"))
  {
    if response.blocks.Some? then Success(response.blocks.value)
    else if variant == WithForms then Failure(MissingBlocks)
    else Failure(KeyError("Blocks"))
  }

  /** `self.response["DocumentMetadata"]["Pages"]`, taken as is. */
  function NumPages(response: Response): (r: Result<int, Error>)
    ensures r.Success? <==> response.documentMetadata.Some? && response.documentMetadata.value.pages.Some?
    ensures r.Success? ==> r.value == response.documentMetadata.value.pages.value
    ensures response.documentMetadata.None? ==> r == Failure(KeyError("DocumentMetadata"))
    ensures response.documentMetadata.Some? && response.documentMetadata.value.pages.None? ==> r == Failure(KeyError("Pages"))
  {
    if response.documentMetadata.None? then Failure(KeyError("DocumentMetadata"))
    else if response.documentMetadata.value.pages.None? then Failure(KeyError("Pages"))
    else Success(response.documentMetadata.value.pages.value)
  }

  /** `key_map` and `value_map`: built only by the `WithForms` copy. */
  function KeyValueMaps(variant: Variant, blocks: seq<Block>): (r: Result<(Option<Dict<string, Block>>, Option<Dict<string, Block>>), Error>)
    ensures r.Success? <==> variant == WordsOnly || EntityTypesPresent(blocks)
    ensures r.Success? && variant == WordsOnly ==> r.value == (None, None)
    ensures r.Success? && variant == WithForms ==>
      r.value == (Some(KeyMap(blocks).value), Some(ValueMap(blocks).value))
  {
    if variant == WordsOnly then Success((None, None))
    else if !EntityTypesPresent(blocks) then Failure(KeyError("EntityTypes"))
    else Success((Some(KeyMap(blocks).value), Some(ValueMap(blocks).value)))
  }

  /** `forms`: built by the `WithForms` copy from the key blocks in `key_map` order. */
  function FormsIfAny(variant: Variant, blocksMap: Dict<string, Block>, keyMap: Option<Dict<string, Block>>,
                      valueMap: Option<Dict<string, Block>>): Result<Option<map<string, string>>, Error>
    requires keyMap.Some? ==> Valid(keyMap.value)
  {
    if variant == WordsOnly || keyMap.None? || valueMap.None? then Success(None)
    else
      var forms :- FormsOf(blocksMap.items, valueMap.value.items, Values(keyMap.value));
      Success(Some(forms))
  }

  /**
   * The attributes every build sets: the block maps, the page split and the
   * page count; a text response stops here.
   */
  function Base(variant: Variant, response: Response, responseType: ResponseType, blocks: seq<Block>): (r: Result<DocumentModel, Error>)
    ensures r.Success? ==> r.value.responseType == responseType && r.value.blocks == blocks
  {
    var maps :- KeyValueMaps(variant, blocks);
    var numPages :- NumPages(response);
    var pages := Segment(blocks);
    Success(DocumentModel(responseType, blocks, Index(blocks), maps.0, maps.1, pages.texts, pages.blocks, numPages,
                          None, [], None, None))
  }

  /** `tables`, `pages_tables` and `num_tables`: the TABLE blocks' tables, filed by page. */
  function TablesStage(variant: Variant, m: DocumentModel): (r: Result<DocumentModel, Error>)
    ensures r.Success? ==> r.value.responseType == m.responseType && r.value.blocks == m.blocks
  {
    var tables :- TablesOf(variant, m.blocksMap.items, Filter(m.blocks, IsTable));
    var pagesTables :- GroupByPage(m.numPages, tables);
    Success(m.(tables := Some(tables), pagesTables := pagesTables, numTables := Some(|tables|)))
  }

  /** `forms`, set by the `WithForms` copy only. */
  function FormsStage(variant: Variant, m: DocumentModel): (r: Result<DocumentModel, Error>)
    requires m.keyMap.Some? ==> Valid(m.keyMap.value)
    ensures r.Success? ==> r.value.responseType == m.responseType && r.value.blocks == m.blocks
  {
    var forms :- FormsIfAny(variant, m.blocksMap, m.keyMap, m.valueMap);
    Success(m.(forms := forms))
  }

  /** The analysis-only attributes: tables, their grouping by page, and forms. */
  function Analyse(variant: Variant, m: DocumentModel): (r: Result<DocumentModel, Error>)
    requires m.keyMap.Some? ==> Valid(m.keyMap.value)
    ensures r.Success? ==> r.value.responseType == m.responseType && r.value.blocks == m.blocks
  {
    var t :- TablesStage(variant, m);
    FormsStage(variant, t)
  }

  /** The constructor from the point where `self.blocks` is set. */
  function FormatBlocks(variant: Variant, response: Response, responseType: ResponseType, blocks: seq<Block>): (r: Result<DocumentModel, Error>)
    ensures r.Success? ==> r.value.responseType == responseType && r.value.blocks == blocks
  {
    var m :- Base(variant, response, responseType, blocks);
    if responseType == Text then Success(m) else Analyse(variant, m)
  }

  /** `ResponseFormatter(Aws_ocr)`: the attributes it ends with, or the exception it raises. */
  function Format(variant: Variant, ocr: AwsOcr): Result<DocumentModel, Error> {
    var selected :- SelectResponse(ocr);
    var blocks :- ResponseBlocks(variant, selected.0);
    FormatBlocks(variant, selected.0, selected.1, blocks)
  }

  /**
   * The analysis response wins over the text response; with neither the
   * formatter refuses to build, and a selected response without "Blocks"
   * fails in both copies.
   */
  lemma ResponseSelection(variant: Variant, ocr: AwsOcr)
    ensures ocr.analysisResponse.None? && ocr.textResponse.None? ==> Format(variant, ocr) == Failure(NotExecuted)
    ensures Format(variant, ocr).Success? ==>
      && Format(variant, ocr).value.responseType == (if ocr.analysisResponse.Some? then Analysis else Text)
      && var response := if ocr.analysisResponse.Some? then ocr.analysisResponse.value else ocr.textResponse.value;
         response.blocks == Some(Format(variant, ocr).value.blocks)
    ensures ocr.analysisResponse.Some? && ocr.analysisResponse.value.blocks.None? ==>
      Format(variant, ocr) == Failure(if variant == WithForms then MissingBlocks else KeyError("Blocks"))
  {
    if ocr.analysisResponse.Some? || ocr.textResponse.Some? {
      var response := if ocr.analysisResponse.Some? then ocr.analysisResponse.value else ocr.textResponse.value;
      var responseType := if ocr.analysisResponse.Some? then Analysis else Text;
      assert SelectResponse(ocr) == Success((response, responseType));
      if response.blocks.Some? {
        assert Format(variant, ocr) == FormatBlocks(variant, response, responseType, response.blocks.value);
      }
    }
  }

  /** The analysis step keeps every attribute the base build set. */
  lemma AnalyseKeeps(variant: Variant, m: DocumentModel)
    requires m.keyMap.Some? ==> Valid(m.keyMap.value)
    requires Analyse(variant, m).Success?
    ensures var a := Analyse(variant, m).value;
      a.blocks == m.blocks && a.blocksMap == m.blocksMap && a.keyMap == m.keyMap && a.valueMap == m.valueMap
      && a.pagesText == m.pagesText && a.pagesResponse == m.pagesResponse && a.numPages == m.numPages
      && (a.forms.Some? <==> variant == WithForms && m.keyMap.Some? && m.valueMap.Some?)
  {
  }

  /**
   * `pages_tables` files `tables` by page: one list per page (none for a
   * negative count), the lists together holding each table once, every
   * page one Python's indexing accepts, and, when every page is in
   * 1..num_pages, list p-1 holding the tables of page p in order.
   */
  predicate TablesFiled(tables: seq<TableResult>, pagesTables: seq<seq<Table>>, numPages: int) {
    && |pagesTables| == ListCount(numPages)
    && TotalLength(pagesTables) == |tables|
    && multiset(FlattenLists(pagesTables)) == multiset(TablesIn(tables))
    && (forall k :: 0 <= k < |tables| ==> Indexable(tables[k].page, numPages))
    && ((forall k :: 0 <= k < |tables| ==> 1 <= tables[k].page <= numPages) ==>
          forall p :: 1 <= p <= numPages ==> pagesTables[p - 1] == OnPage(tables, p))
  }

  /** The tables of an analysis: one per TABLE block, all filed under a page list. */
  lemma AnalyseTables(variant: Variant, m: DocumentModel)
    requires m.keyMap.Some? ==> Valid(m.keyMap.value)
    requires Analyse(variant, m).Success?
    ensures var a := Analyse(variant, m).value;
      && a.tables.Some? && a.numTables == Some(|a.tables.value|)
      && |a.tables.value| == Count(m.blocks, IsTable)
      && TablesFiled(a.tables.value, a.pagesTables, m.numPages)
  {
    var tables := TablesOf(variant, m.blocksMap.items, Filter(m.blocks, IsTable)).value;
    FilterLength(m.blocks, IsTable);
    var lists := GroupByPage(m.numPages, tables).value;
    var a := Analyse(variant, m).value;
    assert a.tables == Some(tables) && a.pagesTables == lists && a.numTables == Some(|tables|);
    GroupKeepsAll(m.numPages, tables);
    GroupSucceeds(m.numPages, tables);
    if forall k :: 0 <= k < |tables| ==> 1 <= tables[k].page <= m.numPages {
      GroupByPageContents(m.numPages, tables);
    }
    assert TablesFiled(tables, lists, m.numPages);
  }

  /** A successful build's maps and pages are those of its own blocks. */
  lemma FormatKeeps(variant: Variant, ocr: AwsOcr)
    requires Format(variant, ocr).Success?
    ensures var m := Format(variant, ocr).value;
      && m.blocksMap == Index(m.blocks)
      && (m.forms.Some? <==> variant == WithForms && m.responseType == Analysis)
      && m.pagesText == Segment(m.blocks).texts && m.pagesResponse == Segment(m.blocks).blocks
      && KeyValueMaps(variant, m.blocks) == Success((m.keyMap, m.valueMap))
  {
    var sel := SelectResponse(ocr).value;
    var blocks := ResponseBlocks(variant, sel.0).value;
    var base := Base(variant, sel.0, sel.1, blocks).value;
    if sel.1 == Analysis {
      AnalyseKeeps(variant, base);
    }
  }

  /**
   * The blocks map indexes every block by Id, and the page split has one
   * entry per page: one more than the PAGE blocks after the first position,
   * each page's text being that of its blocks.
   */
  lemma FormatPages(variant: Variant, ocr: AwsOcr)
    requires Format(variant, ocr).Success?
    ensures var m := Format(variant, ocr).value;
      && (forall id :: id in m.blocksMap.items <==> exists i :: 0 <= i < |m.blocks| && m.blocks[i].id == id)
      && |m.pagesText| == |m.pagesResponse| == PageBreaks(m.blocks) + 1
      && (forall i :: 0 <= i < |m.pagesResponse| ==>
            AllText(m.pagesResponse[i]) && m.pagesText[i] == PageText(m.pagesResponse[i]))
      && Flatten(m.pagesResponse) == Filter(m.blocks, IsTextBlock)
  {
    var m := Format(variant, ocr).value;
    FormatKeeps(variant, ocr);
    SegmentLength(m.blocks);
    SegmentContents(m.blocks);
  }

  /**
   * An analysis response yields one list per page (none for a negative
   * count), holding every table once: `num_tables` tables in all, each on
   * a page Python's indexing accepts; when every page is in 1..num_pages,
   * list p-1 holds the tables of page p in block order. A text response has no tables, no
   * forms and an empty `pages_tables`.
   */
  lemma FormatTables(variant: Variant, ocr: AwsOcr)
    requires Format(variant, ocr).Success?
    ensures var m := Format(variant, ocr).value;
      && (m.responseType == Text ==> m.tables.None? && m.pagesTables == [] && m.numTables.None? && m.forms.None?)
      && (m.responseType == Analysis ==>
            && m.tables.Some? && m.numTables == Some(|m.tables.value|)
            && |m.tables.value| == Count(m.blocks, IsTable)
            && TablesFiled(m.tables.value, m.pagesTables, m.numPages))
  {
    var sel := SelectResponse(ocr).value;
    var blocks := ResponseBlocks(variant, sel.0).value;
    var base := Base(variant, sel.0, sel.1, blocks).value;
    if sel.1 == Analysis {
      assert Format(variant, ocr) == Analyse(variant, base);
      AnalyseTables(variant, base);
    }
  }

  /**
   * Key and value maps and forms exist only in the `WithForms` copy, forms
   * only for analysis responses; the key and value maps hold the
   * KEY_VALUE_SET blocks and nothing else.
   */
  lemma FormatForms(variant: Variant, ocr: AwsOcr)
    requires Format(variant, ocr).Success?
    ensures var m := Format(variant, ocr).value;
      && (m.keyMap.Some? <==> variant == WithForms)
      && (m.valueMap.Some? <==> variant == WithForms)
      && (m.forms.Some? <==> variant == WithForms && m.responseType == Analysis)
      && (variant == WithForms ==>
            m.keyMap.value.items.Keys + m.valueMap.value.items.Keys
              == set i | 0 <= i < |m.blocks| && m.blocks[i].blockType == KeyValueSet :: m.blocks[i].id)
  {
    var m := Format(variant, ocr).value;
    FormatKeeps(variant, ocr);
    if variant == WithForms {
      KeyValueCover(m.blocks);
    }
  }
}
