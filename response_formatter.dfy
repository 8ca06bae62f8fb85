/**
 * The `ResponseFormatter` object: its constructor and the methods that walk
 * the block list and the relationship lists with loops, each proved to
 * compute the corresponding function of the Formatting, BlockText, Tables,
 * Forms and PageSegmenter modules.
 */
module Formatter {
  import opened Wrappers
  import opened Blocks
  import opened Dicts
  import opened BlockIndex
  import opened PageSegmenter
  import opened BlockText
  import opened Tables
  import opened Forms
  import opened Formatting

  class ResponseFormatter {
    /** Which copy of the formatter this is. */
    const variant: Variant
    const response: Response
    const responseType: ResponseType
    const blocks: seq<Block>
    const blocksMap: Dict<string, Block>
    var keyMap: Option<Dict<string, Block>>
    var valueMap: Option<Dict<string, Block>>
    var pagesText: seq<string>
    var pagesResponse: seq<seq<Block>>
    var pagesTables: seq<seq<Table>>
    var numPages: int
    var tables: Option<seq<TableResult>>
    var numTables: Option<int>
    var forms: Option<map<string, string>>

    /** The attributes, as a value. */
    function Model(): DocumentModel
      reads this
    {
      DocumentModel(responseType, blocks, blocksMap, keyMap, valueMap, pagesText, pagesResponse, numPages,
                    tables, pagesTables, numTables, forms)
    }

    /** No attribute past `blocks_map` has been set yet. */
    predicate Unbuilt()
      reads this
    {
      && keyMap.None? && valueMap.None?
      && pagesText == [] && pagesResponse == [] && pagesTables == []
      && tables.None? && numTables.None? && forms.None?
    }

    /** The constructor up to `self.blocks_map`, once the response and its blocks are known. */
    constructor (variant: Variant, response: Response, responseType: ResponseType, blocks: seq<Block>)
      ensures this.variant == variant && this.response == response && this.responseType == responseType
      ensures this.blocks == blocks && blocksMap == Index(blocks)
      ensures Unbuilt()
    {
      this.variant := variant;
      this.response := response;
      this.responseType := responseType;
      this.blocks := blocks;
      blocksMap := Index(blocks);
      keyMap, valueMap := None, None;
      pagesText, pagesResponse, pagesTables := [], [], [];
      numPages := 0;
      tables, numTables, forms := None, None, None;
    }

    /**
     * The rest of the constructor: key and value maps, the page split, the
     * page count and, for an analysis response, tables, their grouping and forms.
     */
    method Build() returns (outcome: Outcome<Error>)
      requires blocksMap == Index(blocks) && Unbuilt()
      modifies this
      ensures var spec := FormatBlocks(variant, response, responseType, blocks);
        && (outcome.Pass? <==> spec.Success?)
        && (outcome.Fail? ==> outcome.error == spec.error)
        && (outcome.Pass? ==> Model() == spec.value)
    {
      outcome := BuildBase();
      if outcome.Pass? && responseType == Analysis {
        outcome := BuildAnalysis();
      }
    }

    /** The attributes every build sets: `key_map`, `value_map`, the pages and `num_pages`. */
    method BuildBase() returns (outcome: Outcome<Error>)
      requires blocksMap == Index(blocks) && Unbuilt()
      modifies this`keyMap, this`valueMap, this`pagesText, this`pagesResponse, this`numPages
      ensures var spec := Base(variant, response, responseType, blocks);
        && (outcome.Pass? <==> spec.Success?)
        && (outcome.Fail? ==> outcome.error == spec.error)
        && (outcome.Pass? ==> Model() == spec.value)
    {
      if variant == WithForms {
        if !EntityTypesPresent(blocks) {
          return Fail(KeyError("EntityTypes"));
        }
        keyMap := Some(KeyMap(blocks).value);
        valueMap := Some(ValueMap(blocks).value);
      }
      assert KeyValueMaps(variant, blocks) == Success((keyMap, valueMap));
      GetPerPage();
      var pages := NumPages(response);
      if pages.Failure? {
        return Fail(pages.error);
      }
      numPages := pages.value;
      return Pass;
    }

    /** The analysis-only attributes: `tables`, `pages_tables`, `num_tables` and `forms`. */
    method BuildAnalysis() returns (outcome: Outcome<Error>)
      requires keyMap.Some? ==> Valid(keyMap.value)
      requires variant == WithForms ==> keyMap.Some? && valueMap.Some?
      requires forms.None?
      modifies this`tables, this`pagesTables, this`numTables, this`forms
      ensures var spec := Analyse(variant, old(Model()));
        && (outcome.Pass? <==> spec.Success?)
        && (outcome.Fail? ==> outcome.error == spec.error)
        && (outcome.Pass? ==> Model() == spec.value)
    {
      outcome := BuildTables();
      if outcome.Pass? && variant == WithForms {
        ghost var t := Model();
        outcome := GetKvRelationship();
        assert outcome.Pass? ==> Model() == t.(forms := forms);
      }
    }

    /** `tables`, `pages_tables` and `num_tables`. */
    method BuildTables() returns (outcome: Outcome<Error>)
      modifies this`tables, this`pagesTables, this`numTables
      ensures var spec := TablesStage(variant, old(Model()));
        && (outcome.Pass? <==> spec.Success?)
        && (outcome.Fail? ==> outcome.error == spec.error)
        && (outcome.Pass? ==> Model() == spec.value)
    {
      ghost var m := Model();
      var ts := CollectTables();
      if ts.Failure? {
        return Fail(ts.error);
      }
      tables := Some(ts.value);
      var grouped := GroupTables(ts.value);
      if grouped.Fail? {
        return grouped;
      }
      numTables := Some(|ts.value|);
      assert Model() == m.(tables := Some(ts.value), pagesTables := pagesTables, numTables := Some(|ts.value|));
      return Pass;
    }

    /** `_get_per_page`: cut the blocks into pages and append each page's text and blocks. */
    method GetPerPage()
      modifies this`pagesText, this`pagesResponse
      ensures pagesText == old(pagesText) + Segment(blocks).texts
      ensures pagesResponse == old(pagesResponse) + Segment(blocks).blocks
    {
      var text, group := "", [];
      var firstIteration := true;
      var i := 0;
      while i < |blocks|
        invariant 0 <= i <= |blocks|
        invariant firstIteration <==> i == 0
        invariant pagesText == old(pagesText) + Run(blocks[..i]).texts
        invariant pagesResponse == old(pagesResponse) + Run(blocks[..i]).groups
        invariant text == Run(blocks[..i]).text && group == Run(blocks[..i]).group
      {
        assert blocks[..i + 1][..i] == blocks[..i];
        var block := blocks[i];
        if block.blockType == Page {
          if !firstIteration {
            pagesText := pagesText + [text];
            pagesResponse := pagesResponse + [group];
            text, group := "", [];
          }
        } else if block.text.Some? {
          text := text + (block.text.value + " ");
          group := group + [block];
        }
        firstIteration := false;
        i := i + 1;
      }
      assert blocks[..i] == blocks;
      pagesText := pagesText + [text];
      pagesResponse := pagesResponse + [group];
    }

    /** `_get_block_text`: the text of the block's CHILD words (and, with forms, selected boxes). */
    method GetBlockText(block: Block) returns (r: Result<string, Error>)
      ensures r == TextOf(variant, blocksMap.items, block)
    {
      if block.relationships.None? {
        return Success("");
      }
      var rels := block.relationships.value;
      var text := "";
      var i := 0;
      while i < |rels|
        invariant 0 <= i <= |rels|
        invariant IdsText(variant, blocksMap.items, RelatedIds(rels[..i], Child)) == Success(text)
      {
        ghost var done := RelatedIds(rels[..i], Child);
        RelatedIdsStep(rels, Child, i);
        assert done + [] == done;
        if rels[i].relType == Child {
          var ids := rels[i].ids;
          assert done + ids[..0] == done;
          var j := 0;
          while j < |ids|
            invariant 0 <= j <= |ids|
            invariant IdsText(variant, blocksMap.items, done + ids[..j]) == Success(text)
          {
            ChildStep(variant, blocksMap.items, rels, i, j);
            var childId := ids[j];
            if childId !in blocksMap.items {
              return Failure(KeyError(childId));
            }
            var word := blocksMap.items[childId];
            var piece := "";
            if word.blockType == Word {
              if word.text.None? {
                assert Contribution(variant, word) == Failure(KeyError("Text"));
                return Failure(KeyError("Text"));
              }
              piece := word.text.value + " ";
            } else if variant == WithForms && word.blockType == SelectionElement {
              if word.selectionStatus.None? {
                assert Contribution(variant, word) == Failure(KeyError("SelectionStatus"));
                return Failure(KeyError("SelectionStatus"));
              }
              if word.selectionStatus.value == Selected {
                piece := "X ";
              }
            }
            assert Contribution(variant, word) == Success(piece);
            text := text + piece;
            j := j + 1;
          }
          assert ids[..j] == ids;
        }
        i := i + 1;
      }
      assert rels[..i] == rels;
      return Success(text);
    }

    /** `_get_table`: the table's page and its cells' texts by row and column. */
    method GetTable(table: Block) returns (r: Result<TableResult, Error>)
      ensures r == TableOf(variant, blocksMap.items, table)
    {
      var dictTable: Table := map[];
      var page := if table.page.Some? then table.page.value else 1;
      if table.relationships.None? {
        return Failure(KeyError("Relationships"));
      }
      var rels := table.relationships.value;
      var i := 0;
      while i < |rels|
        invariant 0 <= i <= |rels|
        invariant FillCells(variant, blocksMap.items, RelatedIds(rels[..i], Child)) == Success(dictTable)
      {
        RelatedIdsStep(rels, Child, i);
        assert RelatedIds(rels[..i], Child) + [] == RelatedIds(rels[..i], Child);
        if rels[i].relType == Child {
          var ids := rels[i].ids;
          assert ids[..0] == [];
          var j := 0;
          while j < |ids|
            invariant 0 <= j <= |ids|
            invariant FillCells(variant, blocksMap.items, RelatedIds(rels[..i], Child) + ids[..j]) == Success(dictTable)
          {
            CellStepAt(variant, blocksMap.items, rels, i, j, dictTable);
            var childId := ids[j];
            if childId !in blocksMap.items {
              return Failure(KeyError(childId));
            }
            var cell := blocksMap.items[childId];
            if cell.blockType == Cell {
              var text := GetBlockText(cell);
              if text.Failure? {
                return Failure(text.error);
              }
              if cell.rowIndex.None? {
                return Failure(KeyError("RowIndex"));
              }
              if cell.columnIndex.None? {
                return Failure(KeyError("ColumnIndex"));
              }
              var row := if cell.rowIndex.value in dictTable then dictTable[cell.rowIndex.value] else map[];
              assert CellStep(variant, blocksMap.items, dictTable, childId) ==
                Success(Put(dictTable, cell.rowIndex.value, cell.columnIndex.value, text.value));
              dictTable := dictTable[cell.rowIndex.value := row[cell.columnIndex.value := text.value]];
            }
            j := j + 1;
          }
          assert ids[..j] == ids;
        }
        i := i + 1;
      }
      assert rels[..i] == rels;
      return Success(TableResult(page, dictTable));
    }

    /** `self.tables`: `_get_table` of every TABLE block, in block order. */
    method CollectTables() returns (r: Result<seq<TableResult>, Error>)
      ensures r == TablesOf(variant, blocksMap.items, Filter(blocks, IsTable))
    {
      var ts := [];
      var i := 0;
      while i < |blocks|
        invariant 0 <= i <= |blocks|
        invariant TablesOf(variant, blocksMap.items, Filter(blocks[..i], IsTable)) == Success(ts)
      {
        TablesOfStep(variant, blocksMap.items, blocks, i);
        if blocks[i].blockType == Table {
          var t := GetTable(blocks[i]);
          if t.Failure? {
            TablesOfFailsAt(variant, blocksMap.items, blocks, i);
            return Failure(t.error);
          }
          ts := ts + [t.value];
        }
        i := i + 1;
      }
      assert blocks[..i] == blocks;
      return Success(ts);
    }

    /** `pages_tables`: one list per page, each table appended to the list of its page. */
    method GroupTables(ts: seq<TableResult>) returns (outcome: Outcome<Error>)
      modifies this`pagesTables
      ensures outcome.Pass? <==> GroupByPage(numPages, ts).Success?
      ensures outcome.Fail? ==> outcome.error == GroupByPage(numPages, ts).error
      ensures outcome.Pass? ==> pagesTables == GroupByPage(numPages, ts).value
    {
      pagesTables := seq(ListCount(numPages), _ => []);
      var k := 0;
      while k < |ts|
        invariant 0 <= k <= |ts|
        invariant GroupByPage(numPages, ts[..k]) == Success(pagesTables)
      {
        assert ts[..k + 1][..k] == ts[..k];
        var index := PyIndex(ts[k].page - 1, |pagesTables|);
        if index.None? {
          assert ts == ts[..k + 1] + ts[k + 1..];
          GroupFailureSticks(numPages, ts[..k + 1], ts[k + 1..]);
          return Fail(IndexError);
        }
        pagesTables := pagesTables[index.value := pagesTables[index.value] + [ts[k].table]];
        k := k + 1;
      }
      assert ts[..k] == ts;
      return Pass;
    }

    /** `_find_value_block`: the block of the last VALUE id of the key block. */
    static method FindValueBlock(keyBlock: Block, valueMap: map<string, Block>) returns (r: Result<Block, Error>)
      ensures r == ValueBlockOf(keyBlock, valueMap)
    {
      if keyBlock.relationships.None? {
        return Failure(KeyError("Relationships"));
      }
      var rels := keyBlock.relationships.value;
      var valueBlock: Option<Block> := None;
      var i := 0;
      while i < |rels|
        invariant 0 <= i <= |rels|
        invariant LastValue(RelatedIds(rels[..i], Value), valueMap) == Success(valueBlock)
      {
        RelatedIdsStep(rels, Value, i);
        assert RelatedIds(rels[..i], Value) + [] == RelatedIds(rels[..i], Value);
        if rels[i].relType == Value {
          var ids := rels[i].ids;
          assert ids[..0] == [];
          var j := 0;
          while j < |ids|
            invariant 0 <= j <= |ids|
            invariant LastValue(RelatedIds(rels[..i], Value) + ids[..j], valueMap) == Success(valueBlock)
          {
            LastValueStep(valueMap, rels, i, j);
            ghost var visited := (RelatedIds(rels[..i], Value) + ids[..j]) + [ids[j]];
            assert visited[..|visited| - 1] == RelatedIds(rels[..i], Value) + ids[..j];
            if ids[j] !in valueMap {
              return Failure(KeyError(ids[j]));
            }
            valueBlock := Some(valueMap[ids[j]]);
            j := j + 1;
          }
          assert ids[..j] == ids;
        }
        i := i + 1;
      }
      assert rels[..i] == rels;
      if valueBlock.None? {
        return Failure(UnboundValueBlock);
      }
      return Success(valueBlock.value);
    }

    /** `_get_kv_relationship`: map each key block's text to its value block's text. */
    method GetKvRelationship() returns (outcome: Outcome<Error>)
      requires variant == WithForms
      requires keyMap.Some? && valueMap.Some? && Valid(keyMap.value)
      modifies this`forms
      ensures var spec := FormsOf(blocksMap.items, valueMap.value.items, Values(keyMap.value));
        && (outcome.Pass? <==> spec.Success?)
        && (outcome.Fail? ==> outcome.error == spec.error)
        && (outcome.Pass? ==> forms == Some(spec.value))
    {
      var keyBlocks := Values(keyMap.value);
      var f: map<string, string> := map[];
      forms := Some(f);
      var i := 0;
      while i < |keyMap.value.keys|
        invariant 0 <= i <= |keyBlocks|
        invariant FormsOf(blocksMap.items, valueMap.value.items, keyBlocks[..i]) == Success(f)
        invariant forms == Some(f)
      {
        assert keyBlocks[..i + 1][..i] == keyBlocks[..i];
        var keyBlock := keyMap.value.items[keyMap.value.keys[i]];
        var valueBlock := FindValueBlock(keyBlock, valueMap.value.items);
        var key, val;
        if valueBlock.Success? {
          key := GetBlockText(keyBlock);
          if key.Success? {
            val := GetBlockText(valueBlock.value);
          }
        }
        if valueBlock.Failure? || key.Failure? || val.Failure? {
          assert keyBlocks == keyBlocks[..i + 1] + keyBlocks[i + 1..];
          FormsFailureSticks(blocksMap.items, valueMap.value.items, keyBlocks[..i + 1], keyBlocks[i + 1..]);
          return Fail(if valueBlock.Failure? then valueBlock.error else if key.Failure? then key.error else val.error);
        }
        f := f[key.value := val.value];
        forms := Some(f);
        i := i + 1;
      }
      assert keyBlocks[..i] == keyBlocks;
      return Pass;
    }
  }

  /** `ResponseFormatter(Aws_ocr)`: select the response, check its blocks, and build. */
  method NewResponseFormatter(variant: Variant, ocr: AwsOcr) returns (r: Result<ResponseFormatter, Error>)
    ensures r.Success? <==> Format(variant, ocr).Success?
    ensures r.Failure? ==> r.error == Format(variant, ocr).error
    ensures r.Success? ==> fresh(r.value) && r.value.Model() == Format(variant, ocr).value
    ensures r.Success? ==> r.value.variant == variant && r.value.response == SelectResponse(ocr).value.0
  {
    var response: Response;
    var responseType: ResponseType;
    if ocr.analysisResponse.Some? {
      response, responseType := ocr.analysisResponse.value, Analysis;
    } else if ocr.textResponse.Some? {
      response, responseType := ocr.textResponse.value, Text;
    } else {
      return Failure(NotExecuted);
    }
    if response.blocks.None? {
      return Failure(if variant == WithForms then MissingBlocks else KeyError("Blocks"));
    }
    var formatter := new ResponseFormatter(variant, response, responseType, response.blocks.value);
    var outcome := formatter.Build();
    if outcome.Fail? {
      return Failure(outcome.error);
    }
    return Success(formatter);
  }
}
