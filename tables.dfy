/**
 * The Table Reconstructor: `_get_table`, the `tables` comprehension over the
 * TABLE blocks, and the loop that files each table under its page.
 */
module Tables {
  import opened Wrappers
  import opened Blocks
  import opened BlockText

  /** `dict_table.setdefault(row, {})[col] = text` */
  function Put(t: Table, row: int, col: int, text: string): (r: Table)
    ensures r.Keys == t.Keys + {row}
    ensures col in r[row] && r[row][col] == text
    ensures forall c :: c in r[row] && c != col ==> row in t && c in t[row] && r[row][c] == t[row][c]
    ensures forall c :: row in t && c in t[row] ==> c in r[row]
    ensures forall k :: k in t && k != row ==> r[k] == t[k]
  {
    t[row := (if row in t then t[row] else map[])[col := text]]
  }

  /** Storing at (r, c) leaves every other (row, col) present exactly when it was. */
  lemma PutElsewhere(t: Table, r: int, c: int, text: string, row: int, col: int)
    requires row != r || col != c
    ensures (row in Put(t, r, c, text) && col in Put(t, r, c, text)[row]) <==> (row in t && col in t[row])
  {
  }

  /**
   * The loop over the table's CHILD ids: each id is looked up, non-CELL
   * blocks are skipped, and each CELL's text is stored at its (RowIndex,
   * ColumnIndex). Python evaluates the assigned text before the target, so a
   * failing cell text is reported before a missing RowIndex or ColumnIndex.
   */
  function FillCells(variant: Variant, blocksMap: map<string, Block>, ids: seq<string>): Result<Table, Error> {
    if ids == [] then Success(map[])
    else
      var t :- FillCells(variant, blocksMap, ids[..|ids| - 1]);
      var id := ids[|ids| - 1];
      if id !in blocksMap then Failure(KeyError(id))
      else if blocksMap[id].blockType != Cell then Success(t)
      else
        var cell := blocksMap[id];
        var text :- TextOf(variant, blocksMap, cell);
        if cell.rowIndex.None? then Failure(KeyError("RowIndex"))
        else if cell.columnIndex.None? then Failure(KeyError("ColumnIndex"))
        else Success(Put(t, cell.rowIndex.value, cell.columnIndex.value, text))
  }

  /** The first child that fails decides the error: later children are never looked at. */
  lemma {:induction false} FillCellsFailureSticks(variant: Variant, blocksMap: map<string, Block>, ids: seq<string>, more: seq<string>)
    requires FillCells(variant, blocksMap, ids).Failure?
    ensures FillCells(variant, blocksMap, ids + more) == FillCells(variant, blocksMap, ids)
  {
    if more == [] {
      assert ids + more == ids;
    } else {
      var front := more[..|more| - 1];
      assert (ids + more)[..|ids + more| - 1] == ids + front;
      FillCellsFailureSticks(variant, blocksMap, ids, front);
    }
  }

  /** One more child id: skipped unless a CELL, whose text is stored at its indices, or the first error. */
  lemma FillCellsSnoc(variant: Variant, blocksMap: map<string, Block>, ids: seq<string>, id: string)
    requires FillCells(variant, blocksMap, ids).Success?
    ensures id !in blocksMap ==> FillCells(variant, blocksMap, ids + [id]) == Failure(KeyError(id))
    ensures id in blocksMap && blocksMap[id].blockType != Cell ==>
      FillCells(variant, blocksMap, ids + [id]) == FillCells(variant, blocksMap, ids)
    ensures id in blocksMap && blocksMap[id].blockType == Cell && TextOf(variant, blocksMap, blocksMap[id]).Failure? ==>
      FillCells(variant, blocksMap, ids + [id]) == Failure(TextOf(variant, blocksMap, blocksMap[id]).error)
    ensures id in blocksMap && blocksMap[id].blockType == Cell && TextOf(variant, blocksMap, blocksMap[id]).Success? ==>
      FillCells(variant, blocksMap, ids + [id]) ==
        if blocksMap[id].rowIndex.None? then Failure(KeyError("RowIndex"))
        else if blocksMap[id].columnIndex.None? then Failure(KeyError("ColumnIndex"))
        else Success(Put(FillCells(variant, blocksMap, ids).value, blocksMap[id].rowIndex.value,
                         blocksMap[id].columnIndex.value, TextOf(variant, blocksMap, blocksMap[id]).value))
  {
    assert (ids + [id])[..|ids|] == ids;
  }

  /** A failure at id `j` of CHILD relationship `i` is the failure of the whole table. */
  lemma FillCellsFailsAt(variant: Variant, blocksMap: map<string, Block>, rels: seq<Relationship>, i: nat, j: nat)
    requires i < |rels| && rels[i].relType == Child && j < |rels[i].ids|
    requires FillCells(variant, blocksMap, RelatedIds(rels[..i], Child) + rels[i].ids[..j + 1]).Failure?
    ensures FillCells(variant, blocksMap, RelatedIds(rels, Child)) ==
      FillCells(variant, blocksMap, RelatedIds(rels[..i], Child) + rels[i].ids[..j + 1])
  {
    RelatedIdsAround(rels, Child, i, j);
    FillCellsFailureSticks(variant, blocksMap, RelatedIds(rels[..i], Child) + rels[i].ids[..j + 1],
                           rels[i].ids[j + 1..] + RelatedIds(rels[i + 1..], Child));
  }

  /**
   * Child `j` of CHILD relationship `i` extends the ids read so far by one;
   * if that fails, the whole table fails the same way.
   */
  lemma FillCellsStep(variant: Variant, blocksMap: map<string, Block>, rels: seq<Relationship>, i: nat, j: nat)
    requires i < |rels| && rels[i].relType == Child && j < |rels[i].ids|
    ensures var next := FillCells(variant, blocksMap, RelatedIds(rels[..i], Child) + rels[i].ids[..j + 1]);
      && next == FillCells(variant, blocksMap, (RelatedIds(rels[..i], Child) + rels[i].ids[..j]) + [rels[i].ids[j]])
      && (next.Failure? ==> FillCells(variant, blocksMap, RelatedIds(rels, Child)) == next)
  {
    var done := RelatedIds(rels[..i], Child);
    assert done + rels[i].ids[..j + 1] == (done + rels[i].ids[..j]) + [rels[i].ids[j]];
    if FillCells(variant, blocksMap, done + rels[i].ids[..j + 1]).Failure? {
      FillCellsFailsAt(variant, blocksMap, rels, i, j);
    }
  }

  /** What one child id does to the table built so far (the body of the loop in `_get_table`). */
  function CellStep(variant: Variant, blocksMap: map<string, Block>, t: Table, id: string): Result<Table, Error> {
    if id !in blocksMap then Failure(KeyError(id))
    else if blocksMap[id].blockType != Cell then Success(t)
    else
      var cell := blocksMap[id];
      var text :- TextOf(variant, blocksMap, cell);
      if cell.rowIndex.None? then Failure(KeyError("RowIndex"))
      else if cell.columnIndex.None? then Failure(KeyError("ColumnIndex"))
      else Success(Put(t, cell.rowIndex.value, cell.columnIndex.value, text))
  }

  /**
   * Child id `j` of CHILD relationship `i` takes the table built so far one
   * step further; a failure there is the failure of the whole table.
   */
  lemma CellStepAt(variant: Variant, blocksMap: map<string, Block>, rels: seq<Relationship>, i: nat, j: nat, t: Table)
    requires i < |rels| && rels[i].relType == Child && j < |rels[i].ids|
    requires FillCells(variant, blocksMap, RelatedIds(rels[..i], Child) + rels[i].ids[..j]) == Success(t)
    ensures var next := FillCells(variant, blocksMap, RelatedIds(rels[..i], Child) + rels[i].ids[..j + 1]);
      && next == CellStep(variant, blocksMap, t, rels[i].ids[j])
      && (next.Failure? ==> FillCells(variant, blocksMap, RelatedIds(rels, Child)) == next)
  {
    FillCellsStep(variant, blocksMap, rels, i, j);
    FillCellsSnoc(variant, blocksMap, RelatedIds(rels[..i], Child) + rels[i].ids[..j], rels[i].ids[j]);
  }

  /** Child `i` is a CELL at (row, col). */
  predicate CellAt(blocksMap: map<string, Block>, ids: seq<string>, i: int, row: int, col: int) {
    && 0 <= i < |ids| && ids[i] in blocksMap
    && blocksMap[ids[i]].blockType == Cell
    && blocksMap[ids[i]].rowIndex == Some(row)
    && blocksMap[ids[i]].columnIndex == Some(col)
  }

  /** A CELL among all but the last child is one among all the children. */
  lemma CellAtExtend(blocksMap: map<string, Block>, ids: seq<string>, i: int, row: int, col: int)
    requires ids != [] && CellAt(blocksMap, ids[..|ids| - 1], i, row, col)
    ensures CellAt(blocksMap, ids, i, row, col)
  {
  }

  /** A CELL among the children, other than the last one, is one among all but the last. */
  lemma CellAtFront(blocksMap: map<string, Block>, ids: seq<string>, i: int, row: int, col: int)
    requires ids != [] && CellAt(blocksMap, ids, i, row, col)
    requires i < |ids| - 1 || !CellAt(blocksMap, ids, |ids| - 1, row, col)
    ensures CellAt(blocksMap, ids[..|ids| - 1], i, row, col)
  {
  }

  /** Child `i` is the last CELL at (row, col). */
  predicate LastCellAt(blocksMap: map<string, Block>, ids: seq<string>, i: int, row: int, col: int) {
    CellAt(blocksMap, ids, i, row, col) &&
    forall j :: i < j < |ids| ==> !CellAt(blocksMap, ids, j, row, col)
  }

  /** A child the loop can process: a known id and, for a CELL, its text and both indices. */
  predicate ChildFits(variant: Variant, blocksMap: map<string, Block>, id: string) {
    id in blocksMap &&
    (blocksMap[id].blockType == Cell ==>
      && TextOf(variant, blocksMap, blocksMap[id]).Success?
      && blocksMap[id].rowIndex.Some?
      && blocksMap[id].columnIndex.Some?)
  }

  /** The loop fails exactly when some child id is unknown or some CELL child is incomplete. */
  lemma {:induction false} FillCellsSucceeds(variant: Variant, blocksMap: map<string, Block>, ids: seq<string>)
    ensures FillCells(variant, blocksMap, ids).Success? <==>
      forall k :: 0 <= k < |ids| ==> ChildFits(variant, blocksMap, ids[k])
  {
    if ids != [] {
      var prefix := ids[..|ids| - 1];
      FillCellsSucceeds(variant, blocksMap, prefix);
      assert forall k :: 0 <= k < |prefix| ==> prefix[k] == ids[k];
    }
  }

  /** The cells of the table are exactly the (RowIndex, ColumnIndex) pairs of the CELL children. */
  lemma {:induction false} FillCellsKeys(variant: Variant, blocksMap: map<string, Block>, ids: seq<string>)
    requires FillCells(variant, blocksMap, ids).Success?
    ensures forall row, col ::
      (row in FillCells(variant, blocksMap, ids).value && col in FillCells(variant, blocksMap, ids).value[row])
      <==> exists i :: CellAt(blocksMap, ids, i, row, col)
    ensures forall row :: (row in FillCells(variant, blocksMap, ids).value
      <==> exists i, col :: CellAt(blocksMap, ids, i, row, col))
  {
    if ids == [] {
      assert FillCells(variant, blocksMap, ids).value == map[];
      assert forall i, row, col :: !CellAt(blocksMap, ids, i, row, col);
    } else {
      var prefix := ids[..|ids| - 1];
      var n := |ids| - 1;
      FillCellsKeys(variant, blocksMap, prefix);
      var t := FillCells(variant, blocksMap, ids).value;
      var t0 := FillCells(variant, blocksMap, prefix).value;
      var last := blocksMap[ids[n]];
      assert last.blockType == Cell ==>
        t == Put(t0, last.rowIndex.value, last.columnIndex.value, TextOf(variant, blocksMap, last).value);
      assert last.blockType != Cell ==> t == t0;
      forall row
        ensures row in t <==> exists i, col :: CellAt(blocksMap, ids, i, row, col)
      {
        if row in t0 {
          var i, col :| CellAt(blocksMap, prefix, i, row, col);
          CellAtExtend(blocksMap, ids, i, row, col);
        }
        if row in t && row !in t0 {
          assert CellAt(blocksMap, ids, n, row, last.columnIndex.value);
        }
        if exists i, col :: CellAt(blocksMap, ids, i, row, col) {
          var i, col :| CellAt(blocksMap, ids, i, row, col);
          if i < n {
            CellAtFront(blocksMap, ids, i, row, col);
          }
        }
      }
      forall row, col
        ensures (row in t && col in t[row]) <==> exists i :: CellAt(blocksMap, ids, i, row, col)
      {
        var here := last.blockType == Cell && last.rowIndex == Some(row) && last.columnIndex == Some(col);
        if here {
          assert CellAt(blocksMap, ids, n, row, col);
        } else {
          if last.blockType == Cell {
            PutElsewhere(t0, last.rowIndex.value, last.columnIndex.value, TextOf(variant, blocksMap, last).value, row, col);
          }
          if row in t0 && col in t0[row] {
            var i :| CellAt(blocksMap, prefix, i, row, col);
            CellAtExtend(blocksMap, ids, i, row, col);
          }
          assert !CellAt(blocksMap, ids, n, row, col);
          if exists i :: CellAt(blocksMap, ids, i, row, col) {
            var i :| CellAt(blocksMap, ids, i, row, col);
            CellAtFront(blocksMap, ids, i, row, col);
          }
        }
      }
    }
  }

  /** Each cell of the table holds the text of the LAST CELL child at its indices. */
  lemma {:induction false} FillCellsValues(variant: Variant, blocksMap: map<string, Block>, ids: seq<string>)
    requires FillCells(variant, blocksMap, ids).Success?
    ensures forall i, row, col :: LastCellAt(blocksMap, ids, i, row, col) ==>
      && TextOf(variant, blocksMap, blocksMap[ids[i]]).Success?
      && row in FillCells(variant, blocksMap, ids).value
      && col in FillCells(variant, blocksMap, ids).value[row]
      && FillCells(variant, blocksMap, ids).value[row][col] == TextOf(variant, blocksMap, blocksMap[ids[i]]).value
  {
    if ids != [] {
      var prefix := ids[..|ids| - 1];
      var n := |ids| - 1;
      FillCellsValues(variant, blocksMap, prefix);
      FillCellsSucceeds(variant, blocksMap, ids);
      assert forall i, row, col :: 0 <= i < n ==>
        (CellAt(blocksMap, prefix, i, row, col) <==> CellAt(blocksMap, ids, i, row, col));
      forall i, row, col | LastCellAt(blocksMap, ids, i, row, col)
        ensures TextOf(variant, blocksMap, blocksMap[ids[i]]).Success?
        ensures row in FillCells(variant, blocksMap, ids).value
        ensures col in FillCells(variant, blocksMap, ids).value[row]
        ensures FillCells(variant, blocksMap, ids).value[row][col] == TextOf(variant, blocksMap, blocksMap[ids[i]]).value
      {
        assert ChildFits(variant, blocksMap, ids[i]);
        if i < n {
          assert LastCellAt(blocksMap, prefix, i, row, col);
          assert !CellAt(blocksMap, ids, n, row, col);
        }
      }
    }
  }

  /** The CHILD ids of a block with "Relationships". */
  function CellIds(table: Block): seq<string>
    requires table.relationships.Some?
  {
    RelatedIds(table.relationships.value, Child)
  }

  /** `_get_table`'s result: the page and the row -> column -> text map. */
  datatype TableResult = TableResult(page: int, table: Table)

  /**
   * `_get_table(table)`: the page comes from "Page", defaulting to 1; a TABLE
   * block without "Relationships" raises KeyError.
   */
  function TableOf(variant: Variant, blocksMap: map<string, Block>, table: Block): Result<TableResult, Error> {
    var page := table.page.GetOr(1);
    if table.relationships.None? then Failure(KeyError("Relationships"))
    else
      var t :- FillCells(variant, blocksMap, RelatedIds(table.relationships.value, Child));
      Success(TableResult(page, t))
  }

  /**
   * A built table sits on the block's "Page" (1 when absent); its rows are
   * exactly the RowIndex values of its CELL children, and each (row, col)
   * holds the text of the last CELL child at those indices.
   */
  lemma GetTableContents(variant: Variant, blocksMap: map<string, Block>, table: Block)
    requires TableOf(variant, blocksMap, table).Success?
    ensures table.relationships.Some?
    ensures TableOf(variant, blocksMap, table).value.page == if table.page.Some? then table.page.value else 1
    ensures forall row :: (row in TableOf(variant, blocksMap, table).value.table
      <==> exists i, col :: CellAt(blocksMap, CellIds(table), i, row, col))
    ensures forall row, col ::
      (row in TableOf(variant, blocksMap, table).value.table && col in TableOf(variant, blocksMap, table).value.table[row])
      <==> exists i :: CellAt(blocksMap, CellIds(table), i, row, col)
    ensures forall i, row, col :: LastCellAt(blocksMap, CellIds(table), i, row, col) ==>
      && TextOf(variant, blocksMap, blocksMap[CellIds(table)[i]]).Success?
      && row in TableOf(variant, blocksMap, table).value.table
      && col in TableOf(variant, blocksMap, table).value.table[row]
      && TableOf(variant, blocksMap, table).value.table[row][col]
         == TextOf(variant, blocksMap, blocksMap[CellIds(table)[i]]).value
  {
    var ids := CellIds(table);
    var filled := FillCells(variant, blocksMap, ids);
    assert filled.Success?;
    assert TableOf(variant, blocksMap, table) == Success(TableResult(table.page.GetOr(1), filled.value));
    FillCellsKeys(variant, blocksMap, ids);
    FillCellsValues(variant, blocksMap, ids);
  }

  predicate IsTable(b: Block) {
    b.blockType == Table
  }

  /** `[self._get_table(block) for block in blocks if block["BlockType"] == "TABLE"]`, given the TABLE blocks. */
  function TablesOf(variant: Variant, blocksMap: map<string, Block>, tableBlocks: seq<Block>): (r: Result<seq<TableResult>, Error>)
    ensures r.Success? <==> forall k :: 0 <= k < |tableBlocks| ==> TableOf(variant, blocksMap, tableBlocks[k]).Success?
    ensures r.Success? ==> |r.value| == |tableBlocks|
    ensures r.Success? ==>
      forall k :: 0 <= k < |tableBlocks| ==> TableOf(variant, blocksMap, tableBlocks[k]) == Success(r.value[k])
  {
    if tableBlocks == [] then Success([])
    else
      var prefix := tableBlocks[..|tableBlocks| - 1];
      assert forall k :: 0 <= k < |prefix| ==> prefix[k] == tableBlocks[k];
      var ts :- TablesOf(variant, blocksMap, prefix);
      var t :- TableOf(variant, blocksMap, tableBlocks[|tableBlocks| - 1]);
      Success(ts + [t])
  }

  /** The first TABLE block that fails decides the error. */
  lemma {:induction false} TablesOfFailureSticks(variant: Variant, blocksMap: map<string, Block>, tableBlocks: seq<Block>, more: seq<Block>)
    requires TablesOf(variant, blocksMap, tableBlocks).Failure?
    ensures TablesOf(variant, blocksMap, tableBlocks + more) == TablesOf(variant, blocksMap, tableBlocks)
  {
    if more == [] {
      assert tableBlocks + more == tableBlocks;
    } else {
      var front := more[..|more| - 1];
      assert (tableBlocks + more)[..|tableBlocks + more| - 1] == tableBlocks + front;
      TablesOfFailureSticks(variant, blocksMap, tableBlocks, front);
    }
  }

  /** One more TABLE block: its table appended, or its error. */
  lemma TablesOfSnoc(variant: Variant, blocksMap: map<string, Block>, tableBlocks: seq<Block>, t: Block)
    requires TablesOf(variant, blocksMap, tableBlocks).Success?
    ensures TablesOf(variant, blocksMap, tableBlocks + [t]) ==
      if TableOf(variant, blocksMap, t).Failure? then Failure(TableOf(variant, blocksMap, t).error)
      else Success(TablesOf(variant, blocksMap, tableBlocks).value + [TableOf(variant, blocksMap, t).value])
  {
    assert (tableBlocks + [t])[..|tableBlocks|] == tableBlocks;
  }

  /**
   * Block `i` of the response, given the tables of the blocks before it:
   * a non-TABLE block is skipped and a TABLE block's table is appended.
   */
  lemma TablesOfStep(variant: Variant, blocksMap: map<string, Block>, blocks: seq<Block>, i: nat)
    requires i < |blocks| && TablesOf(variant, blocksMap, Filter(blocks[..i], IsTable)).Success?
    ensures var before := TablesOf(variant, blocksMap, Filter(blocks[..i], IsTable)).value;
      var t := TableOf(variant, blocksMap, blocks[i]);
      && (!IsTable(blocks[i]) ==> TablesOf(variant, blocksMap, Filter(blocks[..i + 1], IsTable)) == Success(before))
      && (IsTable(blocks[i]) && t.Success? ==>
            TablesOf(variant, blocksMap, Filter(blocks[..i + 1], IsTable)) == Success(before + [t.value]))
  {
    var done := Filter(blocks[..i], IsTable);
    assert blocks[..i + 1] == blocks[..i] + [blocks[i]];
    FilterSnoc(blocks[..i], blocks[i], IsTable);
    assert done + [] == done;
    if IsTable(blocks[i]) {
      TablesOfSnoc(variant, blocksMap, done, blocks[i]);
    }
  }

  /** A TABLE block whose table fails, after tables that succeed, makes the whole list fail the same way. */
  lemma TablesOfFailsAt(variant: Variant, blocksMap: map<string, Block>, blocks: seq<Block>, i: nat)
    requires i < |blocks| && IsTable(blocks[i]) && TablesOf(variant, blocksMap, Filter(blocks[..i], IsTable)).Success?
    requires TableOf(variant, blocksMap, blocks[i]).Failure?
    ensures TablesOf(variant, blocksMap, Filter(blocks, IsTable)) == Failure(TableOf(variant, blocksMap, blocks[i]).error)
  {
    var b := blocks[i];
    var front, rest := blocks[..i], blocks[i + 1..];
    assert front + [b] + rest == blocks;
    FilterSnoc(front, b, IsTable);
    FilterAppend(front + [b], rest, IsTable);
    TablesOfFailsAfter(variant, blocksMap, Filter(front, IsTable), b, Filter(rest, IsTable));
  }

  /** A failing table after tables that succeed fails the list, whatever follows. */
  lemma TablesOfFailsAfter(variant: Variant, blocksMap: map<string, Block>, done: seq<Block>, b: Block, more: seq<Block>)
    requires TablesOf(variant, blocksMap, done).Success? && TableOf(variant, blocksMap, b).Failure?
    ensures TablesOf(variant, blocksMap, done + [b] + more) == Failure(TableOf(variant, blocksMap, b).error)
  {
    TablesOfSnoc(variant, blocksMap, done, b);
    TablesOfFailureSticks(variant, blocksMap, done + [b], more);
  }

  /** Python's `lst[i]` on a list of length n: a negative i counts from the end. */
  function PyIndex(i: int, n: nat): (r: Option<nat>)
    ensures r.Some? <==> -(n as int) <= i < n
    ensures r.Some? ==> r.value < n && (r.value == i || r.value == n + i)
  {
    if 0 <= i < n then Some(i) else if -(n as int) <= i < 0 then Some(n + i) else None
  }

  /** `range(num_pages)` is empty when num_pages is negative. */
  function ListCount(numPages: int): nat {
    if numPages < 0 then 0 else numPages
  }

  /**
   * `pages_tables = [[] for _ in range(num_pages)]` then, for each table,
   * `pages_tables[table["page"] - 1].append(table["table"])`.
   */
  function GroupByPage(numPages: int, tables: seq<TableResult>): (r: Result<seq<seq<Table>>, Error>)
    ensures r.Success? ==> |r.value| == ListCount(numPages)
  {
    if tables == [] then Success(seq(ListCount(numPages), _ => []))
    else
      var lists :- GroupByPage(numPages, tables[..|tables| - 1]);
      var t := tables[|tables| - 1];
      var idx := PyIndex(t.page - 1, |lists|);
      if idx.None? then Failure(IndexError)
      else Success(lists[idx.value := lists[idx.value] + [t.table]])
  }

  /** The first table whose page is out of range decides the error. */
  lemma {:induction false} GroupFailureSticks(numPages: int, tables: seq<TableResult>, more: seq<TableResult>)
    requires GroupByPage(numPages, tables).Failure?
    ensures GroupByPage(numPages, tables + more) == GroupByPage(numPages, tables)
  {
    if more == [] {
      assert tables + more == tables;
    } else {
      var front := more[..|more| - 1];
      assert (tables + more)[..|tables + more| - 1] == tables + front;
      GroupFailureSticks(numPages, tables, front);
    }
  }

  /** The tables on page `p`, in order. */
  function OnPage(tables: seq<TableResult>, p: int): seq<Table> {
    if tables == [] then []
    else
      var t := tables[|tables| - 1];
      OnPage(tables[..|tables| - 1], p) + (if t.page == p then [t.table] else [])
  }

  /** The number of tables across all pages. */
  function TotalLength(lists: seq<seq<Table>>): nat {
    if lists == [] then 0 else TotalLength(lists[..|lists| - 1]) + |lists[|lists| - 1]|
  }

  /** A page Python's indexing accepts: 1..n, or 1-n..0 counted from the end. */
  predicate Indexable(page: int, numPages: int) {
    1 - ListCount(numPages) <= page <= ListCount(numPages)
  }

  /** Grouping fails (IndexError) exactly when some table's page is out of Python's index range. */
  lemma {:induction false} GroupSucceeds(numPages: int, tables: seq<TableResult>)
    ensures GroupByPage(numPages, tables).Success? <==>
      forall k :: 0 <= k < |tables| ==> Indexable(tables[k].page, numPages)
  {
    if tables != [] {
      var prefix := tables[..|tables| - 1];
      GroupSucceeds(numPages, prefix);
      assert forall k :: 0 <= k < |prefix| ==> prefix[k] == tables[k];
    }
  }

  /** With every page in 1..num_pages, list p-1 holds exactly the tables of page p, in order. */
  lemma {:induction false} GroupByPageContents(numPages: int, tables: seq<TableResult>)
    requires forall k :: 0 <= k < |tables| ==> 1 <= tables[k].page <= numPages
    ensures GroupByPage(numPages, tables).Success?
    ensures forall p :: 1 <= p <= numPages ==> GroupByPage(numPages, tables).value[p - 1] == OnPage(tables, p)
  {
    GroupSucceeds(numPages, tables);
    if tables != [] {
      var prefix := tables[..|tables| - 1];
      assert forall k :: 0 <= k < |prefix| ==> prefix[k] == tables[k];
      GroupByPageContents(numPages, prefix);
    }
  }

  lemma {:induction false} TotalLengthAppend(lists: seq<seq<Table>>, i: nat, x: Table)
    requires i < |lists|
    ensures TotalLength(lists[i := lists[i] + [x]]) == TotalLength(lists) + 1
  {
    var n := |lists| - 1;
    var updated := lists[i := lists[i] + [x]];
    if i < n {
      assert updated[..n] == lists[..n][i := lists[i] + [x]];
      TotalLengthAppend(lists[..n], i, x);
    } else {
      assert updated[..n] == lists[..n];
    }
  }

  lemma {:induction false} TotalLengthEmpty(n: nat)
    ensures TotalLength(seq(n, _ => [])) == 0
  {
    if n > 0 {
      var lists: seq<seq<Table>> := seq(n, _ => []);
      assert lists[..n - 1] == seq(n - 1, _ => []);
      TotalLengthEmpty(n - 1);
    }
  }

  /** The tables of a list of results, in order (the `table["table"]` values). */
  function TablesIn(tables: seq<TableResult>): seq<Table> {
    if tables == [] then [] else TablesIn(tables[..|tables| - 1]) + [tables[|tables| - 1].table]
  }

  /** The page lists read one after the other. */
  function FlattenLists(lists: seq<seq<Table>>): seq<Table> {
    if lists == [] then [] else FlattenLists(lists[..|lists| - 1]) + lists[|lists| - 1]
  }

  lemma {:induction false} FlattenListsAppend(lists: seq<seq<Table>>, i: nat, x: Table)
    requires i < |lists|
    ensures multiset(FlattenLists(lists[i := lists[i] + [x]])) == multiset(FlattenLists(lists)) + multiset{x}
  {
    var n := |lists| - 1;
    var updated := lists[i := lists[i] + [x]];
    assert FlattenLists(lists) == FlattenLists(lists[..n]) + lists[n];
    if i < n {
      var front := lists[..n][i := lists[i] + [x]];
      assert updated[..n] == front;
      assert FlattenLists(updated) == FlattenLists(front) + lists[n];
      FlattenListsAppend(lists[..n], i, x);
    } else {
      assert updated[..n] == lists[..n];
      assert FlattenLists(updated) == FlattenLists(lists[..n]) + (lists[n] + [x]);
      assert FlattenLists(updated) == FlattenLists(lists) + [x];
    }
  }

  lemma {:induction false} FlattenListsEmpty(n: nat)
    ensures FlattenLists(seq(n, _ => [])) == []
  {
    if n > 0 {
      var lists: seq<seq<Table>> := seq(n, _ => []);
      assert lists[..n - 1] == seq(n - 1, _ => []);
      FlattenListsEmpty(n - 1);
    }
  }

  /**
   * Every table lands in exactly one list: read one after the other, the
   * lists hold the same tables as `tables`, each as often, `num_tables` in all.
   */
  lemma {:induction false} GroupKeepsAll(numPages: int, tables: seq<TableResult>)
    requires GroupByPage(numPages, tables).Success?
    ensures TotalLength(GroupByPage(numPages, tables).value) == |tables|
    ensures multiset(FlattenLists(GroupByPage(numPages, tables).value)) == multiset(TablesIn(tables))
  {
    if tables == [] {
      TotalLengthEmpty(ListCount(numPages));
      FlattenListsEmpty(ListCount(numPages));
    } else {
      var prefix := tables[..|tables| - 1];
      GroupKeepsAll(numPages, prefix);
      var lists := GroupByPage(numPages, prefix).value;
      var t := tables[|tables| - 1];
      var idx := PyIndex(t.page - 1, |lists|).value;
      assert GroupByPage(numPages, tables).value == lists[idx := lists[idx] + [t.table]];
      assert TablesIn(tables) == TablesIn(prefix) + [t.table];
      TotalLengthAppend(lists, idx, t.table);
      FlattenListsAppend(lists, idx, t.table);
    }
  }

  /** A table on a page beyond num_pages raises IndexError. */
  lemma PageBeyondCountFails(numPages: int, tables: seq<TableResult>, k: nat)
    requires k < |tables| && tables[k].page > numPages
    ensures GroupByPage(numPages, tables) == Failure(IndexError)
  {
    GroupSucceeds(numPages, tables);
    GroupFailsWithIndexError(numPages, tables);
  }

  lemma {:induction false} GroupFailsWithIndexError(numPages: int, tables: seq<TableResult>)
    requires GroupByPage(numPages, tables).Failure?
    ensures GroupByPage(numPages, tables).error == IndexError
  {
    if tables != [] && GroupByPage(numPages, tables[..|tables| - 1]).Failure? {
      GroupFailsWithIndexError(numPages, tables[..|tables| - 1]);
    }
  }

  /** Python's negative indexing: a table on page 0 lands in the LAST page's list. */
  lemma PageZeroLandsLast(numPages: int, t: TableResult)
    requires numPages >= 1 && t.page == 0
    ensures GroupByPage(numPages, [t]).Success?
    ensures GroupByPage(numPages, [t]).value[numPages - 1] == [t.table]
  {
    assert [t][..0] == [];
  }

  /** Block `c` is a CELL at (row, col) whose only CHILD is the word `w` reading `text`. */
  predicate WordCell(blocksMap: map<string, Block>, c: string, w: string, row: int, col: int, text: string) {
    && c in blocksMap && w in blocksMap
    && blocksMap[c] == Block(c, Cell, None, None, Some([Relationship(Child, [w])]), None, Some(row), Some(col), None)
    && blocksMap[w] == Block(w, Word, Some(text), None, None, None, None, None, None)
  }

  /** A one-word cell stores its word and a space at its indices. */
  lemma FillWordCell(variant: Variant, blocksMap: map<string, Block>, ids: seq<string>, k: nat, w: string, row: int, col: int, text: string)
    requires k < |ids| && FillCells(variant, blocksMap, ids[..k]).Success? && WordCell(blocksMap, ids[k], w, row, col, text)
    ensures FillCells(variant, blocksMap, ids[..k + 1]) == Success(Put(FillCells(variant, blocksMap, ids[..k]).value, row, col, text + " "))
  {
    var c := ids[k];
    var rels := [Relationship(Child, [w])];
    assert rels[..0] == [] && RelatedIds(rels, Child) == [w];
    OneWordText(variant, blocksMap, blocksMap[c], w);
    assert ids[..k + 1] == ids[..k] + [c];
    FillCellsSnoc(variant, blocksMap, ids[..k], c);
  }

  /** Storing A, B, C, D at (1,1), (1,2), (2,1), (2,2) builds two rows of two columns. */
  lemma TwoByTwoPuts()
    ensures Put(Put(Put(Put(map[], 1, 1, "A "), 1, 2, "B "), 2, 1, "C "), 2, 2, "D ") ==
      map[1 := map[1 := "A ", 2 := "B "], 2 := map[1 := "C ", 2 := "D "]]
  {
    var t1 := Put(map[], 1, 1, "A ");
    var t2 := Put(t1, 1, 2, "B ");
    var t3 := Put(t2, 2, 1, "C ");
    assert t1 == map[1 := map[1 := "A "]];
    assert t2 == map[1 := map[1 := "A ", 2 := "B "]];
    assert t3 == map[1 := map[1 := "A ", 2 := "B "], 2 := map[1 := "C "]];
  }

  /**
   * A TABLE with cells (1,1) "A", (1,2) "B", (2,1) "C", (2,2) "D" rebuilds as
   * rows 1 and 2 of two columns each, every text with its trailing space.
   */
  lemma TwoByTwoTable(variant: Variant, blocksMap: map<string, Block>, table: Block, cells: seq<string>, words: seq<string>)
    requires |cells| == 4 && |words| == 4
    requires table.relationships == Some([Relationship(Child, cells)]) && table.page == Some(1)
    requires WordCell(blocksMap, cells[0], words[0], 1, 1, "A") && WordCell(blocksMap, cells[1], words[1], 1, 2, "B")
    requires WordCell(blocksMap, cells[2], words[2], 2, 1, "C") && WordCell(blocksMap, cells[3], words[3], 2, 2, "D")
    ensures TableOf(variant, blocksMap, table) ==
      Success(TableResult(1, map[1 := map[1 := "A ", 2 := "B "], 2 := map[1 := "C ", 2 := "D "]]))
  {
    var rels := table.relationships.value;
    assert rels[..0] == [] && RelatedIds(rels, Child) == cells;
    TwoByTwoCells(variant, blocksMap, cells, words);
    TwoByTwoPuts();
  }

  /** The four one-word cells, in order, are stored one after the other. */
  lemma TwoByTwoCells(variant: Variant, blocksMap: map<string, Block>, cells: seq<string>, words: seq<string>)
    requires |cells| == 4 && |words| == 4
    requires WordCell(blocksMap, cells[0], words[0], 1, 1, "A") && WordCell(blocksMap, cells[1], words[1], 1, 2, "B")
    requires WordCell(blocksMap, cells[2], words[2], 2, 1, "C") && WordCell(blocksMap, cells[3], words[3], 2, 2, "D")
    ensures FillCells(variant, blocksMap, cells) ==
      Success(Put(Put(Put(Put(map[], 1, 1, "A "), 1, 2, "B "), 2, 1, "C "), 2, 2, "D "))
  {
    FirstRow(variant, blocksMap, cells, words);
    SecondRow(variant, blocksMap, cells, words, Put(Put(map[], 1, 1, "A "), 1, 2, "B "));
    assert cells[..|cells|] == cells;
  }

  /** The last two cells fill row 2 after whatever the first two stored. */
  lemma SecondRow(variant: Variant, blocksMap: map<string, Block>, cells: seq<string>, words: seq<string>, t: Table)
    requires |cells| == 4 && |words| == 4
    requires WordCell(blocksMap, cells[2], words[2], 2, 1, "C") && WordCell(blocksMap, cells[3], words[3], 2, 2, "D")
    requires FillCells(variant, blocksMap, cells[..2]) == Success(t)
    ensures FillCells(variant, blocksMap, cells[..4]) == Success(Put(Put(t, 2, 1, "C "), 2, 2, "D "))
  {
    SpacedLetters();
    var t3 := Put(t, 2, 1, "C ");
    NextWordCell(variant, blocksMap, cells, 2, words[2], 2, 1, "C", t);
    NextWordCell(variant, blocksMap, cells, 3, words[3], 2, 2, "D", t3);
  }

  /** FillWordCell, for a prefix whose table is already known. */
  lemma NextWordCell(variant: Variant, blocksMap: map<string, Block>, ids: seq<string>, k: nat, w: string,
                     row: int, col: int, text: string, t: Table)
    requires k < |ids| && FillCells(variant, blocksMap, ids[..k]) == Success(t)
    requires WordCell(blocksMap, ids[k], w, row, col, text)
    ensures FillCells(variant, blocksMap, ids[..k + 1]) == Success(Put(t, row, col, text + " "))
  {
    FillWordCell(variant, blocksMap, ids, k, w, row, col, text);
  }

  lemma SpacedLetters()
    ensures "A" + " " == "A " && "B" + " " == "B " && "C" + " " == "C " && "D" + " " == "D "
  {
  }

  /** The first two cells fill row 1. */
  lemma FirstRow(variant: Variant, blocksMap: map<string, Block>, cells: seq<string>, words: seq<string>)
    requires |cells| == 4 && |words| == 4
    requires WordCell(blocksMap, cells[0], words[0], 1, 1, "A") && WordCell(blocksMap, cells[1], words[1], 1, 2, "B")
    ensures FillCells(variant, blocksMap, cells[..2]) == Success(Put(Put(map[], 1, 1, "A "), 1, 2, "B "))
  {
    SpacedLetters();
    assert cells[..0] == [] && FillCells(variant, blocksMap, cells[..0]) == Success(map[]);
    FillWordCell(variant, blocksMap, cells, 0, words[0], 1, 1, "A");
    FillWordCell(variant, blocksMap, cells, 1, words[1], 1, 2, "B");
  }

}
