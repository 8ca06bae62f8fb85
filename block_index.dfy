/**
 * The Block Index: `blocks_map`, `key_map` and `value_map`, the three
 * dictionary comprehensions the formatter builds over the response's blocks.
 */
module BlockIndex {
  import opened Wrappers
  import opened Blocks
  import opened Dicts

  /**
   * `{block["Id"]: block for block in bs}`. A later block with an Id already
   * present replaces the earlier one and keeps its position; duplicates are
   * not detected.
   */
  function Index(bs: seq<Block>): (d: Dict<string, Block>)
    ensures Valid(d)
    ensures forall id :: id in d.items <==> exists i :: 0 <= i < |bs| && bs[i].id == id
  {
    if bs == [] then Empty()
    else
      var d := Store(Index(bs[..|bs| - 1]), bs[|bs| - 1].id, bs[|bs| - 1]);
      assert forall i :: 0 <= i < |bs| - 1 ==> bs[..|bs| - 1][i] == bs[i];
      d
  }

  /** Each Id maps to the LAST block carrying it. */
  lemma {:induction false} IndexLastWins(bs: seq<Block>, i: nat)
    requires i < |bs|
    requires forall j :: i < j < |bs| ==> bs[j].id != bs[i].id
    ensures bs[i].id in Index(bs).items && Index(bs).items[bs[i].id] == bs[i]
  {
    if i < |bs| - 1 {
      var prefix := bs[..|bs| - 1];
      assert forall j :: i < j < |prefix| ==> prefix[j] == bs[j];
      IndexLastWins(prefix, i);
    }
  }

  /** With unique Ids, iteration visits the blocks themselves, in block order. */
  lemma {:induction false} IndexValuesUnique(bs: seq<Block>)
    requires UniqueIds(bs)
    ensures Values(Index(bs)) == bs
  {
    if bs != [] {
      var prefix := bs[..|bs| - 1];
      var last := bs[|bs| - 1];
      assert UniqueIds(prefix);
      IndexValuesUnique(prefix);
      assert last.id !in Index(prefix).items;
      var d := Index(bs);
      assert d.keys == Index(prefix).keys + [last.id];
      forall k | 0 <= k < |bs|
        ensures Values(d)[k] == bs[k]
      {
        if k < |bs| - 1 {
          assert Values(Index(prefix))[k] == prefix[k];
        }
      }
    }
  }

  /** A KEY_VALUE_SET block whose "EntityTypes" contain "KEY". */
  predicate IsKeyBlock(b: Block) {
    b.blockType == KeyValueSet && b.entityTypes.Some? && "KEY" in b.entityTypes.value
  }

  /** A KEY_VALUE_SET block whose "EntityTypes" do not contain "KEY". */
  predicate IsValueBlock(b: Block) {
    b.blockType == KeyValueSet && b.entityTypes.Some? && "KEY" !in b.entityTypes.value
  }

  /** Every KEY_VALUE_SET block has "EntityTypes": otherwise the comprehension raises KeyError. */
  predicate EntityTypesPresent(bs: seq<Block>) {
    forall i :: 0 <= i < |bs| && bs[i].blockType == KeyValueSet ==> bs[i].entityTypes.Some?
  }

  /** `key_map`: only KEY_VALUE_SET blocks have their "EntityTypes" read. */
  function KeyMap(bs: seq<Block>): (r: Result<Dict<string, Block>, Error>)
    ensures r.Success? <==> EntityTypesPresent(bs)
    ensures r.Failure? ==> r.error == KeyError("EntityTypes")
  {
    if EntityTypesPresent(bs) then Success(Index(Filter(bs, IsKeyBlock)))
    else Failure(KeyError("EntityTypes"))
  }

  /** `value_map` */
  function ValueMap(bs: seq<Block>): (r: Result<Dict<string, Block>, Error>)
    ensures r.Success? <==> EntityTypesPresent(bs)
    ensures r.Failure? ==> r.error == KeyError("EntityTypes")
  {
    if EntityTypesPresent(bs) then Success(Index(Filter(bs, IsValueBlock)))
    else Failure(KeyError("EntityTypes"))
  }

  lemma {:induction false} FilterUnique(bs: seq<Block>, p: Block -> bool)
    requires UniqueIds(bs)
    ensures UniqueIds(Filter(bs, p))
  {
    if bs != [] {
      var prefix := bs[..|bs| - 1];
      assert UniqueIds(prefix);
      FilterUnique(prefix, p);
      var fp := Filter(prefix, p);
      forall x | x in fp
        ensures x.id != bs[|bs| - 1].id
      {
        var k :| 0 <= k < |prefix| && prefix[k] == x;
        assert bs[k] == x;
      }
    }
  }

  /** A block of `bs` that `p` selects has its Id in the index of the selection. */
  lemma SelectedIndexed(bs: seq<Block>, p: Block -> bool, i: nat)
    requires i < |bs| && p(bs[i])
    ensures bs[i].id in Index(Filter(bs, p)).items
  {
    assert bs[i] in Filter(bs, p);
    var k :| 0 <= k < |Filter(bs, p)| && Filter(bs, p)[k] == bs[i];
  }

  /** Every Id in the index of a selection is the Id of a selected block of `bs`. */
  lemma IndexedSelected(bs: seq<Block>, p: Block -> bool, id: string)
    requires id in Index(Filter(bs, p)).items
    ensures exists i :: 0 <= i < |bs| && p(bs[i]) && bs[i].id == id
  {
    var b := IndexedBlock(Filter(bs, p), id);
    assert b in bs && p(b);
  }

  /** A block of `bs` carrying an Id that the index of `bs` holds. */
  lemma IndexedBlock(bs: seq<Block>, id: string) returns (b: Block)
    requires id in Index(bs).items
    ensures b in bs && b.id == id
  {
    var k :| 0 <= k < |bs| && bs[k].id == id;
    b := bs[k];
  }

  /**
   * key_map and value_map split the KEY_VALUE_SET blocks: together they hold
   * the Id of every KEY_VALUE_SET block and nothing else.
   */
  lemma KeyValueCover(bs: seq<Block>)
    requires EntityTypesPresent(bs)
    ensures KeyMap(bs).value.items.Keys + ValueMap(bs).value.items.Keys
         == set i | 0 <= i < |bs| && bs[i].blockType == KeyValueSet :: bs[i].id
  {
    var kvs := set i | 0 <= i < |bs| && bs[i].blockType == KeyValueSet :: bs[i].id;
    forall id | id in kvs
      ensures id in KeyMap(bs).value.items || id in ValueMap(bs).value.items
    {
      var i :| 0 <= i < |bs| && bs[i].blockType == KeyValueSet && bs[i].id == id;
      assert bs[i].entityTypes.Some?;
      if IsKeyBlock(bs[i]) {
        SelectedIndexed(bs, IsKeyBlock, i);
      } else {
        SelectedIndexed(bs, IsValueBlock, i);
      }
    }
    forall id | id in KeyMap(bs).value.items || id in ValueMap(bs).value.items
      ensures id in kvs
    {
      if id in KeyMap(bs).value.items {
        IndexedSelected(bs, IsKeyBlock, id);
      } else {
        IndexedSelected(bs, IsValueBlock, id);
      }
    }
  }

  /**
   * With unique Ids a KEY_VALUE_SET block is in key_map exactly when "KEY"
   * is among its entity types, and in value_map exactly when it is not; so
   * the two maps are disjoint.
   */
  lemma KeyValuePartition(bs: seq<Block>)
    requires EntityTypesPresent(bs) && UniqueIds(bs)
    ensures forall i :: 0 <= i < |bs| && bs[i].blockType == KeyValueSet ==>
      && (bs[i].id in KeyMap(bs).value.items <==> "KEY" in bs[i].entityTypes.value)
      && (bs[i].id in ValueMap(bs).value.items <==> "KEY" !in bs[i].entityTypes.value)
    ensures KeyMap(bs).value.items.Keys !! ValueMap(bs).value.items.Keys
  {
    forall i | 0 <= i < |bs| && bs[i].blockType == KeyValueSet
      ensures bs[i].id in KeyMap(bs).value.items <==> "KEY" in bs[i].entityTypes.value
      ensures bs[i].id in ValueMap(bs).value.items <==> "KEY" !in bs[i].entityTypes.value
    {
      assert bs[i].entityTypes.Some?;
      if bs[i].id in KeyMap(bs).value.items {
        IndexedSelected(bs, IsKeyBlock, bs[i].id);
      }
      if bs[i].id in ValueMap(bs).value.items {
        IndexedSelected(bs, IsValueBlock, bs[i].id);
      }
      if IsKeyBlock(bs[i]) {
        SelectedIndexed(bs, IsKeyBlock, i);
      } else {
        SelectedIndexed(bs, IsValueBlock, i);
      }
    }
    forall id | id in KeyMap(bs).value.items
      ensures id !in ValueMap(bs).value.items
    {
      IndexedSelected(bs, IsKeyBlock, id);
    }
  }

  /** With unique Ids, key_map iterates over the key blocks in block order. */
  lemma KeyMapOrder(bs: seq<Block>)
    requires EntityTypesPresent(bs) && UniqueIds(bs)
    ensures Values(KeyMap(bs).value) == Filter(bs, IsKeyBlock)
  {
    FilterUnique(bs, IsKeyBlock);
    IndexValuesUnique(Filter(bs, IsKeyBlock));
  }

  /**
   * Without unique Ids the maps can overlap: a KEY block and a VALUE block
   * that share an Id land in both.
   */
  lemma OverlapWithDuplicateIds()
    ensures exists bs :: EntityTypesPresent(bs) && !(KeyMap(bs).value.items.Keys !! ValueMap(bs).value.items.Keys)
  {
    var k := Block("1", KeyValueSet, None, None, None, Some(["KEY"]), None, None, None);
    var v := Block("1", KeyValueSet, None, None, None, Some(["VALUE"]), None, None, None);
    var bs := [k, v];
    assert IsKeyBlock(k) && !IsValueBlock(k);
    assert IsValueBlock(v) && !IsKeyBlock(v);
    assert k in Filter(bs, IsKeyBlock);
    assert v in Filter(bs, IsValueBlock);
    assert "1" in KeyMap(bs).value.items && "1" in ValueMap(bs).value.items;
  }
}
