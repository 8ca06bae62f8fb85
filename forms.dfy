/**
 * The Form Reconstructor, `_get_kv_relationship`: pair each key block with
 * its value block and map the key's text to the value's text.
 */
module Forms {
  import opened Wrappers
  import opened Blocks
  import opened BlockText

  /**
   * The loop of `_find_value_block` over the VALUE ids: each id is looked up
   * in `value_map` (KeyError when absent) and the last one found is kept;
   * `None` stands for `value_block` never having been assigned.
   */
  function LastValue(ids: seq<string>, valueMap: map<string, Block>): Result<Option<Block>, Error> {
    if ids == [] then Success(None)
    else
      var _ :- LastValue(ids[..|ids| - 1], valueMap);
      var id := ids[|ids| - 1];
      if id !in valueMap then Failure(KeyError(id)) else Success(Some(valueMap[id]))
  }

  /** The first VALUE id missing from `value_map` decides the error. */
  lemma {:induction false} LastValueFailureSticks(ids: seq<string>, more: seq<string>, valueMap: map<string, Block>)
    requires LastValue(ids, valueMap).Failure?
    ensures LastValue(ids + more, valueMap) == LastValue(ids, valueMap)
  {
    if more == [] {
      assert ids + more == ids;
    } else {
      var front := more[..|more| - 1];
      assert (ids + more)[..|ids + more| - 1] == ids + front;
      LastValueFailureSticks(ids, front, valueMap);
    }
  }

  /** A failure at id `j` of VALUE relationship `i` is the failure of the whole search. */
  lemma LastValueFailsAt(valueMap: map<string, Block>, rels: seq<Relationship>, i: nat, j: nat)
    requires i < |rels| && rels[i].relType == Value && j < |rels[i].ids|
    requires LastValue(RelatedIds(rels[..i], Value) + rels[i].ids[..j + 1], valueMap).Failure?
    ensures LastValue(RelatedIds(rels, Value), valueMap) ==
      LastValue(RelatedIds(rels[..i], Value) + rels[i].ids[..j + 1], valueMap)
  {
    RelatedIdsAround(rels, Value, i, j);
    LastValueFailureSticks(RelatedIds(rels[..i], Value) + rels[i].ids[..j + 1],
                           rels[i].ids[j + 1..] + RelatedIds(rels[i + 1..], Value), valueMap);
  }

  /**
   * VALUE id `j` of relationship `i` extends the ids read so far by one;
   * if that fails, the whole search fails the same way.
   */
  lemma LastValueStep(valueMap: map<string, Block>, rels: seq<Relationship>, i: nat, j: nat)
    requires i < |rels| && rels[i].relType == Value && j < |rels[i].ids|
    ensures var next := LastValue(RelatedIds(rels[..i], Value) + rels[i].ids[..j + 1], valueMap);
      && next == LastValue((RelatedIds(rels[..i], Value) + rels[i].ids[..j]) + [rels[i].ids[j]], valueMap)
      && (next.Failure? ==> LastValue(RelatedIds(rels, Value), valueMap) == next)
  {
    var done := RelatedIds(rels[..i], Value);
    assert done + rels[i].ids[..j + 1] == (done + rels[i].ids[..j]) + [rels[i].ids[j]];
    if LastValue(done + rels[i].ids[..j + 1], valueMap).Failure? {
      LastValueFailsAt(valueMap, rels, i, j);
    }
  }

  /**
   * `_find_value_block(key_block, value_map)`: a key block without
   * "Relationships" raises KeyError, and one whose relationships name no
   * VALUE id leaves `value_block` unbound.
   */
  function ValueBlockOf(keyBlock: Block, valueMap: map<string, Block>): Result<Block, Error> {
    if keyBlock.relationships.None? then Failure(KeyError("Relationships"))
    else
      var found :- LastValue(RelatedIds(keyBlock.relationships.value, Value), valueMap);
      if found.None? then Failure(UnboundValueBlock) else Success(found.value)
  }

  /** The VALUE ids of a block with "Relationships". */
  function ValueIds(keyBlock: Block): seq<string>
    requires keyBlock.relationships.Some?
  {
    RelatedIds(keyBlock.relationships.value, Value)
  }

  lemma {:induction false} LastValueSpec(ids: seq<string>, valueMap: map<string, Block>)
    ensures LastValue(ids, valueMap).Success? <==> forall k :: 0 <= k < |ids| ==> ids[k] in valueMap
    ensures LastValue(ids, valueMap).Success? ==>
      LastValue(ids, valueMap).value == if ids == [] then None else Some(valueMap[ids[|ids| - 1]])
  {
    if ids != [] {
      var prefix := ids[..|ids| - 1];
      LastValueSpec(prefix, valueMap);
      assert forall k :: 0 <= k < |prefix| ==> prefix[k] == ids[k];
    }
  }

  /**
   * The value block is the one named by the last VALUE id; the search
   * succeeds exactly when the key block has relationships, at least one VALUE
   * id, and every VALUE id is in value_map.
   */
  lemma FindValueBlockSpec(keyBlock: Block, valueMap: map<string, Block>)
    ensures ValueBlockOf(keyBlock, valueMap).Success? <==>
      && keyBlock.relationships.Some?
      && |ValueIds(keyBlock)| > 0
      && forall k :: 0 <= k < |ValueIds(keyBlock)| ==> ValueIds(keyBlock)[k] in valueMap
    ensures ValueBlockOf(keyBlock, valueMap).Success? ==>
      ValueBlockOf(keyBlock, valueMap).value == valueMap[ValueIds(keyBlock)[|ValueIds(keyBlock)| - 1]]
  {
    if keyBlock.relationships.Some? {
      LastValueSpec(ValueIds(keyBlock), valueMap);
    }
  }

  /** A key block with relationships but no VALUE id fails: `value_block` is unbound. */
  lemma KeyWithoutValueFails(keyBlock: Block, valueMap: map<string, Block>)
    requires keyBlock.relationships.Some? && ValueIds(keyBlock) == []
    ensures ValueBlockOf(keyBlock, valueMap) == Failure(UnboundValueBlock)
  {
  }

  /**
   * The loop of `_get_kv_relationship` over the key blocks (in key_map's
   * iteration order): find the value block, read both texts, store
   * `forms[key] = val`; a later key with the same text overwrites.
   */
  function FormsOf(blocksMap: map<string, Block>, valueMap: map<string, Block>, keyBlocks: seq<Block>): Result<map<string, string>, Error> {
    if keyBlocks == [] then Success(map[])
    else
      var forms :- FormsOf(blocksMap, valueMap, keyBlocks[..|keyBlocks| - 1]);
      var keyBlock := keyBlocks[|keyBlocks| - 1];
      var valueBlock :- ValueBlockOf(keyBlock, valueMap);
      var key :- TextOf(WithForms, blocksMap, keyBlock);
      var val :- TextOf(WithForms, blocksMap, valueBlock);
      Success(forms[key := val])
  }

  /** The first key block that fails decides the error. */
  lemma {:induction false} FormsFailureSticks(blocksMap: map<string, Block>, valueMap: map<string, Block>, keyBlocks: seq<Block>, more: seq<Block>)
    requires FormsOf(blocksMap, valueMap, keyBlocks).Failure?
    ensures FormsOf(blocksMap, valueMap, keyBlocks + more) == FormsOf(blocksMap, valueMap, keyBlocks)
  {
    if more == [] {
      assert keyBlocks + more == keyBlocks;
    } else {
      var front := more[..|more| - 1];
      assert (keyBlocks + more)[..|keyBlocks + more| - 1] == keyBlocks + front;
      FormsFailureSticks(blocksMap, valueMap, keyBlocks, front);
    }
  }

  /** The key block has a value block and both texts can be read. */
  predicate FormResolves(blocksMap: map<string, Block>, valueMap: map<string, Block>, kb: Block) {
    && ValueBlockOf(kb, valueMap).Success?
    && TextOf(WithForms, blocksMap, kb).Success?
    && TextOf(WithForms, blocksMap, ValueBlockOf(kb, valueMap).value).Success?
  }

  /** Key block `i` reads `key`. */
  predicate KeyTextAt(blocksMap: map<string, Block>, keyBlocks: seq<Block>, i: int, key: string) {
    0 <= i < |keyBlocks| && TextOf(WithForms, blocksMap, keyBlocks[i]) == Success(key)
  }

  /** Key block `i` is the last one reading `key`. */
  predicate LastKeyTextAt(blocksMap: map<string, Block>, keyBlocks: seq<Block>, i: int, key: string) {
    KeyTextAt(blocksMap, keyBlocks, i, key) &&
    forall j :: i < j < |keyBlocks| ==> !KeyTextAt(blocksMap, keyBlocks, j, key)
  }

  /** The value text of a key block that resolves. */
  function ValueText(blocksMap: map<string, Block>, valueMap: map<string, Block>, kb: Block): string
    requires FormResolves(blocksMap, valueMap, kb)
  {
    TextOf(WithForms, blocksMap, ValueBlockOf(kb, valueMap).value).value
  }

  /** Forms are built exactly when every key block resolves. */
  lemma {:induction false} FormsSucceed(blocksMap: map<string, Block>, valueMap: map<string, Block>, keyBlocks: seq<Block>)
    ensures FormsOf(blocksMap, valueMap, keyBlocks).Success? <==>
      forall i :: 0 <= i < |keyBlocks| ==> FormResolves(blocksMap, valueMap, keyBlocks[i])
  {
    if keyBlocks != [] {
      var prefix := keyBlocks[..|keyBlocks| - 1];
      FormsSucceed(blocksMap, valueMap, prefix);
      assert forall i :: 0 <= i < |prefix| ==> prefix[i] == keyBlocks[i];
    }
  }

  /** The last step of the loop: the earlier forms with the last key's entry stored. */
  lemma FormsStep(blocksMap: map<string, Block>, valueMap: map<string, Block>, keyBlocks: seq<Block>)
    requires keyBlocks != [] && FormsOf(blocksMap, valueMap, keyBlocks).Success?
    ensures FormsOf(blocksMap, valueMap, keyBlocks[..|keyBlocks| - 1]).Success?
    ensures FormResolves(blocksMap, valueMap, keyBlocks[|keyBlocks| - 1])
    ensures FormsOf(blocksMap, valueMap, keyBlocks).value ==
      FormsOf(blocksMap, valueMap, keyBlocks[..|keyBlocks| - 1]).value[
        TextOf(WithForms, blocksMap, keyBlocks[|keyBlocks| - 1]).value :=
        ValueText(blocksMap, valueMap, keyBlocks[|keyBlocks| - 1])]
  {
  }

  /** The forms map has one entry per distinct key text. */
  lemma {:induction false} FormsKeys(blocksMap: map<string, Block>, valueMap: map<string, Block>, keyBlocks: seq<Block>)
    requires FormsOf(blocksMap, valueMap, keyBlocks).Success?
    ensures forall key :: (key in FormsOf(blocksMap, valueMap, keyBlocks).value
      <==> exists i :: KeyTextAt(blocksMap, keyBlocks, i, key))
  {
    if keyBlocks == [] {
      assert forall i, key :: !KeyTextAt(blocksMap, keyBlocks, i, key);
    } else {
      var prefix := keyBlocks[..|keyBlocks| - 1];
      var n := |keyBlocks| - 1;
      FormsStep(blocksMap, valueMap, keyBlocks);
      FormsKeys(blocksMap, valueMap, prefix);
      var f, prev := FormsOf(blocksMap, valueMap, keyBlocks).value, FormsOf(blocksMap, valueMap, prefix).value;
      var lastKey := TextOf(WithForms, blocksMap, keyBlocks[n]).value;
      assert f == prev[lastKey := ValueText(blocksMap, valueMap, keyBlocks[n])];
      assert KeyTextAt(blocksMap, keyBlocks, n, lastKey);
      forall key | key in f
        ensures exists i :: KeyTextAt(blocksMap, keyBlocks, i, key)
      {
        if key != lastKey {
          assert key in prev;
          var i :| KeyTextAt(blocksMap, prefix, i, key);
          assert prefix[i] == keyBlocks[i];
          assert KeyTextAt(blocksMap, keyBlocks, i, key);
        }
      }
      forall key | exists i :: KeyTextAt(blocksMap, keyBlocks, i, key)
        ensures key in f
      {
        var i :| KeyTextAt(blocksMap, keyBlocks, i, key);
        if i < n {
          assert prefix[i] == keyBlocks[i];
          assert KeyTextAt(blocksMap, prefix, i, key);
          assert key in prev;
        }
      }
    }
  }

  /**
   * Each key text maps to the value text of the LAST key block reading it:
   * a later key with the same text overwrites an earlier one.
   */
  lemma {:induction false} FormsValues(blocksMap: map<string, Block>, valueMap: map<string, Block>, keyBlocks: seq<Block>)
    requires FormsOf(blocksMap, valueMap, keyBlocks).Success?
    ensures forall i, key :: LastKeyTextAt(blocksMap, keyBlocks, i, key) ==>
      && FormResolves(blocksMap, valueMap, keyBlocks[i])
      && key in FormsOf(blocksMap, valueMap, keyBlocks).value
      && FormsOf(blocksMap, valueMap, keyBlocks).value[key] == ValueText(blocksMap, valueMap, keyBlocks[i])
  {
    if keyBlocks != [] {
      var prefix := keyBlocks[..|keyBlocks| - 1];
      var n := |keyBlocks| - 1;
      FormsStep(blocksMap, valueMap, keyBlocks);
      FormsValues(blocksMap, valueMap, prefix);
      var forms, prev := FormsOf(blocksMap, valueMap, keyBlocks).value, FormsOf(blocksMap, valueMap, prefix).value;
      var lastKey := TextOf(WithForms, blocksMap, keyBlocks[n]).value;
      assert forms == prev[lastKey := ValueText(blocksMap, valueMap, keyBlocks[n])];
      forall i, key | LastKeyTextAt(blocksMap, keyBlocks, i, key)
        ensures FormResolves(blocksMap, valueMap, keyBlocks[i])
        ensures key in forms && forms[key] == ValueText(blocksMap, valueMap, keyBlocks[i])
      {
        if i == n {
          assert key == lastKey;
        } else {
          assert prefix[i] == keyBlocks[i];
          assert !KeyTextAt(blocksMap, keyBlocks, n, key);
          assert key != lastKey;
          forall j | i < j < |prefix|
            ensures !KeyTextAt(blocksMap, prefix, j, key)
          {
            assert prefix[j] == keyBlocks[j];
            assert !KeyTextAt(blocksMap, keyBlocks, j, key);
          }
          assert LastKeyTextAt(blocksMap, prefix, i, key);
          assert forms[key] == prev[key];
        }
      }
    }
  }

  /** The forms of a single key block that resolves: its text mapped to its value's text. */
  lemma SingleForm(blocksMap: map<string, Block>, valueMap: map<string, Block>, keyBlock: Block)
    requires FormResolves(blocksMap, valueMap, keyBlock)
    ensures FormsOf(blocksMap, valueMap, [keyBlock]) ==
      Success(map[TextOf(WithForms, blocksMap, keyBlock).value := ValueText(blocksMap, valueMap, keyBlock)])
  {
    assert [keyBlock][..0] == [];
    assert FormsOf(blocksMap, valueMap, []) == Success(map[]);
  }

  /** A VALUE relationship followed by a CHILD relationship, one id each. */
  lemma ValueThenChild(valueId: string, childId: string)
    ensures var rels := [Relationship(Value, [valueId]), Relationship(Child, [childId])];
      RelatedIds(rels, Value) == [valueId] && RelatedIds(rels, Child) == [childId]
  {
    var rels := [Relationship(Value, [valueId]), Relationship(Child, [childId])];
    assert rels[..0] == [] && rels[..2] == rels;
    RelatedIdsStep(rels, Value, 0);
    RelatedIdsStep(rels, Value, 1);
    RelatedIdsStep(rels, Child, 0);
    RelatedIdsStep(rels, Child, 1);
    assert [] + [valueId] + [] == [valueId];
    assert [] + [] + [childId] == [childId];
  }

  /**
   * A key block reading "Name" whose VALUE relationship names a value block
   * reading "Alice" gives the single form entry "Name " -> "Alice ".
   */
  lemma NameAliceForm(blocksMap: map<string, Block>, valueMap: map<string, Block>, keyBlock: Block,
                      nameWord: string, aliceWord: string, valueId: string)
    requires nameWord in blocksMap && blocksMap[nameWord] == Block(nameWord, Word, Some("Name"), None, None, None, None, None, None)
    requires aliceWord in blocksMap && blocksMap[aliceWord] == Block(aliceWord, Word, Some("Alice"), None, None, None, None, None, None)
    requires keyBlock.relationships == Some([Relationship(Value, [valueId]), Relationship(Child, [nameWord])])
    requires valueMap == map[valueId := Block(valueId, KeyValueSet, None, None, Some([Relationship(Child, [aliceWord])]), None, None, None, None)]
    ensures FormsOf(blocksMap, valueMap, [keyBlock]) == Success(map["Name " := "Alice "])
  {
    ValueThenChild(valueId, nameWord);
    var vb := valueMap[valueId];
    assert [valueId][..0] == [];
    assert LastValue([valueId], valueMap) == Success(Some(vb));
    assert ValueBlockOf(keyBlock, valueMap) == Success(vb);
    var vrels := vb.relationships.value;
    assert vrels[..0] == [] && RelatedIds(vrels, Child) == [aliceWord];
    OneWordText(WithForms, blocksMap, keyBlock, nameWord);
    OneWordText(WithForms, blocksMap, vb, aliceWord);
    assert "Name" + " " == "Name " && "Alice" + " " == "Alice ";
    SingleForm(blocksMap, valueMap, keyBlock);
  }


}
