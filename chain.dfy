/**
 * The append-only block store (8ydh_create_a_decent.swift:79-93), the
 * hash-link invariant its callers are meant to keep, and a check that
 * finds where that invariant first breaks.
 */
module Chain {
  import opened Wrappers
  import opened Blocks

  /** The previous hash given to the first block (8ydh_create_a_decent.swift:174). */
  const GenesisPreviousHash: string := ""

  /** The first block of a chain, built the way `main` builds it. */
  function Genesis(p: Primitives, data: string): (b: Block)
  {
    NewBlock(p, 0, data, GenesisPreviousHash)
  }

  /** The hash the next block must name as its predecessor. */
  function LastHash(blocks: seq<Block>): (h: string)
  {
    if blocks == [] then GenesisPreviousHash else blocks[|blocks| - 1].blockHash
  }

  /**
   * Block `i` sits where its index says, names its predecessor's hash (the
   * genesis value for the first block), and its stored hash is not stale.
   */
  predicate LinkedAt(p: Primitives, blocks: seq<Block>, i: nat)
    requires i < |blocks|
  {
    blocks[i].index == i &&
    blocks[i].previousBlockHash == LastHash(blocks[..i]) &&
    blocks[i].HashIsCurrent(p)
  }

  predicate WellLinked(p: Primitives, blocks: seq<Block>)
  {
    forall i: nat :: i < |blocks| ==> LinkedAt(p, blocks, i)
  }

  /** The first position at or after `from` whose block is not linked, if any. */
  function FirstBreakFrom(p: Primitives, blocks: seq<Block>, from: nat): (r: Option<nat>)
    requires from <= |blocks|
    ensures r.None? <==> forall i: nat :: from <= i < |blocks| ==> LinkedAt(p, blocks, i)
    ensures r.Some? ==> from <= r.value < |blocks| && !LinkedAt(p, blocks, r.value)
    ensures r.Some? ==> forall i: nat :: from <= i < r.value ==> LinkedAt(p, blocks, i)
    decreases |blocks| - from
  {
    if from == |blocks| then None
    else if !LinkedAt(p, blocks, from) then Some(from)
    else FirstBreakFrom(p, blocks, from + 1)
  }

  /**
   * The integrity check the hash links make possible: None exactly when the
   * chain is well linked, otherwise the position where corruption begins.
   */
  function FirstBreak(p: Primitives, blocks: seq<Block>): (r: Option<nat>)
    ensures r.None? <==> WellLinked(p, blocks)
    ensures r.Some? ==> r.value < |blocks| && !LinkedAt(p, blocks, r.value)
    ensures r.Some? ==> forall i: nat :: i < r.value ==> LinkedAt(p, blocks, i)
  {
    FirstBreakFrom(p, blocks, 0)
  }

  /** A block appended to a well-linked chain keeps it well linked exactly when it is the block `main`'s convention builds. */
  lemma AppendLinked(p: Primitives, blocks: seq<Block>, b: Block)
    ensures WellLinked(p, blocks + [b])
        <==> WellLinked(p, blocks) && b == NewBlock(p, |blocks|, b.data, LastHash(blocks))
  {
    var s := blocks + [b];
    assert s[..|blocks|] == blocks;
    forall i: nat | i < |blocks|
      ensures LinkedAt(p, s, i) == LinkedAt(p, blocks, i)
    {
      assert s[..i] == blocks[..i];
    }
    if LinkedAt(p, s, |blocks|) {
      assert b == NewBlock(p, |blocks|, b.data, LastHash(blocks));
    }
  }

  /** Every prefix of a well-linked chain is well linked. */
  lemma WellLinkedPrefix(p: Primitives, blocks: seq<Block>, n: nat)
    requires n <= |blocks|
    requires WellLinked(p, blocks)
    ensures WellLinked(p, blocks[..n])
  {
    forall i: nat | i < n
      ensures LinkedAt(p, blocks[..n], i)
    {
      assert blocks[..n][..i] == blocks[..i];
      assert LinkedAt(p, blocks, i);
    }
  }

  /** In a well-linked chain block `i` has index `i`, and the first block names the genesis value. */
  lemma WellLinkedPositions(p: Primitives, blocks: seq<Block>)
    requires WellLinked(p, blocks)
    ensures forall i :: 0 <= i < |blocks| ==> blocks[i].index == i
    ensures |blocks| > 0 ==> blocks[0].previousBlockHash == GenesisPreviousHash
    ensures forall i :: 0 < i < |blocks| ==> blocks[i].previousBlockHash == blocks[i - 1].blockHash
  {
    forall i | 0 <= i < |blocks|
      ensures blocks[i].index == i
      ensures i > 0 ==> blocks[i].previousBlockHash == blocks[i - 1].blockHash
    {
      assert LinkedAt(p, blocks, i);
    }
    if |blocks| > 0 {
      assert LinkedAt(p, blocks, 0);
    }
  }

  /** Replacing block `k` by one with the same stored hash leaves every other position linked. */
  lemma ReplaceKeepsOthers(p: Primitives, blocks: seq<Block>, k: nat, b: Block, i: nat)
    requires k < |blocks| && WellLinked(p, blocks)
    requires b.blockHash == blocks[k].blockHash
    requires i < |blocks| && i != k
    ensures LinkedAt(p, blocks[k := b], i)
  {
    var s := blocks[k := b];
    assert LinkedAt(p, blocks, i);
    assert s[i] == blocks[i];
    assert LastHash(s[..i]) == LastHash(blocks[..i]);
  }

  /**
   * Editing the index, data or previous hash of block `k` in place (the
   * fields are `var`, the hash is not recomputed) is caught at exactly `k`.
   * It goes unreported only when the index and previous hash are unchanged
   * and the new data still hashes to the stored value; an index edit that
   * keeps the same hash input is still reported.
   */
  lemma FieldEditLocated(p: Primitives, blocks: seq<Block>, k: nat, b: Block)
    requires k < |blocks| && WellLinked(p, blocks)
    requires b.blockHash == blocks[k].blockHash
    ensures FirstBreak(p, blocks[k := b])
         == if b.index == k && b.previousBlockHash == blocks[k].previousBlockHash && b.HashIsCurrent(p)
            then None else Some(k)
  {
    var s := blocks[k := b];
    forall i: nat | i < |blocks| && i != k
      ensures LinkedAt(p, s, i)
    {
      ReplaceKeepsOthers(p, blocks, k, b, i);
    }
    assert s[..k] == blocks[..k];
    assert LinkedAt(p, s, k)
       <==> b.index == k && b.previousBlockHash == blocks[k].previousBlockHash && b.HashIsCurrent(p)
    by {
      assert LinkedAt(p, blocks, k);
    }
  }

  /** Overwriting the stored hash of block `k` with any other value is always caught, at exactly `k`. */
  lemma HashEditLocated(p: Primitives, blocks: seq<Block>, k: nat, h: string)
    requires k < |blocks| && WellLinked(p, blocks)
    requires h != blocks[k].blockHash
    ensures FirstBreak(p, blocks[k := blocks[k].(blockHash := h)]) == Some(k)
  {
    var s := blocks[k := blocks[k].(blockHash := h)];
    assert LinkedAt(p, blocks, k);
    assert !LinkedAt(p, s, k);
    forall i: nat | i < k
      ensures LinkedAt(p, s, i)
    {
      assert LinkedAt(p, blocks, i);
      assert s[..i] == blocks[..i];
    }
  }

  /** `Blockchain`: an array of blocks that only grows. */
  class Blockchain {
    var blocks: seq<Block>

    /** `init()`: an empty chain. */
    constructor ()
      ensures blocks == []
    {
      blocks := [];
    }

    /** `addBlock(block:)`: appends without checking the block. */
    method AddBlock(block: Block)
      modifies this
      ensures blocks == old(blocks) + [block]
      ensures GetBlock(|old(blocks)|) == Some(block)
      ensures forall i :: i != |old(blocks)| ==> GetBlock(i) == old(GetBlock(i))
    {
      blocks := blocks + [block];
    }

    /** `getBlock(byIndex:)`: the block at a position, or nil for any position outside the chain. */
    function GetBlock(index: int): (r: Option<Block>)
      reads this
      ensures r.Some? <==> 0 <= index < |blocks|
      ensures r.Some? ==> r.value == blocks[index]
    {
      if 0 <= index < |blocks| then Some(blocks[index]) else None
    }
  }

  /** What `main` does with the store: a new chain holding the genesis block for a payload. */
  method StoreGenesis(p: Primitives, template: string) returns (chain: Blockchain)
    ensures fresh(chain)
    ensures chain.blocks == [Genesis(p, template)]
    ensures WellLinked(p, chain.blocks)
    ensures chain.GetBlock(0) == Some(Genesis(p, template))
  {
    chain := new Blockchain();
    var block := Genesis(p, template);
    chain.AddBlock(block);
    AppendLinked(p, [], block);
  }
}
