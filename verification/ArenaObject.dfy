/** The allocator as the program keeps it: blocks linked in both directions and updated in place,
    proved to do what ArenaModel says. `chain` and `model` are the abstract view of an arena; a
    block that belongs to one is reached only through it.
 */
module ArenaObject {
  import opened ArenaModel

  class BlockNode {
    var id: nat
    var isWiped: bool
    var next: BlockNode?
    var prev: BlockNode?
    var offset: Size
    const capacity: Size
    ghost const pos: nat  // the place in its chain

    /** arena_new_block */
    constructor (size: Size, ghost pos: nat)
      ensures View() == Block(0, false, 0, Align(size)) && next == null && prev == null && this.pos == pos
    {
      this.pos := pos;
      id, isWiped, next, prev, offset := 0, false, null, null, 0;
      capacity := Align(size);
    }

    ghost function View(): Block
      reads this
    {
      Block(id, isWiped, offset, capacity)
    }

    /** Zeroing an offset that is zero already changes nothing. */
    method Restart()
      requires offset == 0
      modifies `offset
      ensures View() == old(View())
    {
      offset := 0;
    }

    /** internal_block_shred, without the bytes */
    method Wipe(resetOffset: bool)
      modifies `isWiped, `offset
      ensures View() == ArenaModel.Wipe(old(View()), resetOffset)
    {
      isWiped := true;
      if resetOffset {
        offset := 0;
      }
    }
  }

  class ArenaList {
    var head: BlockNode
    var current: BlockNode
    var blockSize: Size
    var containsFd: bool
    var containsDbHandle: bool
    var isReset: bool

    ghost var chain: seq<BlockNode>
    ghost var model: Chain

    /** The i-th block, and null past either end. */
    ghost function At(i: int): BlockNode?
      reads this
    {
      if 0 <= i < |chain| then chain[i] else null
    }

    /** The links form one acyclic list, `prev` undoes `next`, and the fields agree with the model. */
    ghost predicate Linked()
      reads this, chain
    {
      && |chain| == |model.blocks|
      && head == chain[0] && current == chain[model.current]
      && blockSize == model.blockSize && isReset == model.isReset
      && (forall i :: 0 <= i < |chain| ==> chain[i].pos == i)
      && (forall i {:trigger chain[i].next} :: 0 <= i < |chain| ==> chain[i].next == At(i + 1))
      && (forall i {:trigger chain[i].prev} :: 0 <= i < |chain| ==> chain[i].prev == At(i - 1))
    }

    ghost predicate Valid()
      reads this, chain
    {
      Linked() && forall i :: 0 <= i < |chain| ==> chain[i].View() == model.blocks[i]
    }

    /** arena_init */
    constructor (size: Size)
      ensures Valid() && fresh(chain) && model == Init(size)
      ensures !containsFd && !containsDbHandle
    {
      var bs := if size < 1 then DEFAULT_BLOCK else size;
      var block := new BlockNode(Align(bs), 0);
      blockSize := Align(bs);
      head, current := block, block;
      containsFd, containsDbHandle, isReset := false, false, false;
      chain, model := [block], Init(size);
    }

    /** The growing branch of the search in arena_allocate_raw. */
    method Grow(need: Size)
      requires Valid() && need % 16 == 0 && model.current == |chain| - 1
      modifies `current, `chain, `model, current`next
      ensures Valid() && |chain| == |old(chain)| + 1 && chain[..|old(chain)|] == old(chain)
      ensures fresh(chain[|old(chain)|])
      ensures model == old(var a := model;
                a.(current := |a.blocks|, blocks := a.blocks + [FreshBlock(a.blocks[a.current], a.blockSize, need)]))
    {
      GrowKeepsInv(model, need);
      assert current.View() == model.blocks[model.current];
      var block := new BlockNode(if need > blockSize then need else blockSize, |chain|);
      block.id := NextId(current.id);
      block.prev := current;
      Append(block);
    }

    method Append(block: BlockNode)
      requires Valid() && model.current == |chain| - 1
      requires block.pos == |chain| && block.prev == current && block.next == null
      requires Inv(model.(current := |model.blocks|, blocks := model.blocks + [block.View()]))
      modifies `current, `chain, `model, current`next
      ensures Valid() && chain == old(chain) + [block]
      ensures model == old(model.(current := |model.blocks|, blocks := model.blocks + [block.View()]))
    {
      hide Inv;
      assert forall i :: 0 <= i < |chain| && i != model.current ==> chain[i] != current;
      current.next := block;
      current := block;
      model := model.(current := |model.blocks|, blocks := model.blocks + [block.View()]);
      chain := chain + [block];
    }

    /** Gives one block new contents, as the model's i-th block. */
    ghost method Record(i: nat)
      requires Linked() && i < |chain|
      requires Inv(model.(blocks := model.blocks[i := chain[i].View()]))
      requires forall k :: 0 <= k < |chain| && k != i ==> chain[k].View() == model.blocks[k]
      modifies `model
      ensures Valid() && model == old(model).(blocks := old(model).blocks[i := chain[i].View()])
    {
      model := model.(blocks := model.blocks[i := chain[i].View()]);
    }

    /** The branch of the search that moves on to a block already there. The offset it zeroes is
        zero already, so nothing stored in that block is discarded. */
    method MoveOn()
      requires Valid() && current.next != null
      modifies `current, `model, current.next`offset
      ensures Valid() && model == old(model).(current := old(model).current + 1)
      ensures old(current.next.offset) == 0
      ensures |chain| == |model.blocks|
    {
      hide Inv;
      ghost var next := model.current + 1;
      CurrentInChain(model);
      assert current.next == At(next) && chain[next].View() == model.blocks[next];
      NextIsEmpty(model);
      assert current.next.offset == 0;
      hide BlockNode.View;
      current := current.next;
      current.Restart();
      model := model.(current := next);
    }

    /** The search loop of arena_allocate_raw. */
    method Search(need: Size)
      requires Valid() && need % 16 == 0
      modifies this, chain
      ensures Valid() && |old(chain)| <= |chain| && chain[..|old(chain)|] == old(chain)
      ensures fresh(chain[|old(chain)|..])
      ensures model == Advance(old(model), need)
      ensures current in old(chain) || fresh(current)
      ensures containsFd == old(containsFd) && containsDbHandle == old(containsDbHandle)
    {
      hide Inv, Advance, Add;
      CurrentInChain(model);
      while Add(current.offset, need) > current.capacity
        invariant Valid() && containsFd == old(containsFd) && containsDbHandle == old(containsDbHandle)
        invariant chain == old(chain) && Advance(model, need) == Advance(old(model), need)
        invariant model.current < |chain|
        decreases |chain| - model.current
      {
        assert chain[model.current].View() == model.blocks[model.current];
        AdvanceStep(model, need);
        assert current.next == At(model.current + 1);
        if current.next != null {
          MoveOn();
          CurrentInChain(model);
        } else {
          Grow(need);
          return;
        }
      }
      AdvanceStep(model, need);
      assert current == chain[model.current];
      assert chain[model.current].View() == model.blocks[model.current];
    }

    /** The end of arena_allocate_raw: the range is taken from the current block. */
    method Take(need: Size) returns (offset: Size)
      requires Valid()
      requires var b := model.blocks[model.current];
               need % 16 == 0 && Add(b.offset, need) <= b.capacity
      modifies `isReset, `model, current`offset
      ensures Valid() && offset == old(model).blocks[old(model).current].offset
      ensures var a := old(model);
              model == a.(blocks := a.blocks[a.current := a.blocks[a.current].(offset := Add(offset, need))],
                          isReset := false)
    {
      hide Inv, Add;
      CurrentInChain(model);
      TakeKeepsInv(model, need);
      ghost var i := model.current;
      assert chain[i].View() == model.blocks[i];
      offset := current.offset;
      current.offset := Add(current.offset, need);
      isReset := false;
      model := model.(blocks := model.blocks[i := chain[i].View()], isReset := false);
    }

    /** arena_allocate_raw: the address is a block and an offset in its data. */
    method Allocate(size: Size) returns (block: BlockNode, offset: Size)
      requires Valid()
      modifies this, chain
      ensures Valid() && |old(chain)| <= |chain| && chain[..|old(chain)|] == old(chain)
      ensures fresh(chain[|old(chain)|..])
      ensures var (r, at) := Alloc(old(model), size);
              model == r && at.block < |chain| && block == chain[at.block] && offset == at.offset
      ensures containsFd == old(containsFd) && containsDbHandle == old(containsDbHandle)
    {
      AdvanceShape(model, Align(size));
      Search(Align(size));
      block := current;
      offset := Take(Align(size));
    }

    /** The loop of internal_arena_shred over all blocks. */
    method WipeEvery(resetOffset: bool)
      requires Valid()
      modifies chain
      ensures Linked()
      ensures forall i :: 0 <= i < |chain| ==> chain[i].View() == ArenaModel.Wipe(model.blocks[i], resetOffset)
    {
      var it: BlockNode? := head;
      ghost var k := 0;
      while it != null
        invariant k <= |chain| && it == At(k)
        invariant Linked()
        invariant forall i :: 0 <= i < |chain| ==>
                    chain[i].View()
                    == if i < k then ArenaModel.Wipe(model.blocks[i], resetOffset) else model.blocks[i]
        decreases |chain| - k
      {
        it.Wipe(resetOffset);
        it := it.next;
        k := k + 1;
      }
    }

    /** arena_reset */
    method ResetAll()
      requires Valid()
      modifies this, chain
      ensures Valid() && chain == old(chain) && model == Reset(old(model))
      ensures containsFd == old(containsFd) && containsDbHandle == old(containsDbHandle)
    {
      hide Inv, Reset, WipeAll, ArenaModel.Wipe, BlockNode.View;
      ResetKeepsInv(model);
      ResetShape(model);
      CurrentInChain(model);
      WipeEvery(true);
      Rewind(Reset(model));
    }

    /** The end of arena_reset. */
    method Rewind(ghost emptied: Chain)
      requires Linked() && emptied.current == 0 && emptied.isReset && emptied.blockSize == model.blockSize
      requires |emptied.blocks| == |chain| > 0
      requires forall i :: 0 <= i < |chain| ==> chain[i].View() == emptied.blocks[i]
      modifies `current, `isReset, `model
      ensures Valid() && model == emptied
    {
      hide Inv, BlockNode.View;
      current := head;
      isReset := true;
      model := emptied;
    }

    /** get_arena */
    method Find(id: nat) returns (r: BlockNode?)
      requires Valid()
      ensures var k := Lookup(model.blocks, id);
              r == if k < |chain| then chain[k] else null
    {
      var it: BlockNode? := head;
      ghost var k := 0;
      while it != null
        invariant k <= |chain| && it == At(k)
        invariant Lookup(model.blocks, id) == k + Lookup(model.blocks[k..], id)
        decreases |chain| - k
      {
        assert chain[k].View() == model.blocks[k];
        if it.id == id {
          return it;
        }
        assert model.blocks[k..][1..] == model.blocks[k + 1..];
        it := it.next;
        k := k + 1;
      }
      return null;
    }

    /** arena_shred: the request names the entire chain, the current block or a block by its id. */
    method Shred(id: int, resetOffset: bool) returns (found: bool)
      requires Valid()
      modifies this, chain
      ensures Valid() && chain == old(chain) && model == ArenaModel.Shred(old(model), id, resetOffset)
      ensures found <==> id == ID_ENTIRE || id == ID_CURRENT || Lookup(old(model).blocks, id % ID_RANGE) < |chain|
    {
      hide Inv, Lookup, ArenaModel.Shred, Valid, Linked;
      if id == ID_ENTIRE {
        ShredAll(resetOffset);
        found := true;
      } else if id == ID_CURRENT {
        ShredCurrent(resetOffset);
        found := true;
      } else {
        found := ShredById(id, resetOffset);
      }
    }

    method ShredAll(resetOffset: bool)
      requires Valid()
      modifies `model, chain
      ensures Valid() && chain == old(chain) && model == ArenaModel.Shred(old(model), ID_ENTIRE, resetOffset)
    {
      hide Inv, BlockNode.View, ArenaModel.Wipe;
      ShredKeepsInv(model, ID_ENTIRE, resetOffset);
      WipeEvery(resetOffset);
      model := ArenaModel.Shred(model, ID_ENTIRE, resetOffset);
    }

    method ShredCurrent(resetOffset: bool)
      requires Valid()
      modifies `model, chain
      ensures Valid() && chain == old(chain) && model == ArenaModel.Shred(old(model), ID_CURRENT, resetOffset)
    {
      hide Inv, ArenaModel.Shred, ArenaModel.Wipe, WipeOne;
      CurrentInChain(model);
      WipeAt(current, model.current, resetOffset);
      WipeOneIsShred(old(model), ID_CURRENT, resetOffset, old(model).current);
    }

    method ShredById(id: int, resetOffset: bool) returns (found: bool)
      requires Valid() && id != ID_ENTIRE && id != ID_CURRENT
      modifies `model, chain
      ensures Valid() && chain == old(chain) && model == ArenaModel.Shred(old(model), id, resetOffset)
      ensures found <==> Lookup(old(model).blocks, id % ID_RANGE) < |chain|
    {
      hide Inv, ArenaModel.Shred, ArenaModel.Wipe, Lookup;
      var target := Find(id % ID_RANGE);
      ghost var k := Lookup(model.blocks, id % ID_RANGE);
      found := target != null;
      if target != null {
        WipeAt(target, k, resetOffset);
      }
      WipeOneIsShred(old(model), id, resetOffset, k);
    }

    method WipeAt(block: BlockNode, ghost i: nat, resetOffset: bool)
      requires Valid() && i < |chain| && block == chain[i]
      modifies `model, block`isWiped, block`offset
      ensures Valid() && model == WipeOne(old(model), i, resetOffset)
    {
      assert chain[i].View() == model.blocks[i];
      block.Wipe(resetOffset);
      Record(i);
    }

    /** get_amount_capacity: the sum is kept in a 32-bit counter. */
    method AmountCapacity() returns (amount: nat)
      requires Valid()
      ensures if exists i :: 0 <= i < |chain| && model.blocks[i].capacity < 1 then amount == WORD - 1
              else amount == TotalCapacity(model.blocks) % 0x1_0000_0000
    {
      amount := 0;
      var it: BlockNode? := head;
      ghost var k := 0;
      while it != null
        invariant k <= |chain| && it == At(k)
        invariant amount == TotalCapacity(model.blocks[..k]) % 0x1_0000_0000
        invariant forall i :: 0 <= i < k ==> model.blocks[i].capacity >= 1
        decreases |chain| - k
      {
        assert chain[k].View() == model.blocks[k];
        if it.capacity < 1 {
          return WORD - 1;
        }
        assert model.blocks[..k + 1][..k] == model.blocks[..k];
        WrapStep(TotalCapacity(model.blocks[..k]), it.capacity);
        amount := (amount + it.capacity) % 0x1_0000_0000;
        it := it.next;
        k := k + 1;
      }
      assert model.blocks[..k] == model.blocks;
    }

    /** arena_destroy: refuses while resources are held and it is not forced; otherwise frees every
        block once, in chain order, reading each link before its block goes. */
    method Destroy(force: bool) returns (destroyed: bool, freed: seq<BlockNode>)
      requires Valid()
      modifies chain
      ensures destroyed <==> force || !(containsDbHandle || containsFd)
      ensures destroyed ==> freed == chain
                            && forall i :: 0 <= i < |chain| ==>
                                 chain[i].View() == ArenaModel.Wipe(old(chain[i].View()), true)
      ensures !destroyed ==> freed == [] && Valid()
    {
      freed := [];
      if !force && (containsDbHandle || containsFd) {
        return false, [];
      }
      var block: BlockNode? := head;
      while block != null
        invariant |freed| <= |chain| && freed == chain[..|freed|]
        invariant block == At(|freed|)
        invariant Linked()
        invariant forall i :: 0 <= i < |chain| ==>
                    chain[i].View()
                    == if i < |freed| then ArenaModel.Wipe(old(chain[i].View()), true) else old(chain[i].View())
        decreases |chain| - |freed|
      {
        var next := block.next;
        block.Wipe(true);
        freed := freed + [block];
        block := next;
      }
      destroyed := true;
    }
  }

  function WipeOne(a: Chain, i: nat, resetOffset: bool): Chain {
    if i < |a.blocks| then a.(blocks := a.blocks[i := Wipe(a.blocks[i], resetOffset)]) else a
  }

  /** Wiping the one block a request names is the whole effect of the request. */
  lemma WipeOneIsShred(a: Chain, id: int, resetOffset: bool, i: nat)
    requires id != ID_ENTIRE
    requires i == if id == ID_CURRENT then a.current else Lookup(a.blocks, id % ID_RANGE)
    ensures WipeOne(a, i, resetOffset) == ArenaModel.Shred(a, id, resetOffset)
  {
    assert WipeOne(a, i, resetOffset).blocks == ArenaModel.Shred(a, id, resetOffset).blocks;
  }

  lemma WrapStep(sum: nat, more: nat)
    ensures (sum % 0x1_0000_0000 + more) % 0x1_0000_0000 == (sum + more) % 0x1_0000_0000
  {
  }
}
