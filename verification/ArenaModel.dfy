/** The block-chain allocator of src/allocator.c as values.

    A chain of blocks is a sequence; an address is a chain index and an offset. All sizes are
    64-bit words, and the additions the program makes on them - rounding up, moving an offset, and
    putting a header before a block's data - wrap around explicitly.
 */
module ArenaModel {

  const WORD: nat := 0x1_0000_0000_0000_0000

  /** The program's size_t. */
  type Size = n: nat | n < WORD

  const ID_RANGE: nat := 0x1_0000
  const DEFAULT_BLOCK: Size := 1024
  const ID_CURRENT: int := -1
  const ID_ENTIRE: int := -2

  /** The bytes of arena_block_t before its data. */
  const HEADER: Size := 64

  /** The largest request a block can hold: with its 64-byte header, a larger block would exceed
      the largest object the C library hands out. */
  const MAX_REQUEST: Size := 0x7FFF_FFFF_FFFF_FFB0

  datatype Addr = Addr(block: nat, offset: nat)

  datatype Block = Block(id: nat, wiped: bool, offset: Size, capacity: Size)

  datatype Arena = Arena(blocks: seq<Block>, current: nat, blockSize: Size, isReset: bool)

  /** Rounding up to 16, with the 64-bit wrap-around of the addition. */
  function Align(size: Size): (r: Size)
    ensures r % 16 == 0
    ensures size + 15 < WORD ==> size <= r < size + 16
    ensures size + 15 >= WORD ==> r == 0
  {
    var s := Add(size, 15);
    s - s % 16
  }

  function Add(a: Size, b: Size): (r: Size)
    ensures r == (a + b) % WORD
  {
    if a + b < WORD then a + b else a + b - WORD
  }

  function Init(size: Size): Arena {
    var blockSize := Align(if size < 1 then DEFAULT_BLOCK else size);
    Arena([Block(0, false, 0, Align(blockSize))], 0, blockSize, false)
  }

  /** The 16-bit id of the i-th block, and the increment that produces it. */
  function IdOf(i: nat): nat {
    i % ID_RANGE
  }

  function NextId(id: nat): nat {
    if id + 1 == ID_RANGE then 0 else id + 1
  }

  lemma NextIdOf(i: nat)
    ensures IdOf(i + 1) == NextId(IdOf(i))
  {
  }

  predicate WellFormed(b: Block) {
    b.offset <= b.capacity && b.offset % 16 == 0 && b.capacity % 16 == 0
  }

  /** What arena_new_block asks the C library for. */
  function Asked(b: Block): Size {
    Add(HEADER, b.capacity)
  }

  /** There is memory behind the whole block. */
  predicate Backed(b: Block) {
    Asked(b) >= b.capacity
  }

  /** What every operation keeps. */
  predicate Inv(a: Arena) {
    && a.current < |a.blocks|
    && a.blockSize % 16 == 0
    && (forall i :: 0 <= i < |a.blocks| ==> WellFormed(a.blocks[i]) && a.blocks[i].id == IdOf(i))
    && (forall i :: a.current < i < |a.blocks| ==> a.blocks[i].offset == 0)
  }

  /** The arenas that arena_init and the operations below can produce. */
  type Chain = a: Arena | Inv(a) witness Init(0)

  function FreshBlock(last: Block, blockSize: Size, need: Size): Block {
    Block(NextId(last.id), false, 0, Align(if need > blockSize then need else blockSize))
  }

  /** The search of arena_allocate_raw: next fit along the chain, growing it at its end. */
  function Advance(a: Arena, need: Size): Arena
    requires Inv(a)
    decreases |a.blocks| - a.current
  {
    var b := a.blocks[a.current];
    if Add(b.offset, need) <= b.capacity then a
    else if a.current + 1 < |a.blocks| then
      var next := a.current + 1;
      Advance(a.(current := next, blocks := a.blocks[next := a.blocks[next].(offset := 0)]), need)
    else
      a.(current := |a.blocks|, blocks := a.blocks + [FreshBlock(b, a.blockSize, need)])
  }

  lemma GrowKeepsInv(a: Arena, need: Size)
    requires Inv(a) && need % 16 == 0 && a.current == |a.blocks| - 1
    ensures var b := FreshBlock(a.blocks[a.current], a.blockSize, need);
            Inv(a.(current := |a.blocks|, blocks := a.blocks + [b])) && need <= b.capacity
  {
    NextIdOf(a.current);
  }

  /** How far the search walks when the blocks past the current one are empty. */
  lemma {:induction false} AdvanceShape(a: Arena, need: Size)
    requires Inv(a) && need % 16 == 0
    ensures var r := Advance(a, need);
            && Inv(r)
            && a.current <= r.current < |r.blocks|
            && r.blockSize == a.blockSize && r.isReset == a.isReset
            && Add(r.blocks[r.current].offset, need) <= r.blocks[r.current].capacity
            && (r.current != a.current ==>
                  && r.blocks[r.current].offset == 0
                  && Add(a.blocks[a.current].offset, need) > a.blocks[a.current].capacity)
            && if r.current < |a.blocks| then r.blocks == a.blocks
               else r.current == |a.blocks|
                    && r.blocks == a.blocks + [FreshBlock(a.blocks[|a.blocks| - 1], a.blockSize, need)]
    decreases |a.blocks| - a.current
  {
    var b := a.blocks[a.current];
    AdvanceStep(a, need);
    hide Advance;
    if Add(b.offset, need) > b.capacity {
      if a.current + 1 < |a.blocks| {
        NextIsEmpty(a);
        hide Inv, Add;
        AdvanceShape(a.(current := a.current + 1), need);
      } else {
        GrowKeepsInv(a, need);
      }
    }
  }

  /** Next fit: the search passes over no block that could take the request. */
  lemma {:induction false} AdvanceFirstFit(a: Arena, need: Size)
    requires Inv(a) && need % 16 == 0
    ensures var r := Advance(a, need);
            forall i :: a.current <= i < r.current && i < |a.blocks| ==>
              Add(a.blocks[i].offset, need) > a.blocks[i].capacity
    decreases |a.blocks| - a.current
  {
    AdvanceStep(a, need);
    AdvanceShape(a, need);
    hide Advance;
    var b := a.blocks[a.current];
    if Add(b.offset, need) > b.capacity && a.current + 1 < |a.blocks| {
      NextIsEmpty(a);
      AdvanceFirstFit(a.(current := a.current + 1), need);
    }
  }

  /** arena_alloc: the new arena and the address handed out. */
  function Alloc(a: Arena, size: Size): (Arena, Addr)
    requires Inv(a)
  {
    AdvanceShape(a, Align(size));
    var r := Advance(a, Align(size));
    var b := r.blocks[r.current];
    (r.(blocks := r.blocks[r.current := b.(offset := Add(b.offset, Align(size)))], isReset := false),
     Addr(r.current, b.offset))
  }

  function Wipe(b: Block, resetOffset: bool): Block {
    b.(wiped := true, offset := if resetOffset then 0 else b.offset)
  }

  function WipeAll(blocks: seq<Block>): (r: seq<Block>)
    ensures |r| == |blocks|
    ensures forall i :: 0 <= i < |r| ==> r[i] == Wipe(blocks[i], true)
  {
    seq(|blocks|, i requires 0 <= i < |blocks| => Wipe(blocks[i], true))
  }

  function Reset(a: Arena): Arena {
    a.(blocks := WipeAll(a.blocks), current := 0, isReset := true)
  }

  /** Small steps that keep an arena well formed. */
  lemma ResetKeepsInv(a: Chain)
    ensures Inv(Reset(a))
  {
  }

  lemma NextIsEmpty(a: Chain)
    requires a.current + 1 < |a.blocks|
    ensures a.blocks[a.current + 1].offset == 0
    ensures Inv(a.(current := a.current + 1))
  {
  }

  lemma AdvanceStep(a: Chain, need: Size)
    ensures var b := a.blocks[a.current];
            && (Add(b.offset, need) <= b.capacity ==> Advance(a, need) == a)
            && (Add(b.offset, need) > b.capacity && a.current + 1 < |a.blocks| ==>
                  && Inv(a.(current := a.current + 1))
                  && Advance(a, need) == Advance(a.(current := a.current + 1), need))
            && (Add(b.offset, need) > b.capacity && a.current + 1 == |a.blocks| ==>
                  Advance(a, need)
                  == a.(current := |a.blocks|, blocks := a.blocks + [FreshBlock(b, a.blockSize, need)]))
  {
    if a.current + 1 < |a.blocks| {
      var next := a.current + 1;
      assert a.blocks[next := a.blocks[next].(offset := 0)] == a.blocks;
    }
  }

  lemma TakeKeepsInv(a: Chain, need: Size)
    requires var b := a.blocks[a.current]; need % 16 == 0 && Add(b.offset, need) <= b.capacity
    ensures var b := a.blocks[a.current];
            Inv(a.(blocks := a.blocks[a.current := b.(offset := Add(b.offset, need))], isReset := false))
  {
  }

  lemma ResetShape(a: Chain)
    ensures var r := Reset(a);
            && |r.blocks| == |a.blocks| && r.current == 0 && r.isReset && r.blockSize == a.blockSize
            && forall i :: 0 <= i < |r.blocks| ==> r.blocks[i] == Wipe(a.blocks[i], true)
  {
  }

  lemma CurrentInChain(a: Chain)
    ensures a.current < |a.blocks| && WellFormed(a.blocks[a.current])
  {
  }

  /** get_arena: the chain index of the first block with this id, or the chain length. */
  function Lookup(blocks: seq<Block>, id: nat): (k: nat)
    ensures k <= |blocks|
    ensures k < |blocks| ==> blocks[k].id == id
    ensures forall i :: 0 <= i < k ==> blocks[i].id != id
  {
    if blocks == [] then 0
    else if blocks[0].id == id then 0
    else 1 + Lookup(blocks[1..], id)
  }

  /** The blocks a shred request names; a plain id is cut to the 16 bits of a block id. */
  predicate Named(a: Arena, id: int, i: nat) {
    if id == ID_ENTIRE then true
    else if id == ID_CURRENT then i == a.current
    else i == Lookup(a.blocks, id % ID_RANGE)
  }

  function Shred(a: Arena, id: int, resetOffset: bool): (r: Arena)
    ensures |r.blocks| == |a.blocks|
    ensures forall i :: 0 <= i < |a.blocks| ==>
              r.blocks[i] == if Named(a, id, i) then Wipe(a.blocks[i], resetOffset) else a.blocks[i]
  {
    a.(blocks := seq(|a.blocks|, i requires 0 <= i < |a.blocks| =>
                       if Named(a, id, i) then Wipe(a.blocks[i], resetOffset) else a.blocks[i]))
  }

  lemma ShredKeepsInv(a: Chain, id: int, resetOffset: bool)
    ensures Inv(Shred(a, id, resetOffset))
  {
  }

  /** What each kind of shred request wipes: the entire chain, the current block, or - as long as ids
      have not wrapped around - the block at the place that the 16-bit id tells, and no other. */
  lemma ShredWipes(a: Arena, id: int, resetOffset: bool, i: nat)
    requires Inv(a) && |a.blocks| <= 65536 && i < |a.blocks|
    ensures var b, c := a.blocks[i], Shred(a, id, resetOffset).blocks[i];
            var named := id == -2 || (id == -1 && i == a.current) || (id != -1 && id != -2 && i == id % 65536);
            && (named ==> c.wiped && c.offset == (if resetOffset then 0 else b.offset)
                          && c.id == b.id && c.capacity == b.capacity)
            && (!named ==> c == b)
  {
    LookupFindsById(a, id % ID_RANGE);
  }

  /** The i-th block is the one found under id i, as long as ids have not wrapped around. */
  lemma LookupFindsById(a: Arena, k: nat)
    requires Inv(a) && |a.blocks| <= 65536
    ensures Lookup(a.blocks, k) == if k < |a.blocks| then k else |a.blocks|
  {
    var r := Lookup(a.blocks, k);
    if k < |a.blocks| {
      assert a.blocks[k].id == k;
    }
  }

  function TotalCapacity(blocks: seq<Block>): nat {
    if blocks == [] then 0 else TotalCapacity(blocks[..|blocks| - 1]) + blocks[|blocks| - 1].capacity
  }

  lemma TotalCapacityAppend(blocks: seq<Block>, b: Block)
    ensures TotalCapacity([]) == 0 && TotalCapacity(blocks + [b]) == TotalCapacity(blocks) + b.capacity
  {
    assert (blocks + [b])[..|blocks|] == blocks;
  }

  // ---------------------------------------------------------------- runs

  datatype Op = OpAlloc(size: Size) | OpReset | OpShred(id: int, resetOffset: bool)

  ghost predicate Moderate(ops: seq<Op>) {
    forall i :: 0 <= i < |ops| && ops[i].OpAlloc? ==> ops[i].size <= MAX_REQUEST
  }

  /** What one allocation does to the chain: one offset moves, or one block is appended. */
  lemma AllocShape(a: Arena, size: Size)
    requires Inv(a)
    ensures var (r, at) := Alloc(a, size);
            && Inv(r)
            && a.current <= at.block == r.current <= |a.blocks| <= |r.blocks|
            && |r.blocks| == (if at.block < |a.blocks| then |a.blocks| else |a.blocks| + 1)
            && r.blockSize == a.blockSize && !r.isReset
            && at.offset == (if at.block < |a.blocks| then a.blocks[at.block].offset else 0)
            && r.blocks[at.block].offset == Add(at.offset, Align(size))
            && (forall i :: 0 <= i < |a.blocks| && i != at.block ==> r.blocks[i] == a.blocks[i])
            && (at.block < |a.blocks| ==>
                  r.blocks[at.block] == a.blocks[at.block].(offset := r.blocks[at.block].offset))
            && (at.block == |a.blocks| ==>
                  && !r.blocks[at.block].wiped
                  && r.blocks[at.block].capacity
                     == FreshBlock(a.blocks[|a.blocks| - 1], a.blockSize, Align(size)).capacity)
  {
    AdvanceShape(a, Align(size));
    var (r, at) := Alloc(a, size);
    assert WellFormed(r.blocks[at.block]);
  }

  lemma AllocKeepsInv(a: Arena, size: Size)
    requires Inv(a)
    ensures Inv(Alloc(a, size).0)
  {
    AllocShape(a, size);
  }

  function Apply(a: Arena, op: Op): (r: Arena)
    requires Inv(a)
    ensures Inv(r)
  {
    match op
    case OpAlloc(size) => AllocKeepsInv(a, size); Alloc(a, size).0
    case OpReset => Reset(a)
    case OpShred(id, resetOffset) => Shred(a, id, resetOffset)
  }

  function Run(a: Arena, ops: seq<Op>): (r: Arena)
    requires Inv(a)
    ensures Inv(r)
    decreases |ops|
  {
    if ops == [] then a else Run(Apply(a, ops[0]), ops[1..])
  }

  lemma {:induction false} RunAppend(a: Arena, ops: seq<Op>, op: Op)
    requires Inv(a)
    ensures Run(a, ops + [op]) == Apply(Run(a, ops), op)
    decreases |ops|
  {
    if ops == [] {
      assert [] + [op] == [op] && [op][1..] == [];
    } else {
      assert (ops + [op])[1..] == ops[1..] + [op];
      RunAppend(Apply(a, ops[0]), ops[1..], op);
    }
  }

  /** The flag `isReset` of an arena tells whether it has been reset since the latest allocation. */
  ghost predicate ResetLast(ops: seq<Op>, before: bool) {
    if exists k :: 0 <= k < |ops| && !ops[k].OpShred? then
      exists k :: 0 <= k < |ops| && ops[k].OpReset? && forall j :: k < j < |ops| ==> !ops[j].OpAlloc?
    else before
  }

  lemma {:induction false} ResetFlagTells(a: Arena, ops: seq<Op>)
    requires Inv(a)
    ensures Run(a, ops).isReset <==> ResetLast(ops, a.isReset)
    decreases |ops|
  {
    if ops != [] {
      var n := |ops| - 1;
      var earlier, op := ops[..n], ops[n];
      assert ops == earlier + [op];
      ResetFlagTells(a, earlier);
      RunAppend(a, earlier, op);
      if op.OpAlloc? { AllocShape(Run(a, earlier), op.size); }
      ResetLastAppend(earlier, op, a.isReset);
    }
  }

  lemma ResetLastAppend(ops: seq<Op>, op: Op, before: bool)
    ensures ResetLast(ops + [op], before) <==> op.OpReset? || (op.OpShred? && ResetLast(ops, before))
  {
    var all := ops + [op];
    assert all[|ops|] == op;
    assert forall k :: 0 <= k < |ops| ==> all[k] == ops[k];
    if op.OpShred? {
      if exists k :: 0 <= k < |ops| && !ops[k].OpShred? {
        var k :| 0 <= k < |ops| && !ops[k].OpShred?;
        assert !all[k].OpShred?;
        if k :| 0 <= k < |ops| && ops[k].OpReset? && forall j :: k < j < |ops| ==> !ops[j].OpAlloc? {
          assert all[k].OpReset?;
        }
      }
    }
  }

  // ---------------------------------------------------------------- what a new arena serves

  lemma InitShape(size: Size)
    requires 1 <= size <= MAX_REQUEST
    ensures var a := Init(size);
            && Inv(a) && !a.isReset && a.current == 0 && a.blockSize == Align(size)
            && |a.blocks| == 1 && a.blocks[0].offset == 0 && a.blocks[0].capacity == Align(size)
  {
  }

  lemma OneBlockServes(a: Arena, request: Size)
    requires Inv(a) && |a.blocks| == 1 && a.blocks[0].offset == 0
    ensures var (r, at) := Alloc(a, request);
            if Align(request) <= a.blocks[0].capacity then at == Addr(0, 0) && |r.blocks| == 1
            else at == Addr(1, 0) && |r.blocks| == 2
  {
    hide Align;
    AdvanceStep(a, Align(request));
  }

  /** A new arena serves any request up to its size from its first block, and makes a second block for
      one that is larger by 16 or more; size 0 stands for the default. */
  lemma NewArenaServes(size: Size, request: Size)
    requires 1 <= size <= MAX_REQUEST && request <= MAX_REQUEST
    ensures Inv(Init(size)) && !Init(size).isReset && Init(0) == Init(1024)
    ensures request <= size ==>
              Alloc(Init(size), request).1 == Addr(0, 0) && |Alloc(Init(size), request).0.blocks| == 1
    ensures request >= size + 16 ==>
              Alloc(Init(size), request).1 == Addr(1, 0) && |Alloc(Init(size), request).0.blocks| == 2
  {
    assert Init(0) == Init(1024);
    InitShape(size);
    hide Init, Alloc, Inv;
    OneBlockServes(Init(size), request);
    AlignOrder(size, request);
  }

  lemma AlignOrder(size: Size, request: Size)
    requires size <= MAX_REQUEST && request <= MAX_REQUEST
    ensures request <= size ==> Align(request) <= Align(size)
    ensures request >= size + 16 ==> Align(request) > Align(size)
  {
  }

  // ---------------------------------------------------------------- soundness of one allocation

  /** Every block is backed, and so is every block made for a small request. */
  ghost predicate Housed(a: Arena) {
    HEADER + a.blockSize < WORD && forall i :: 0 <= i < |a.blocks| ==> Backed(a.blocks[i])
  }

  /** A new arena has memory behind its block exactly if header and block size do not add up to 2^64, or
      rounding the size up wraps around to an empty block. */
  lemma InitHoused(size: Size)
    ensures Inv(Init(size)) && (Housed(Init(size)) <==> size <= WORD - 80 || size > WORD - 16)
  {
    var a := Init(size);
    assert a.blocks[0].capacity == a.blockSize;
  }

  /** None of the additions an allocation can make wraps around: rounding the request up, adding it to
      the current offset, and adding the header of a block grown for it. */
  predicate Unwrapped(a: Arena, size: Size)
    requires Inv(a)
  {
    && size + 15 < WORD
    && a.blocks[a.current].offset + Align(size) < WORD
    && HEADER + Align(size) < WORD
  }

  /** The range handed out holds the request in memory that is there, and the block's offset moves
      past it. */
  ghost predicate Sound(a: Arena, size: Size)
    requires Inv(a)
  {
    var (r, at) := Alloc(a, size);
    && at.block < |r.blocks| && Backed(r.blocks[at.block])
    && at.offset + size <= r.blocks[at.block].offset <= r.blocks[at.block].capacity
  }

  lemma BackedIff(b: Block)
    ensures Backed(b) <==> HEADER + b.capacity < WORD
  {
  }

  /** The block an allocation ends in is an old one, with room for the request, or one as large as the
      request or the block size. */
  lemma GrantedCapacity(a: Arena, size: Size)
    requires Inv(a)
    ensures var (r, at) := Alloc(a, size);
            && Inv(r) && at.block < |r.blocks|
            && if at.block < |a.blocks| then r.blocks[at.block].capacity == a.blocks[at.block].capacity
               else r.blocks[at.block].capacity == (if Align(size) > a.blockSize then Align(size) else a.blockSize)
  {
    AllocShape(a, size);
  }

  /** Where the memory of the arena is all there, an allocation is sound exactly when no addition
      wraps. */
  lemma AllocSoundIff(a: Arena, size: Size)
    requires Inv(a) && Housed(a)
    ensures Sound(a, size) <==> Unwrapped(a, size)
  {
    var need := Align(size);
    AdvanceShape(a, need);
    GrantedCapacity(a, size);
    var (r, at) := Alloc(a, size);
    var b := r.blocks[at.block];
    assert WellFormed(b);
    BackedIff(b);
    if at.block < |a.blocks| { BackedIff(a.blocks[at.block]); }
  }

  /** And then the memory is still all there. */
  lemma AllocKeepsHoused(a: Arena, size: Size)
    requires Inv(a) && Housed(a) && Unwrapped(a, size)
    ensures Housed(Alloc(a, size).0)
  {
    AllocShape(a, size);
    AllocSoundIff(a, size);
    var (r, at) := Alloc(a, size);
    forall i | 0 <= i < |r.blocks| ensures Backed(r.blocks[i]) {
      assert i != at.block ==> r.blocks[i] == a.blocks[i];
    }
  }

  /** The header counts: on a default arena a request 64 bytes short of 2^64 wraps neither in rounding nor
      against the offset, but the block grown for it is one for which nothing is asked. */
  lemma HeaderWraps()
    ensures var a := Init(DEFAULT_BLOCK);
            var (r, at) := Alloc(a, WORD - 64);
            && Inv(a) && Housed(a)
            && WORD - 64 + 15 < WORD && a.blocks[a.current].offset + Align(WORD - 64) < WORD
            && at == Addr(1, 0) && |r.blocks| == 2 && Asked(r.blocks[1]) == 0
  {
    InitHoused(DEFAULT_BLOCK);
    var a := Init(DEFAULT_BLOCK);
    assert Align(WORD - HEADER) == WORD - HEADER;
    AdvanceStep(a, WORD - HEADER);
  }
}
