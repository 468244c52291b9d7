/** What runs of the allocator guarantee: live ranges never overlap, a reset arena replays the
    same addresses, and next fit wastes at most half of what it grows to. */
module ArenaTheorems {
  import opened ArenaModel
  import opened Numbers

  // ---------------------------------------------------------------- sizes stay small

  /** No block is large enough for an offset to wrap around. */
  ghost predicate Bounded(a: Arena) {
    && a.blockSize <= MAX_REQUEST
    && forall i :: 0 <= i < |a.blocks| ==> a.blocks[i].capacity <= MAX_REQUEST
  }

  lemma ModerateUnwrapped(a: Arena, size: Size)
    requires Inv(a) && Bounded(a) && size <= MAX_REQUEST
    ensures Unwrapped(a, size)
  {
    assert WellFormed(a.blocks[a.current]);
  }

  /** What an allocation does when none of its additions wraps. */
  lemma AllocPlain(a: Arena, size: Size)
    requires Inv(a) && Unwrapped(a, size)
    ensures var (r, at) := Alloc(a, size);
            && Inv(r)
            && a.current <= at.block == r.current < |r.blocks|
            && at.block <= |a.blocks| <= |r.blocks|
            && at.offset == (if at.block < |a.blocks| then a.blocks[at.block].offset else 0)
            && r.blocks[at.block].offset == at.offset + Align(size)
            && (forall i :: 0 <= i < |a.blocks| ==>
                  r.blocks[i] == if i == at.block then a.blocks[i].(offset := at.offset + Align(size))
                                 else a.blocks[i])
            && |r.blocks| == (if at.block < |a.blocks| then |a.blocks| else |a.blocks| + 1)
            && (at.block == |a.blocks| ==>
                  && !r.blocks[at.block].wiped
                  && r.blocks[at.block].capacity
                     == FreshBlock(a.blocks[|a.blocks| - 1], a.blockSize, Align(size)).capacity)
            && r.blockSize == a.blockSize
  {
    AllocShape(a, size);
    assert a.blocks[a.current].offset + Align(size) < WORD;
  }

  /** With moderate requests the next address is sound, and the arena stays bounded. */
  lemma AllocEffect(a: Arena, size: Size)
    requires Inv(a) && Bounded(a) && size <= MAX_REQUEST
    ensures var (r, at) := Alloc(a, size);
            && Inv(r) && Bounded(r)
            && a.current <= at.block == r.current < |r.blocks|
            && at.block <= |a.blocks| <= |r.blocks|
            && at.offset == (if at.block < |a.blocks| then a.blocks[at.block].offset else 0)
            && r.blocks[at.block].offset == at.offset + Align(size)
            && (forall i :: 0 <= i < |a.blocks| ==>
                  r.blocks[i] == if i == at.block then a.blocks[i].(offset := at.offset + Align(size))
                                 else a.blocks[i])
            && |r.blocks| == (if at.block < |a.blocks| then |a.blocks| else |a.blocks| + 1)
  {
    ModerateUnwrapped(a, size);
    AllocPlain(a, size);
    hide Alloc, Align, Inv, Unwrapped;
    var (r, at) := Alloc(a, size);
    assert forall i :: 0 <= i < |a.blocks| ==> r.blocks[i].capacity == a.blocks[i].capacity;
  }

  // ---------------------------------------------------------------- live ranges are separate

  datatype Grant = Grant(at: Addr, size: Size)

  /** A run that remembers, by serial number, every range handed out since its block's offset was
      last reset. */
  datatype Tracked = Tracked(arena: Arena, live: map<nat, Grant>, next: nat)

  function ResetOffsetOf(a: Arena, op: Op, i: nat): bool {
    match op
    case OpAlloc(_) => false
    case OpReset => true
    case OpShred(id, resetOffset) => resetOffset && Named(a, id, i)
  }

  function Track(s: Tracked, op: Op): (r: Tracked)
    requires Inv(s.arena)
    ensures r.arena == Apply(s.arena, op)
  {
    var kept := map k | k in s.live && !ResetOffsetOf(s.arena, op, s.live[k].at.block) :: s.live[k];
    match op
    case OpAlloc(size) =>
      var (r, at) := Alloc(s.arena, size);
      AllocKeepsInv(s.arena, size);
      Tracked(r, kept[s.next := Grant(at, size)], s.next + 1)
    case _ => Tracked(Apply(s.arena, op), kept, s.next)
  }

  function TrackAll(s: Tracked, ops: seq<Op>): (r: Tracked)
    requires Inv(s.arena)
    ensures r.arena == Run(s.arena, ops)
    decreases |ops|
  {
    if ops == [] then s else TrackAll(Track(s, ops[0]), ops[1..])
  }

  ghost predicate InsideBlock(a: Arena, g: Grant) {
    && g.at.block < |a.blocks| && g.at.block <= a.current && Backed(a.blocks[g.at.block])
    && g.at.offset % 16 == 0
    && g.at.offset + g.size <= a.blocks[g.at.block].offset <= a.blocks[g.at.block].capacity
  }

  ghost predicate Disjoint(g: Grant, h: Grant) {
    g.at.block != h.at.block || g.at.offset + g.size <= h.at.offset || h.at.offset + h.size <= g.at.offset
  }

  ghost predicate Separated(s: Tracked) {
    && (forall k :: k in s.live ==> k < s.next && InsideBlock(s.arena, s.live[k]))
    && (forall j, k :: j in s.live && k in s.live && j != k ==> Disjoint(s.live[j], s.live[k]))
  }

  lemma NewGrantInside(a: Arena, size: Size)
    requires Inv(a) && Housed(a) && Unwrapped(a, size)
    ensures var (r, at) := Alloc(a, size);
            InsideBlock(r, Grant(at, size))
  {
    AllocShape(a, size);
    AllocSoundIff(a, size);
  }

  /** A range handed out earlier stays inside its block and clear of the new one. */
  lemma OldGrantStays(a: Arena, size: Size, g: Grant)
    requires Inv(a) && Housed(a) && Unwrapped(a, size) && InsideBlock(a, g)
    ensures var (r, at) := Alloc(a, size);
            InsideBlock(r, g) && Disjoint(g, Grant(at, size)) && Disjoint(Grant(at, size), g)
  {
    AllocShape(a, size);
    AllocSoundIff(a, size);
  }

  lemma AllocKeepsSeparated(s: Tracked, size: Size)
    requires Inv(s.arena) && Housed(s.arena) && Unwrapped(s.arena, size) && Separated(s)
    ensures Separated(Track(s, OpAlloc(size)))
  {
    var t := Track(s, OpAlloc(size));
    var g := Grant(Alloc(s.arena, size).1, size);
    assert t.live == s.live[s.next := g];
    NewGrantInside(s.arena, size);
    forall k | k in s.live
      ensures InsideBlock(t.arena, s.live[k]) && Disjoint(s.live[k], g) && Disjoint(g, s.live[k])
    {
      OldGrantStays(s.arena, size, s.live[k]);
    }
  }

  /** An allocation keeps the live ranges in memory and separate exactly when none of its additions
      wraps. */
  lemma AllocSeparatedIff(s: Tracked, size: Size)
    requires Inv(s.arena) && Housed(s.arena) && Separated(s)
    ensures Separated(Track(s, OpAlloc(size))) <==> Unwrapped(s.arena, size)
    ensures Unwrapped(s.arena, size) ==> Housed(Track(s, OpAlloc(size)).arena)
  {
    var t := Track(s, OpAlloc(size));
    if Unwrapped(s.arena, size) {
      AllocKeepsHoused(s.arena, size);
      AllocKeepsSeparated(s, size);
    } else {
      AllocSoundIff(s.arena, size);
      AllocShape(s.arena, size);
      var g := t.live[s.next];
      assert !InsideBlock(t.arena, g);
    }
  }

  lemma WipeKeepsSeparated(s: Tracked, op: Op)
    requires Inv(s.arena) && !op.OpAlloc? && Separated(s)
    ensures Separated(Track(s, op))
    ensures Housed(s.arena) ==> Housed(Track(s, op).arena)
  {
  }

  /** No allocation of the run wraps around. */
  predicate NeverWraps(a: Arena, ops: seq<Op>)
    requires Inv(a)
    decreases |ops|
  {
    ops == [] || ((ops[0].OpAlloc? ==> Unwrapped(a, ops[0].size)) && NeverWraps(Apply(a, ops[0]), ops[1..]))
  }

  /** The live ranges are separate at the start of a run and after each of its operations. */
  ghost predicate StaySeparated(s: Tracked, ops: seq<Op>)
    requires Inv(s.arena)
  {
    forall k :: 0 <= k <= |ops| ==> Separated(TrackAll(s, ops[..k]))
  }

  lemma StaySeparatedStep(s: Tracked, ops: seq<Op>)
    requires Inv(s.arena) && ops != []
    ensures StaySeparated(s, ops) <==> Separated(s) && StaySeparated(Track(s, ops[0]), ops[1..])
  {
    var t := Track(s, ops[0]);
    assert ops[..0] == [];
    forall k | 0 < k <= |ops| ensures TrackAll(s, ops[..k]) == TrackAll(t, ops[1..][..k - 1]) {
      assert ops[..k][1..] == ops[1..][..k - 1];
    }
    if StaySeparated(s, ops) {
      forall k | 0 <= k <= |ops[1..]| ensures Separated(TrackAll(t, ops[1..][..k])) {
        assert TrackAll(s, ops[..k + 1]) == TrackAll(t, ops[1..][..k]);
      }
    }
  }

  /** Over every run of allocations, resets and shreds of whatever size, the ranges handed out since
      their block's offset was last reset stay inside the memory of their block, 16-aligned and pairwise
      disjoint exactly when no allocation of the run wraps around. */
  lemma {:induction false} LiveRangesSeparated(s: Tracked, ops: seq<Op>)
    requires Inv(s.arena) && Housed(s.arena) && Separated(s)
    ensures StaySeparated(s, ops) <==> NeverWraps(s.arena, ops)
    decreases |ops|
  {
    if ops == [] {
      assert ops[..0] == [];
    } else {
      StaySeparatedStep(s, ops);
      var t := Track(s, ops[0]);
      if ops[0].OpAlloc? {
        AllocSeparatedIff(s, ops[0].size);
      } else {
        WipeKeepsSeparated(s, ops[0]);
      }
      if Separated(t) {
        LiveRangesSeparated(t, ops[1..]);
      } else {
        assert ops[1..][..0] == [];
      }
    }
  }

  // ---------------------------------------------------------------- the same, by the operations of a run

  /** Operation `k` of the run resets the offset of block `b`. */
  predicate ResetsBlock(a: Arena, ops: seq<Op>, k: nat, b: nat)
    requires Inv(a) && k < |ops|
  {
    ResetOffsetOf(Run(a, ops[..k]), ops[k], b)
  }

  /** The range that operation `j` of the run hands out. */
  function Handed(a: Arena, ops: seq<Op>, j: nat): Grant
    requires Inv(a) && j < |ops| && ops[j].OpAlloc?
  {
    Grant(Alloc(Run(a, ops[..j]), ops[j].size).1, ops[j].size)
  }

  lemma {:induction false} TrackAppend(s: Tracked, ops: seq<Op>, op: Op)
    requires Inv(s.arena)
    ensures TrackAll(s, ops + [op]) == Track(TrackAll(s, ops), op)
    decreases |ops|
  {
    if ops == [] {
      assert [] + [op] == [op] && [op][1..] == [];
    } else {
      assert (ops + [op])[1..] == ops[1..] + [op];
      TrackAppend(Track(s, ops[0]), ops[1..], op);
    }
  }

  lemma TrackNext(s: Tracked, ops: seq<Op>, k: nat)
    requires Inv(s.arena) && k < |ops|
    ensures TrackAll(s, ops[..k + 1]) == Track(TrackAll(s, ops[..k]), ops[k])
  {
    assert ops[..k + 1] == ops[..k] + [ops[k]];
    TrackAppend(s, ops[..k], ops[k]);
  }

  /** A range stays among the live ones until its block's offset is reset. */
  lemma {:induction false} HandedStaysLive(s: Tracked, ops: seq<Op>, j: nat, k: nat)
    requires Inv(s.arena) && j < k <= |ops| && ops[j].OpAlloc?
    requires forall i :: j < i < k ==> !ResetsBlock(s.arena, ops, i, Handed(s.arena, ops, j).at.block)
    ensures var n, t := TrackAll(s, ops[..j]).next, TrackAll(s, ops[..k]);
            n < t.next && n in t.live && t.live[n] == Handed(s.arena, ops, j)
    decreases k
  {
    TrackNext(s, ops, k - 1);
    if k > j + 1 {
      assert !ResetsBlock(s.arena, ops, k - 1, Handed(s.arena, ops, j).at.block);
      HandedStaysLive(s, ops, j, k - 1);
    }
  }

  lemma NothingLive(a: Arena)
    ensures Separated(Tracked(a, map[], 0)) && Tracked(a, map[], 0).arena == a
  {
  }

  lemma SeparatedAfter(s: Tracked, ops: seq<Op>, k: nat)
    requires Inv(s.arena) && StaySeparated(s, ops) && k <= |ops|
    ensures Separated(TrackAll(s, ops[..k]))
  {
  }

  lemma LiveInside(t: Tracked, n: nat)
    requires Separated(t) && n in t.live
    ensures InsideBlock(t.arena, t.live[n])
  {
  }

  lemma LiveApart(t: Tracked, m: nat, n: nat)
    requires Separated(t) && m in t.live && n in t.live && m != n
    ensures Disjoint(t.live[m], t.live[n])
  {
  }

  lemma AllocResetsNothing(a: Arena, ops: seq<Op>, k: nat, b: nat)
    requires Inv(a) && k < |ops| && ops[k].OpAlloc?
    ensures !ResetsBlock(a, ops, k, b)
  {
  }

  lemma HandedInside(s: Tracked, ops: seq<Op>, j: nat, k: nat)
    requires Inv(s.arena) && StaySeparated(s, ops) && j < k <= |ops| && ops[j].OpAlloc?
    requires forall i :: j < i < k ==> !ResetsBlock(s.arena, ops, i, Handed(s.arena, ops, j).at.block)
    ensures InsideBlock(Run(s.arena, ops[..k]), Handed(s.arena, ops, j))
  {
    hide *;
    HandedStaysLive(s, ops, j, k);
    SeparatedAfter(s, ops, k);
    LiveInside(TrackAll(s, ops[..k]), TrackAll(s, ops[..j]).next);
  }

  lemma HandedApart(s: Tracked, ops: seq<Op>, j: nat, k: nat)
    requires Inv(s.arena) && StaySeparated(s, ops) && j < k < |ops| && ops[j].OpAlloc? && ops[k].OpAlloc?
    requires forall i :: j < i < k ==> !ResetsBlock(s.arena, ops, i, Handed(s.arena, ops, j).at.block)
    ensures Disjoint(Handed(s.arena, ops, j), Handed(s.arena, ops, k))
  {
    hide *;
    HandedStaysLive(s, ops, j, k);
    AllocResetsNothing(s.arena, ops, k, Handed(s.arena, ops, j).at.block);
    HandedStaysLive(s, ops, j, k + 1);
    HandedStaysLive(s, ops, k, k + 1);
    SeparatedAfter(s, ops, k + 1);
    LiveApart(TrackAll(s, ops[..k + 1]), TrackAll(s, ops[..j]).next, TrackAll(s, ops[..k]).next);
  }

  /** In a run in which no allocation wraps around, from any arena with memory behind its blocks: as long
      as the offset of a block is not reset, a range handed out from it is inside the block's memory, at a
      multiple of 16, and overlaps no range handed out later. */
  lemma HandedOutOnce(a: Arena, ops: seq<Op>, j: nat, k: nat)
    requires Inv(a) && Housed(a) && NeverWraps(a, ops) && j < k <= |ops| && ops[j].OpAlloc?
    requires forall i :: j < i < k ==> !ResetsBlock(a, ops, i, Handed(a, ops, j).at.block)
    ensures InsideBlock(Run(a, ops[..k]), Handed(a, ops, j))
    ensures k < |ops| && ops[k].OpAlloc? ==> Disjoint(Handed(a, ops, j), Handed(a, ops, k))
  {
    hide *;
    var s := Tracked(a, map[], 0);
    NothingLive(a);
    LiveRangesSeparated(s, ops);
    HandedInside(s, ops, j, k);
    if k < |ops| {
      if ops[k].OpAlloc? { HandedApart(s, ops, j, k); }
    }
  }

  lemma ApplyKeepsBounded(a: Arena, op: Op)
    requires Inv(a) && Bounded(a) && (op.OpAlloc? ==> op.size <= MAX_REQUEST)
    ensures Bounded(Apply(a, op))
  {
    if op.OpAlloc? { AllocEffect(a, op.size); }
  }

  /** Requests that a block can hold at all never wrap. */
  lemma {:induction false} ModerateNeverWraps(a: Arena, ops: seq<Op>)
    requires Inv(a) && Bounded(a) && Moderate(ops)
    ensures NeverWraps(a, ops)
    decreases |ops|
  {
    if ops != [] {
      ApplyKeepsBounded(a, ops[0]);
      ModerateNeverWraps(Apply(a, ops[0]), ops[1..]);
    }
  }

  /** So their live ranges are separate in every run from a new arena. */
  lemma ModerateRunSeparated(blockSize: Size, ops: seq<Op>)
    requires blockSize <= MAX_REQUEST && Moderate(ops)
    ensures Inv(Init(blockSize)) && StaySeparated(Tracked(Init(blockSize), map[], 0), ops)
  {
    InitHoused(blockSize);
    ModerateNeverWraps(Init(blockSize), ops);
    LiveRangesSeparated(Tracked(Init(blockSize), map[], 0), ops);
  }

  /** Separation needs the size bound: whatever has been handed out from the current block, a
      request whose rounded size wraps past the offset moves the offset back to 0, and the next
      request that fits is handed the block's first bytes again. */
  lemma HugeRequestOverlaps(a: Arena, size: Size)
    requires Inv(a) && a.blocks[a.current].offset > 0
    requires Align(size) <= a.blocks[a.current].capacity
    ensures var (r, _) := Alloc(a, WORD - a.blocks[a.current].offset);
            Inv(r) && Alloc(r, size).1 == Addr(a.current, 0)
  {
    var huge := WORD - a.blocks[a.current].offset;
    AllocKeepsInv(a, huge);
    assert Advance(a, Align(huge)) == a;
  }

  // ---------------------------------------------------------------- replay after a reset

  /** A list of allocations: the final arena and the addresses handed out. */
  function AllocAll(a: Arena, sizes: seq<Size>): (r: (Arena, seq<Addr>))
    requires Inv(a)
    ensures Inv(r.0) && |r.1| == |sizes|
    decreases |sizes|
  {
    if sizes == [] then (a, [])
    else
      AllocKeepsInv(a, sizes[0]);
      var (b, at) := Alloc(a, sizes[0]);
      var (c, rest) := AllocAll(b, sizes[1..]);
      (c, [at] + rest)
  }

  /** Arena `b` follows arena `a`: the same position and offsets, and possibly more empty blocks. */
  ghost predicate Follows(a: Arena, b: Arena) {
    && a.current == b.current && a.blockSize == b.blockSize
    && |a.blocks| <= |b.blocks|
    && (forall i :: 0 <= i < |a.blocks| ==>
          a.blocks[i].offset == b.blocks[i].offset && a.blocks[i].capacity == b.blocks[i].capacity)
  }

  ghost predicate SameShape(a: Arena, b: Arena) {
    |a.blocks| == |b.blocks|
    && forall i :: 0 <= i < |a.blocks| ==> a.blocks[i].capacity == b.blocks[i].capacity
  }

  /** Where `a` grows, `b` already has the block it needs. */
  ghost predicate Provides(a: Arena, b: Arena, need: Size)
    requires Inv(a)
  {
    var r := Advance(a, need);
    |r.blocks| <= |b.blocks| &&
    forall i :: 0 <= i < |r.blocks| ==> r.blocks[i].capacity == b.blocks[i].capacity
  }

  lemma {:induction false} AdvanceFollows(a: Arena, b: Arena, need: Size)
    requires Inv(a) && Inv(b) && need % 16 == 0
    requires Follows(a, b) && Provides(a, b, need)
    ensures Follows(Advance(a, need), Advance(b, need)) && |Advance(b, need).blocks| == |b.blocks|
    decreases |a.blocks| - a.current
  {
    var c := a.blocks[a.current];
    AdvanceStep(a, need);
    AdvanceStep(b, need);
    if Add(c.offset, need) > c.capacity {
      if a.current + 1 < |a.blocks| {
        hide Inv, Add, Advance;
        AdvanceFollows(a.(current := a.current + 1), b.(current := b.current + 1), need);
      } else {
        EnterNext(a, b, need);
      }
    }
  }

  /** Where `a` grows, `b` moves on to a block that is large enough. */
  lemma EnterNext(a: Arena, b: Arena, need: Size)
    requires Inv(a) && Inv(b) && need % 16 == 0 && Follows(a, b) && Provides(a, b, need)
    requires a.current + 1 == |a.blocks|
    requires var c := a.blocks[a.current]; Add(c.offset, need) > c.capacity
    ensures Follows(Advance(a, need), Advance(b, need)) && |Advance(b, need).blocks| == |b.blocks|
  {
    AdvanceShape(a, need);
    AdvanceStep(a, need);
    AdvanceStep(b, need);
    AdvanceStep(b.(current := b.current + 1), need);
  }

  /** Allocation never changes a capacity and never drops a block. */
  lemma {:induction false} AllocAllGrows(a: Arena, sizes: seq<Size>)
    requires Inv(a)
    ensures var r := AllocAll(a, sizes).0;
            && |a.blocks| <= |r.blocks|
            && forall i :: 0 <= i < |a.blocks| ==> a.blocks[i].capacity == r.blocks[i].capacity
    decreases |sizes|
  {
    if sizes != [] {
      AdvanceShape(a, Align(sizes[0]));
      AllocKeepsInv(a, sizes[0]);
      AllocAllGrows(Alloc(a, sizes[0]).0, sizes[1..]);
    }
  }

  lemma AllocFollows(a: Arena, b: Arena, size: Size)
    requires Inv(a) && Inv(b) && Follows(a, b) && Provides(a, b, Align(size))
    ensures Inv(Alloc(a, size).0) && Inv(Alloc(b, size).0)
    ensures Alloc(b, size).1 == Alloc(a, size).1
    ensures Follows(Alloc(a, size).0, Alloc(b, size).0) && SameShape(Alloc(b, size).0, b)
  {
    AdvanceFollows(a, b, Align(size));
    AllocKeepsInv(a, size);
    AllocKeepsInv(b, size);
    AllocCapacities(a, size);
    AllocCapacities(b, size);
    AdvanceShape(a, Align(size));
    AdvanceShape(b, Align(size));
  }

  /** Allocation moves one offset of what the search leaves. */
  lemma AllocCapacities(a: Arena, size: Size)
    requires Inv(a)
    ensures var r := Alloc(a, size).0; SameShape(r, Advance(a, Align(size)))
  {
    AdvanceShape(a, Align(size));
  }

  lemma {:induction false} ReplayFrom(a: Arena, b: Arena, sizes: seq<Size>)
    requires Inv(a) && Inv(b)
    requires Follows(a, b) && SameShape(AllocAll(a, sizes).0, b)
    ensures AllocAll(b, sizes).1 == AllocAll(a, sizes).1
    ensures SameShape(AllocAll(b, sizes).0, b)
    decreases |sizes|
  {
    if sizes != [] {
      AllocKeepsInv(a, sizes[0]);
      AllocAllGrows(Alloc(a, sizes[0]).0, sizes[1..]);
      AllocCapacities(a, sizes[0]);
      AllocFollows(a, b, sizes[0]);
      ReplayFrom(Alloc(a, sizes[0]).0, Alloc(b, sizes[0]).0, sizes[1..]);
    }
  }

  /** Any list of requests served by a freshly reset arena, served again after another reset, gets
      the same addresses and makes no new block. */
  lemma {:induction false} ResetReplays(a: Arena, sizes: seq<Size>)
    requires Inv(a)
    ensures var first := AllocAll(Reset(a), sizes);
            var second := AllocAll(Reset(first.0), sizes);
            second.1 == first.1 && |second.0.blocks| == |first.0.blocks|
  {
    var start := Reset(a);
    var first := AllocAll(start, sizes);
    AllocAllGrows(start, sizes);
    AllocAllBlockSize(start, sizes);
    ReplayFrom(start, Reset(first.0), sizes);
  }

  lemma {:induction false} AllocAllBlockSize(a: Arena, sizes: seq<Size>)
    requires Inv(a)
    ensures AllocAll(a, sizes).0.blockSize == a.blockSize
    decreases |sizes|
  {
    if sizes != [] {
      AdvanceShape(a, Align(sizes[0]));
      AllocKeepsInv(a, sizes[0]);
      AllocAllBlockSize(Alloc(a, sizes[0]).0, sizes[1..]);
    }
  }

  // ---------------------------------------------------------------- fragmentation

  function TotalOffset(blocks: seq<Block>): nat {
    if blocks == [] then 0 else TotalOffset(blocks[..|blocks| - 1]) + blocks[|blocks| - 1].offset
  }

  function TotalAligned(sizes: seq<Size>): nat
  {
    if sizes == [] then 0 else Align(sizes[0]) + TotalAligned(sizes[1..])
  }

  lemma TotalsAppend(blocks: seq<Block>, b: Block, sizes: seq<Size>, size: Size)
    ensures TotalOffset([]) == 0 && TotalOffset(blocks + [b]) == TotalOffset(blocks) + b.offset
    ensures TotalAligned([]) == 0 && TotalAligned([size] + sizes) == Align(size) + TotalAligned(sizes)
  {
    assert (blocks + [b])[..|blocks|] == blocks;
    assert ([size] + sizes)[1..] == sizes;
  }

  /** `bytes` holds, block by block, the rounded bytes handed out. Next fit opened each block because
      the one before it could not take the block's contents. */
  ghost predicate Charged(blocks: seq<Block>, bytes: seq<nat>) {
    && |bytes| == |blocks|
    && (forall k :: 0 <= k < |bytes| ==> blocks[k].offset <= bytes[k])
    && forall k :: 0 <= k < |bytes| - 1 ==> bytes[k] + bytes[k + 1] > blocks[k].capacity
  }

  function Charge(bytes: seq<nat>, block: nat, need: nat): seq<nat>
    requires block <= |bytes|
  {
    if block < |bytes| then bytes[block := bytes[block] + need] else bytes + [need]
  }

  /** On a chain whose last block is the current one, an allocation goes into that block or, if the
      request does not fit, into a new one behind it. */
  lemma AllocAtEnd(a: Arena, size: Size)
    requires Inv(a) && a.current == |a.blocks| - 1
    ensures var (r, at) := Alloc(a, size);
            var last := a.blocks[a.current];
            && Inv(r) && r.current == |r.blocks| - 1 == at.block
            && if at.block == a.current then
                 r.blocks == a.blocks[a.current := last.(offset := Add(last.offset, Align(size)))]
               else
                 && |r.blocks| == |a.blocks| + 1 && r.blocks[..|a.blocks|] == a.blocks
                 && r.blocks[at.block].offset == Align(size)
                 && Add(last.offset, Align(size)) > last.capacity
  {
    AllocShape(a, size);
    AdvanceShape(a, Align(size));
    var (r, at) := Alloc(a, size);
    if at.block == a.current {
      assert r.blocks == a.blocks[a.current := r.blocks[a.current]];
    }
  }

  lemma SameLength(blocks: seq<Block>, bytes: seq<nat>)
    requires Charged(blocks, bytes)
    ensures |bytes| == |blocks|
  {
  }

  lemma ChargeLast(blocks: seq<Block>, bytes: seq<nat>, need: Size)
    requires Charged(blocks, bytes) && blocks != []
    ensures var n := |blocks| - 1;
            Charged(blocks[n := blocks[n].(offset := Add(blocks[n].offset, need))], bytes[n := bytes[n] + need])
  {
  }

  lemma ChargeFresh(blocks: seq<Block>, bytes: seq<nat>, newest: Block, need: Size)
    requires Charged(blocks, bytes) && blocks != [] && newest.offset == need
    requires var last := blocks[|blocks| - 1]; Add(last.offset, need) > last.capacity
    ensures Charged(blocks + [newest], bytes + [need])
  {
  }

  lemma AllocCharges(a: Arena, size: Size, bytes: seq<nat>)
    requires Inv(a) && a.current == |a.blocks| - 1 && Charged(a.blocks, bytes)
    ensures var (r, at) := Alloc(a, size);
            && Inv(r) && r.current == |r.blocks| - 1 && at.block <= |bytes|
            && Charged(r.blocks, Charge(bytes, at.block, Align(size)))
            && Sum(Charge(bytes, at.block, Align(size))) == Sum(bytes) + Align(size)
  {
    hide Inv, Alloc, Align, Sum, Add, Charged;
    AllocAtEnd(a, size);
    var (r, at) := Alloc(a, size);
    SameLength(a.blocks, bytes);
    if at.block == a.current {
      SumUpdate(bytes, at.block, bytes[at.block] + Align(size));
      ChargeLast(a.blocks, bytes, Align(size));
    } else {
      SumAppend(bytes, Align(size));
      ChargeFresh(a.blocks, bytes, r.blocks[at.block], Align(size));
      assert r.blocks == a.blocks + [r.blocks[at.block]];
    }
  }

  lemma {:induction false} RunCharges(a: Arena, sizes: seq<Size>, bytes: seq<nat>) returns (charged: seq<nat>)
    requires Inv(a) && a.current == |a.blocks| - 1 && Charged(a.blocks, bytes)
    ensures Charged(AllocAll(a, sizes).0.blocks, charged)
    ensures Sum(charged) == Sum(bytes) + TotalAligned(sizes)
    decreases |sizes|
  {
    if sizes == [] {
      charged := bytes;
    } else {
      AllocCharges(a, sizes[0], bytes);
      var (r, at) := Alloc(a, sizes[0]);
      charged := RunCharges(r, sizes[1..], Charge(bytes, at.block, Align(sizes[0])));
    }
  }

  /** Summing the inequality over adjacent blocks counts each block's bytes at most twice. */
  lemma {:induction false} ChargedSum(blocks: seq<Block>, bytes: seq<nat>)
    requires Charged(blocks, bytes) && blocks != []
    ensures var n := |blocks| - 1;
            TotalCapacity(blocks[..n]) + bytes[n] + n <= 2 * Sum(bytes)
  {
    var n := |blocks| - 1;
    if n > 0 {
      ChargedSum(blocks[..n], bytes[..n]);
      assert blocks[..n][..n - 1] == blocks[..n - 1];
    }
  }

  /** Without resets or shreds, for every block size and every list of requests: the capacities recorded
      in the blocks before the last one add up to at most twice the rounded bytes requested, and to
      strictly less once there is more than one block. (Whether there is memory behind them is another
      matter: see Housed.) */
  lemma {:induction false} FragmentationBound(blockSize: Size, sizes: seq<Size>)
    ensures var blocks := AllocAll(Init(blockSize), sizes).0.blocks;
            var n := |blocks| - 1;
            && TotalCapacity(blocks[..n]) <= 2 * TotalAligned(sizes)
            && (n > 0 ==> TotalCapacity(blocks[..n]) < 2 * TotalAligned(sizes))
  {
    var a := Init(blockSize);
    assert Sum([0]) == 0;
    var charged := RunCharges(a, sizes, [0]);
    ChargedSum(AllocAll(a, sizes).0.blocks, charged);
  }

  // ---------------------------------------------------------------- packing, as the offsets show it

  /** The inequality between adjacent blocks, on their offsets. */
  ghost predicate Packed(a: Arena) {
    && a.current == |a.blocks| - 1
    && forall k :: 0 <= k < |a.blocks| - 1 ==>
         a.blocks[k].offset + a.blocks[k + 1].offset > a.blocks[k].capacity
  }

  /** An allocation adds its rounded size to the offsets, less 2^64 if its first comparison wraps;
      otherwise it keeps adjacent blocks packed. */
  lemma {:induction false} AllocKeepsPacked(a: Arena, size: Size)
    requires Inv(a) && a.current == |a.blocks| - 1
    ensures var r := Alloc(a, size).0;
            var wraps := a.blocks[a.current].offset + Align(size) >= WORD;
            && Inv(r) && r.current == |r.blocks| - 1
            && (Packed(a) && !wraps ==> Packed(r))
            && TotalOffset(r.blocks) == TotalOffset(a.blocks) + Align(size) - if wraps then WORD else 0
  {
    AllocAtEnd(a, size);
    var r := Alloc(a, size).0;
    var n := |r.blocks| - 1;
    assert WellFormed(a.blocks[a.current]);
    if n < |a.blocks| {
      assert r.blocks[..n] == a.blocks[..n];
    } else {
      assert forall k :: 0 <= k < |a.blocks| ==> r.blocks[k] == r.blocks[..|a.blocks|][k];
    }
  }

  predicate NeverWrapsAll(a: Arena, sizes: seq<Size>)
    requires Inv(a)
    decreases |sizes|
  {
    sizes == [] || (a.blocks[a.current].offset + Align(sizes[0]) < WORD
                    && (AllocKeepsInv(a, sizes[0]); NeverWrapsAll(Alloc(a, sizes[0]).0, sizes[1..])))
  }

  /** Without resets, the offsets add up to the rounded bytes requested exactly when no first comparison
      wraps around, and adjacent blocks then stay packed. */
  lemma {:induction false} RunKeepsPacked(a: Arena, sizes: seq<Size>)
    requires Inv(a) && a.current == |a.blocks| - 1
    ensures var r := AllocAll(a, sizes).0;
            && TotalOffset(r.blocks) <= TotalOffset(a.blocks) + TotalAligned(sizes)
            && (TotalOffset(r.blocks) == TotalOffset(a.blocks) + TotalAligned(sizes) <==> NeverWrapsAll(a, sizes))
            && (Packed(a) && NeverWrapsAll(a, sizes) ==> Packed(r))
    decreases |sizes|
  {
    if sizes != [] {
      AllocKeepsPacked(a, sizes[0]);
      RunKeepsPacked(Alloc(a, sizes[0]).0, sizes[1..]);
    }
  }
}
