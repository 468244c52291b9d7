/** A worker's queue is an arena that holds only tasks of one size. This module relates the
    addresses the allocator hands out to the walk a worker makes over the blocks. */
module QueueLayout {
  import opened ArenaModel
  import opened ArenaTheorems
  import opened Numbers

  function Gap(from: nat, to: nat): nat {
    if from < to then to - from else 0
  }

  /** Stepping by `stride` from one offset lands exactly on another. */
  predicate Lands(from: nat, to: nat, stride: nat)
    requires stride > 0
    decreases Gap(from, to)
  {
    from == to || (from < to && Lands(from + stride, to, stride))
  }

  lemma {:induction false} LandsExtends(from: nat, to: nat, stride: nat)
    requires stride > 0 && Lands(from, to, stride)
    ensures Lands(from, to + stride, stride)
    decreases Gap(from, to)
  {
    if from < to {
      LandsExtends(from + stride, to, stride);
    } else {
      assert Lands(from + stride, to + stride, stride);
    }
  }

  /** The cursor positions inside one block. */
  function BlockSlots(b: nat, from: nat, limit: nat, stride: nat): seq<Addr>
    requires stride > 0
    decreases Gap(from, limit)
  {
    if from < limit then [Addr(b, from)] + BlockSlots(b, from + stride, limit, stride) else []
  }

  /** The cursor positions in all blocks from `k` on, wiped or not. */
  function Slots(blocks: seq<Block>, k: nat, stride: nat): seq<Addr>
    requires k <= |blocks| && stride > 0
    decreases |blocks| - k
  {
    if k == |blocks| then []
    else BlockSlots(k, 0, blocks[k].offset, stride) + Slots(blocks, k + 1, stride)
  }

  /** The cursor positions the worker visits: it steps over a wiped block as a whole. */
  function Walk(blocks: seq<Block>, k: nat, stride: nat): seq<Addr>
    requires k <= |blocks| && stride > 0
    decreases |blocks| - k
  {
    if k == |blocks| then []
    else if blocks[k].wiped then Walk(blocks, k + 1, stride)
    else BlockSlots(k, 0, blocks[k].offset, stride) + Walk(blocks, k + 1, stride)
  }

  /** Of a list of addresses, those in blocks that are not wiped. */
  function Unwiped(blocks: seq<Block>, addrs: seq<Addr>): seq<Addr>
    requires forall i :: 0 <= i < |addrs| ==> addrs[i].block < |blocks|
  {
    if addrs == [] then []
    else (if blocks[addrs[0].block].wiped then [] else [addrs[0]]) + Unwiped(blocks, addrs[1..])
  }

  lemma {:induction false} UnwipedConcat(blocks: seq<Block>, s: seq<Addr>, t: seq<Addr>)
    requires forall i :: 0 <= i < |s| ==> s[i].block < |blocks|
    requires forall i :: 0 <= i < |t| ==> t[i].block < |blocks|
    ensures Unwiped(blocks, s + t) == Unwiped(blocks, s) + Unwiped(blocks, t)
  {
    if s == [] {
      assert s + t == t;
    } else {
      assert (s + t)[1..] == s[1..] + t;
      UnwipedConcat(blocks, s[1..], t);
    }
  }

  lemma {:induction false} BlockSlotsIn(blocks: seq<Block>, b: nat, from: nat, limit: nat, stride: nat)
    requires stride > 0 && b < |blocks|
    ensures var s := BlockSlots(b, from, limit, stride);
            && (forall i :: 0 <= i < |s| ==> s[i].block == b)
            && Unwiped(blocks, s) == if blocks[b].wiped then [] else s
    decreases Gap(from, limit)
  {
    if from < limit {
      BlockSlotsIn(blocks, b, from + stride, limit, stride);
    }
  }

  lemma {:induction false} SlotsIn(blocks: seq<Block>, k: nat, stride: nat)
    requires k <= |blocks| && stride > 0
    ensures forall i :: 0 <= i < |Slots(blocks, k, stride)| ==> k <= Slots(blocks, k, stride)[i].block < |blocks|
    decreases |blocks| - k
  {
    if k < |blocks| {
      BlockSlotsIn(blocks, k, 0, blocks[k].offset, stride);
      SlotsIn(blocks, k + 1, stride);
    }
  }

  /** The walk visits exactly the slots of the blocks that are not wiped, in order. */
  lemma {:induction false} WalkIsUnwipedSlots(blocks: seq<Block>, k: nat, stride: nat)
    requires k <= |blocks| && stride > 0
    ensures (forall i :: 0 <= i < |Slots(blocks, k, stride)| ==> Slots(blocks, k, stride)[i].block < |blocks|)
    ensures Walk(blocks, k, stride) == Unwiped(blocks, Slots(blocks, k, stride))
    decreases |blocks| - k
  {
    SlotsIn(blocks, k, stride);
    if k < |blocks| {
      var own, rest := BlockSlots(k, 0, blocks[k].offset, stride), Slots(blocks, k + 1, stride);
      BlockSlotsIn(blocks, k, 0, blocks[k].offset, stride);
      WalkIsUnwipedSlots(blocks, k + 1, stride);
      hide BlockSlots, Unwiped;
      UnwipedConcat(blocks, own, rest);
      assert [] + Unwiped(blocks, rest) == Unwiped(blocks, rest);
    }
  }

  // ---------------------------------------------------------------- allocation appends one slot

  ghost predicate TaskAligned(a: Arena, stride: nat)
    requires stride > 0
  {
    forall i :: 0 <= i < |a.blocks| ==> Lands(0, a.blocks[i].offset, stride)
  }

  lemma {:induction false} BlockSlotsExtend(b: nat, from: nat, limit: nat, stride: nat)
    requires stride > 0 && Lands(from, limit, stride)
    ensures BlockSlots(b, from, limit + stride, stride) == BlockSlots(b, from, limit, stride) + [Addr(b, limit)]
    decreases Gap(from, limit)
  {
    if from < limit {
      BlockSlotsExtend(b, from + stride, limit, stride);
    } else {
      assert BlockSlots(b, from + stride, limit + stride, stride) == [];
    }
  }

  lemma {:induction false} EmptySlots(blocks: seq<Block>, k: nat, stride: nat)
    requires k <= |blocks| && stride > 0
    requires forall i :: k <= i < |blocks| ==> blocks[i].offset == 0
    ensures Slots(blocks, k, stride) == []
    decreases |blocks| - k
  {
    if k < |blocks| { EmptySlots(blocks, k + 1, stride); }
  }

  /** Block `c`, which may be a new one, has taken one more task; the blocks behind it are empty. */
  ghost predicate TakesOne(before: seq<Block>, after: seq<Block>, c: nat, stride: nat)
    requires stride > 0
  {
    && c < |after| && c <= |before|
    && |after| == (if c < |before| then |before| else |before| + 1)
    && (forall i :: 0 <= i < |before| && i != c ==> after[i].offset == before[i].offset)
    && (forall i :: c < i < |before| ==> before[i].offset == 0)
    && Lands(0, OffsetOf(before, c), stride) && after[c].offset == OffsetOf(before, c) + stride
  }

  function OffsetOf(blocks: seq<Block>, c: nat): nat {
    if c < |blocks| then blocks[c].offset else 0
  }

  lemma LastSlots(blocks: seq<Block>, c: nat, stride: nat)
    requires stride > 0 && c <= |blocks| && forall i :: c < i < |blocks| ==> blocks[i].offset == 0
    ensures Slots(blocks, c, stride) == BlockSlots(c, 0, OffsetOf(blocks, c), stride)
  {
    if c < |blocks| {
      EmptySlots(blocks, c + 1, stride);
    }
  }

  lemma SlotsExtendHere(before: seq<Block>, after: seq<Block>, c: nat, stride: nat)
    requires stride > 0 && TakesOne(before, after, c, stride)
    ensures Slots(after, c, stride) == Slots(before, c, stride) + [Addr(c, OffsetOf(before, c))]
  {
    hide Slots, BlockSlots, Lands;
    LastSlots(before, c, stride);
    LastSlots(after, c, stride);
    BlockSlotsExtend(c, 0, OffsetOf(before, c), stride);
  }

  /** Moving one offset by a stride, with nothing stored in later blocks, adds one slot at the end. */
  lemma {:induction false} SlotsExtend(before: seq<Block>, after: seq<Block>, k: nat, c: nat, stride: nat)
    requires stride > 0 && TakesOne(before, after, c, stride) && k <= c
    ensures k <= |before| && Slots(after, k, stride) == Slots(before, k, stride) + [Addr(c, OffsetOf(before, c))]
    decreases c - k
  {
    if k < c {
      SlotsExtend(before, after, k + 1, c, stride);
      assert after[k].offset == before[k].offset && k < |before|;
      hide TakesOne, BlockSlots, OffsetOf;
      var here, rest := BlockSlots(k, 0, before[k].offset, stride), Slots(before, k + 1, stride);
      assert here + (rest + [Addr(c, OffsetOf(before, c))]) == here + rest + [Addr(c, OffsetOf(before, c))];
    } else {
      SlotsExtendHere(before, after, c, stride);
    }
  }

  lemma TaskAllocAddsSlot(a: Arena, size: Size)
    requires Inv(a) && Bounded(a) && 0 < size <= MAX_REQUEST && TaskAligned(a, Align(size))
    ensures var (r, at) := Alloc(a, size);
            && Inv(r) && Bounded(r) && TaskAligned(r, Align(size))
            && Slots(r.blocks, 0, Align(size)) == Slots(a.blocks, 0, Align(size)) + [at]
  {
    AllocEffect(a, size);
    var (r, at) := Alloc(a, size);
    LandsExtends(0, at.offset, Align(size));
    SlotsExtend(a.blocks, r.blocks, 0, at.block, Align(size));
  }

  function Copies(size: Size, n: nat): (r: seq<Size>)
    ensures |r| == n && forall i :: 0 <= i < n ==> r[i] == size
  {
    seq(n, _ => size)
  }

  lemma {:induction false} TasksFillSlots(a: Arena, size: Size, n: nat)
    requires Inv(a) && Bounded(a) && 0 < size <= MAX_REQUEST && TaskAligned(a, Align(size))
    ensures var (r, addrs) := AllocAll(a, Copies(size, n));
            && TaskAligned(r, Align(size))
            && Slots(r.blocks, 0, Align(size)) == Slots(a.blocks, 0, Align(size)) + addrs
    decreases n
  {
    if n > 0 {
      TaskAllocAddsSlot(a, size);
      assert Copies(size, n)[1..] == Copies(size, n - 1);
      TasksFillSlots(Alloc(a, size).0, size, n - 1);
    }
  }

  ghost predicate Empty(a: Arena) {
    a.current == 0 && forall i :: 0 <= i < |a.blocks| ==> a.blocks[i].offset == 0
  }

  /** For any task size, block size and number of tasks put into an empty queue, the worker's walk
      lands, in reservation order, on exactly the slots reserved in blocks that are not wiped. */
  lemma DrainVisitsReservations(a: Arena, size: Size, n: nat)
    requires Inv(a) && Bounded(a) && Empty(a) && 0 < size <= MAX_REQUEST
    ensures var (r, addrs) := AllocAll(a, Copies(size, n));
            && (forall i :: 0 <= i < |addrs| ==> addrs[i].block < |r.blocks|)
            && Walk(r.blocks, 0, Align(size)) == Unwiped(r.blocks, addrs)
  {
    var stride := Align(size);
    TasksFillSlots(a, size, n);
    EmptySlots(a.blocks, 0, stride);
    var (r, addrs) := AllocAll(a, Copies(size, n));
    assert Slots(r.blocks, 0, stride) == addrs;
    WalkIsUnwipedSlots(r.blocks, 0, stride);
  }

  lemma {:induction false} NoneWiped(blocks: seq<Block>, addrs: seq<Addr>)
    requires forall i :: 0 <= i < |addrs| ==> addrs[i].block < |blocks| && !blocks[addrs[i].block].wiped
    ensures Unwiped(blocks, addrs) == addrs
  {
    if addrs != [] {
      forall i | 0 <= i < |addrs| - 1 ensures addrs[1..][i] == addrs[i + 1] {}
      NoneWiped(blocks, addrs[1..]);
    }
  }

  /** The wiped blocks are the first `m`. */
  ghost predicate WipedUpTo(blocks: seq<Block>, m: nat) {
    forall i :: 0 <= i < |blocks| ==> (blocks[i].wiped <==> i < m)
  }

  /** Allocation leaves the flags alone, and new blocks are not wiped. */
  lemma {:induction false} AllocAllKeepsFlags(a: Arena, sizes: seq<Size>, m: nat)
    requires Inv(a) && m <= |a.blocks| && WipedUpTo(a.blocks, m)
    ensures WipedUpTo(AllocAll(a, sizes).0.blocks, m)
    decreases |sizes|
  {
    if sizes != [] {
      AllocShape(a, sizes[0]);
      AllocAllKeepsFlags(Alloc(a, sizes[0]).0, sizes[1..], m);
    }
  }

  /** On an arena that was never reset, a drain with no enqueue beside it visits every task. */
  lemma FirstDrainVisitsAll(blockSize: Size, size: Size, n: nat)
    requires blockSize <= MAX_REQUEST && 0 < size <= MAX_REQUEST
    ensures var (r, addrs) := AllocAll(Init(blockSize), Copies(size, n));
            Walk(r.blocks, 0, Align(size)) == addrs
  {
    var a := Init(blockSize);
    DrainVisitsReservations(a, size, n);
    AllocAllKeepsFlags(a, Copies(size, n), 0);
    var (r, addrs) := AllocAll(a, Copies(size, n));
    NoneWiped(r.blocks, addrs);
  }

  // ---------------------------------------------------------------- what a reset queue drops

  /** How many tasks the first `m` blocks hold, from block `k` on, if each is filled from its start. */
  function Room(blocks: seq<Block>, k: nat, m: nat, stride: nat): nat
    requires m <= |blocks| && stride > 0
    decreases m - k
  {
    if k >= m then 0 else blocks[k].capacity / stride + Room(blocks, k + 1, m, stride)
  }

  /** How many more tasks go into the first `m` blocks. */
  function RoomLeft(a: Arena, m: nat, stride: nat): nat
    requires Inv(a) && m <= |a.blocks| && stride > 0
  {
    if a.current >= m then 0
    else (a.blocks[a.current].capacity - a.blocks[a.current].offset) / stride + Room(a.blocks, a.current + 1, m, stride)
  }

  lemma {:induction false} RoomSame(blocks: seq<Block>, others: seq<Block>, k: nat, m: nat, stride: nat)
    requires m <= |blocks| && m <= |others| && stride > 0
    requires forall i :: 0 <= i < m ==> blocks[i].capacity == others[i].capacity
    ensures Room(blocks, k, m, stride) == Room(others, k, m, stride)
    decreases m - k
  {
    if k < m { RoomSame(blocks, others, k + 1, m, stride); }
  }

  /** A block that cannot take one more task adds nothing to the room left. */
  lemma RoomMovesOn(a: Arena, m: nat, stride: Size)
    requires Inv(a) && Bounded(a) && m <= |a.blocks| && 0 < stride <= WORD / 2
    requires var b := a.blocks[a.current]; Add(b.offset, stride) > b.capacity
    ensures RoomLeft(a, m, stride) == Room(a.blocks, a.current + 1, m, stride)
    ensures a.current + 1 < |a.blocks| ==>
              var c := a.(current := a.current + 1);
              Inv(c) && RoomLeft(c, m, stride) == RoomLeft(a, m, stride)
  {
    var b := a.blocks[a.current];
    assert WellFormed(b);
    QuotientSteps(b.capacity - b.offset, stride);
    if a.current + 1 < |a.blocks| { NextIsEmpty(a); }
  }

  /** The search leaves behind only blocks that have no room for another task. */
  lemma {:induction false} SearchKeepsRoom(a: Arena, m: nat, stride: Size)
    requires Inv(a) && Bounded(a) && m <= |a.blocks| && 0 < stride <= WORD / 2 && stride % 16 == 0
    ensures var r := Advance(a, stride);
            Inv(r) && m <= |r.blocks| && RoomLeft(r, m, stride) == RoomLeft(a, m, stride)
    decreases |a.blocks| - a.current
  {
    AdvanceStep(a, stride);
    AdvanceShape(a, stride);
    hide Inv, Bounded, Advance, RoomLeft, Add, Room;
    CurrentInChain(a);
    var b := a.blocks[a.current];
    if Add(b.offset, stride) > b.capacity {
      RoomMovesOn(a, m, stride);
      if a.current + 1 < |a.blocks| {
        SearchKeepsRoom(a.(current := a.current + 1), m, stride);
      } else {
        NoRoomAtEnd(a, Advance(a, stride), m, stride);
      }
    }
  }

  lemma NoRoomAtEnd(a: Arena, r: Arena, m: nat, stride: Size)
    requires Inv(a) && Inv(r) && m <= |a.blocks| <= r.current && stride > 0 && a.current + 1 == |a.blocks|
    ensures Room(a.blocks, a.current + 1, m, stride) == RoomLeft(r, m, stride)
  {
  }

  /** A block that can take a task has room, and one place less once it has taken it. */
  lemma PlaceTaken(found: Arena, r: Arena, m: nat, stride: Size)
    requires Inv(found) && Inv(r) && m <= |found.blocks| == |r.blocks| && found.current == r.current && stride > 0
    requires var b, c := found.blocks[found.current], r.blocks[found.current];
             b.offset + stride == c.offset && c.capacity == b.capacity
    requires forall i :: 0 <= i < m ==> found.blocks[i].capacity == r.blocks[i].capacity
    ensures found.current < m <==> RoomLeft(found, m, stride) > 0
    ensures RoomLeft(r, m, stride) == if found.current < m then RoomLeft(found, m, stride) - 1 else 0
  {
    var b, c := found.blocks[found.current], r.blocks[found.current];
    assert WellFormed(c);
    var x, q := b.capacity - b.offset, (b.capacity - b.offset) / stride;
    assert x - stride == c.capacity - c.offset;
    assert q > 0 && (x - stride) / stride == q - 1 by {
      hide *;
      QuotientSteps(x, stride);
    }
    hide Inv, Room, WellFormed;
    RoomSame(found.blocks, r.blocks, found.current + 1, m, stride);
  }

  /** A task goes into the first `m` blocks exactly while they have room left, and takes one place. */
  lemma TaskTakesRoom(a: Arena, m: nat, size: Size)
    requires Inv(a) && Bounded(a) && m <= |a.blocks| && 0 < size <= MAX_REQUEST
    ensures var (r, at) := Alloc(a, size);
            var left := RoomLeft(a, m, Align(size));
            && Inv(r) && Bounded(r) && m <= |r.blocks|
            && (at.block < m <==> left > 0)
            && RoomLeft(r, m, Align(size)) == if left > 0 then left - 1 else 0
  {
    var stride := Align(size);
    AllocEffect(a, size);
    AdvanceShape(a, stride);
    SearchKeepsRoom(a, m, stride);
    var found, r := Advance(a, stride), Alloc(a, size).0;
    hide Inv, Bounded, Advance, RoomLeft, Room;
    PlaceTaken(found, r, m, stride);
  }

  lemma {:induction false} TasksTakeRoom(a: Arena, m: nat, size: Size, n: nat)
    requires Inv(a) && Bounded(a) && m <= |a.blocks| && 0 < size <= MAX_REQUEST
    ensures var addrs := AllocAll(a, Copies(size, n)).1;
            forall i :: 0 <= i < n ==> (addrs[i].block < m <==> i < RoomLeft(a, m, Align(size)))
    decreases n
  {
    if n > 0 {
      TaskTakesRoom(a, m, size);
      FirstCopy(a, size, n);
      var (r, at) := Alloc(a, size);
      var rest := AllocAll(r, Copies(size, n - 1)).1;
      TasksTakeRoom(r, m, size, n - 1);
      hide *;
      forall i | 0 <= i < n
        ensures ([at] + rest)[i].block < m <==> i < RoomLeft(a, m, Align(size))
      {
        assert i > 0 ==> ([at] + rest)[i] == rest[i - 1];
      }
    }
  }

  lemma FirstCopy(a: Arena, size: Size, n: nat)
    requires Inv(a) && n > 0
    ensures var (r, at) := Alloc(a, size);
            && Inv(r)
            && AllocAll(a, Copies(size, n))
               == (AllocAll(r, Copies(size, n - 1)).0, [at] + AllocAll(r, Copies(size, n - 1)).1)
  {
    AllocKeepsInv(a, size);
    assert Copies(size, n)[1..] == Copies(size, n - 1);
  }

  lemma {:induction false} UnwipedFrom(blocks: seq<Block>, addrs: seq<Addr>, k: nat)
    requires k <= |addrs| && forall i :: 0 <= i < |addrs| ==> addrs[i].block < |blocks|
    requires forall i :: 0 <= i < |addrs| ==> (blocks[addrs[i].block].wiped <==> i < k)
    ensures Unwiped(blocks, addrs) == addrs[k..]
  {
    if addrs != [] {
      forall i | 0 <= i < |addrs| - 1 ensures addrs[1..][i] == addrs[i + 1] {}
      UnwipedFrom(blocks, addrs[1..], if k > 0 then k - 1 else 0);
    }
  }

  lemma {:induction false} RoomOfEmpty(a: Arena, stride: nat)
    requires Inv(a) && Empty(a) && stride > 0
    ensures RoomLeft(a, |a.blocks|, stride) == Room(a.blocks, 0, |a.blocks|, stride)
  {
  }

  lemma {:induction false} NoRoom(blocks: seq<Block>, k: nat, stride: nat)
    requires k <= |blocks| && stride > 0
    ensures Room(blocks, k, |blocks|, stride) == 0 <==>
            forall i :: k <= i < |blocks| ==> blocks[i].capacity < stride
    decreases |blocks| - k
  {
    if k < |blocks| {
      QuotientSteps(blocks[k].capacity, stride);
      NoRoom(blocks, k + 1, stride);
    }
  }

  function Min(i: nat, j: nat): nat {
    if i < j then i else j
  }

  /** On an empty queue of wiped blocks, the tasks in blocks that are not wiped are those that the wiped
      blocks have no room for. */
  lemma SkippedFirst(start: Arena, size: Size, n: nat)
    requires Inv(start) && Bounded(start) && Empty(start) && 0 < size <= MAX_REQUEST
    requires WipedUpTo(start.blocks, |start.blocks|)
    ensures var (r, addrs) := AllocAll(start, Copies(size, n));
            var room := Room(start.blocks, 0, |start.blocks|, Align(size));
            && (forall i :: 0 <= i < |addrs| ==> addrs[i].block < |r.blocks|)
            && |addrs| == n && Min(n, room) <= n && Unwiped(r.blocks, addrs) == addrs[Min(n, room)..]
            && (n > 0 ==> (addrs[Min(n, room)..] == addrs <==> room == 0))
  {
    var m, k := |start.blocks|, Min(n, Room(start.blocks, 0, |start.blocks|, Align(size)));
    DrainVisitsReservations(start, size, n);
    TasksTakeRoom(start, m, size, n);
    RoomOfEmpty(start, Align(size));
    AllocAllKeepsFlags(start, Copies(size, n), m);
    var (r, addrs) := AllocAll(start, Copies(size, n));
    assert |addrs| == n && (k > 0 ==> |addrs[k..]| < n);
    hide AllocAll, Copies, Inv, Bounded, Empty, Walk, Room, RoomLeft, Align, Unwiped;
    UnwipedFrom(r.blocks, addrs, k);
  }

  lemma ResetStart(a: Arena)
    requires Inv(a) && Bounded(a)
    ensures var start := Reset(a);
            && Inv(start) && Bounded(start) && Empty(start) && |start.blocks| == |a.blocks|
            && WipedUpTo(start.blocks, |start.blocks|)
            && forall i :: 0 <= i < |a.blocks| ==> a.blocks[i].capacity == start.blocks[i].capacity
  {
  }

  lemma StridePositive(size: Size)
    requires 0 < size <= MAX_REQUEST
    ensures Align(size) > 0
  {
  }

  /** The flag that marks a block wiped is never cleared, so after a reset the walk skips the tasks that
      went into the blocks already there: exactly the first ones, as many as those blocks hold. The
      walk sees every task exactly when each of those blocks is too small for one. */
  lemma ReusedBlocksAreSkipped(a: Arena, size: Size, n: nat)
    requires Inv(a) && Bounded(a) && 0 < size <= MAX_REQUEST
    ensures var (r, addrs) := AllocAll(Reset(a), Copies(size, n));
            var stride := Align(size);
            && Walk(r.blocks, 0, stride) == addrs[Min(n, Room(a.blocks, 0, |a.blocks|, stride))..]
            && (n > 0 ==> (Walk(r.blocks, 0, stride) == addrs <==>
                             forall i :: 0 <= i < |a.blocks| ==> a.blocks[i].capacity < stride))
  {
    hide *;
    ResetStart(a);
    StridePositive(size);
    var start, stride, m := Reset(a), Align(size), |a.blocks|;
    DrainVisitsReservations(start, size, n);
    SkippedFirst(start, size, n);
    RoomSame(a.blocks, start.blocks, 0, m, stride);
    NoRoom(a.blocks, 0, stride);
  }
}
