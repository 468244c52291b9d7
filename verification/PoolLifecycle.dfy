/** Building and tearing down pools (src/reactor.c) on the heap tracker: whatever a pool took from
    the table, its destruction gives back.

    A pool record here holds what the lifecycle reads and writes: its own block, the arrays of worker
    and job pointers, the pointers in them (null where an allocation failed), and its mode.
 */
module PoolLifecycle {
  import opened ArenaModel
  import opened Tracker

  const MAX_POOLS: nat := 96
  const MAX_JOBS: nat := 16

  type Request = n: Size | Regular(n) witness 1

  const POOL_BYTES: Request := 96
  const WORKER_BYTES: Request := 104
  const JOB_BYTES: Request := 64
  const POINTER_BYTES: Request := 8

  datatype Mode = PureThreadPool | ReactorEpoll

  // ---------------------------------------------------------------- what is above a table

  /** No slot at or past the count of live blocks is occupied; so it is with a table that has no holes.
      The next allocations then overwrite nothing. */
  ghost predicate TailEmpty(t: Table) {
    |t.slots| == MAX_HEAPS && forall i :: t.active <= i < MAX_HEAPS ==> t.slots[i] == Empty
  }

  /** A table on which pools leave no trace: nothing sits where their blocks go, and the C heap was asked
      for everything that is live, so that the byte counter cannot wrap around. */
  ghost predicate Clean(t: Table) {
    TailEmpty(t) && MemoryBacked(t.heap)
  }

  ghost predicate HeapKept(base: map<nat, Size>, heap: map<nat, Size>, own: set<nat>) {
    && own !! base.Keys && base.Keys + own <= heap.Keys
    && (forall p :: p in base ==> p in heap && heap[p] == base[p])
    && (forall p :: p in own ==> p in heap && 0 < heap[p] < WORD - HEADER_BYTES)
  }

  /** What was live in table `base` still is in table `t`, and so are the blocks `own`. */
  ghost predicate Kept(base: Table, t: Table, own: set<nat>) {
    Conserved(base) && Conserved(t) && HeapKept(base.heap, t.heap, own)
  }

  ghost predicate SlotsAbove(base: Table, slots: seq<Slot>, own: set<nat>) {
    && |base.slots| == |slots| == MAX_HEAPS
    && (forall i :: 0 <= i < MAX_HEAPS && i < base.active ==> slots[i] == base.slots[i])
    && (forall i :: base.active <= i < MAX_HEAPS && slots[i].Holds? ==> slots[i].p in own)
    && (forall p :: p in own ==> Holds(p) in slots)
  }

  /** The blocks `own` are all that has been added to `base`, and the table lists them past base's
      slots. */
  ghost predicate Stacked(base: Table, t: Table, own: set<nat>) {
    && Clean(base) && base.active <= MAX_HEAPS
    && t.heap.Keys == base.heap.Keys + own && SlotsAbove(base, t.slots, own)
  }

  /** What the lifecycle of a pool keeps: nothing live is lost and, on a `clean` table, the pool's blocks
      are stacked on what was there. A table stops being clean when an earlier pool has left blocks
      behind. */
  ghost predicate Above(base: Table, t: Table, own: set<nat>, clean: bool) {
    Kept(base, t, own) && (clean ==> Stacked(base, t, own))
  }

  lemma KeptNothing(base: Table, t: Table)
    requires Kept(base, t, {}) && Stacked(base, t, {})
    ensures t == base
  {
    assert t.heap == base.heap;
    forall i | 0 <= i < MAX_HEAPS ensures t.slots[i] == base.slots[i] {}
    assert t.slots == base.slots;
  }

  lemma AboveSelf(base: Table)
    requires Conserved(base)
    ensures Above(base, base, {}, Clean(base))
  {
    assert {} + base.heap.Keys == base.heap.Keys;
  }

  lemma StackedBacked(base: Table, t: Table, own: set<nat>)
    requires Kept(base, t, own) && Stacked(base, t, own)
    ensures MemoryBacked(t.heap)
  {
  }

  /** On a clean table a pool's own block keeps the tracker healthy. */
  lemma AboveHealthy(base: Table, t: Table, own: set<nat>, clean: bool)
    requires Above(base, t, own, clean) && own != {} && Held(t.heap) < WORD
    ensures clean ==> !Fatal(t)
  {
    if clean {
      StackedBacked(base, t, own);
      var p :| p in own;
      HealthyWith(t, p);
    }
  }

  lemma InUpdate(s: seq<Slot>, i: nat, x: Slot, y: Slot)
    requires i < |s| && y in s && y != s[i]
    ensures y in s[i := x]
  {
    var k :| 0 <= k < |s| && s[k] == y;
    assert s[i := x][k] == y;
  }

  lemma {:induction false} SubsetCount(a: set<nat>, b: set<nat>)
    requires a <= b
    ensures |a| <= |b|
    decreases a
  {
    if a != {} {
      var x :| x in a;
      SubsetCount(a - {x}, b - {x});
    }
  }

  lemma ActiveGrows(base: Table, t: Table, own: set<nat>)
    requires Kept(base, t, own)
    ensures base.active <= t.active <= MAX_HEAPS
  {
    SubsetCount(base.heap.Keys, t.heap.Keys);
  }

  lemma SlotsStore(base: Table, slots: seq<Slot>, own: set<nat>, k: nat, p: nat)
    requires SlotsAbove(base, slots, own) && base.active <= k < MAX_HEAPS && slots[k] == Empty
    ensures SlotsAbove(base, slots[k := Holds(p)], own + {p})
  {
    var after := slots[k := Holds(p)];
    assert after[k] == Holds(p);
    forall q | q in own + {p} ensures Holds(q) in after {
      if q != p { InUpdate(slots, k, Holds(p), Holds(q)); }
    }
  }

  lemma SlotsRelease(base: Table, slots: seq<Slot>, own: set<nat>, k: nat, p: nat)
    requires SlotsAbove(base, slots, own) && base.active <= k < MAX_HEAPS && slots[k] == Holds(p)
    requires forall i :: 0 <= i < MAX_HEAPS && i != k ==> slots[i] != Holds(p)
    ensures SlotsAbove(base, slots[k := Empty], own - {p})
  {
    forall q | q in own - {p} ensures Holds(q) in slots[k := Empty] {
      InUpdate(slots, k, Empty, Holds(q));
    }
  }

  lemma HeapStore(base: map<nat, Size>, heap: map<nat, Size>, own: set<nat>, p: nat, size: Size)
    requires HeapKept(base, heap, own) && p !in heap && 0 < size < WORD - HEADER_BYTES
    ensures p !in own && HeapKept(base, heap[p := size], own + {p})
    ensures heap[p := size].Keys == heap.Keys + {p}
  {
    assert heap[p := size].Keys == heap.Keys + {p};
  }

  lemma HeapRelease(base: map<nat, Size>, heap: map<nat, Size>, own: set<nat>, p: nat)
    requires HeapKept(base, heap, own) && p in own
    ensures p in heap && HeapKept(base, heap - {p}, own - {p}) && HeapKept(base, heap, own - {p})
    ensures (heap - {p}).Keys == heap.Keys - {p}
  {
    assert (heap - {p}).Keys == heap.Keys - {p};
  }

  lemma StoreKeeps(base: Table, t: Table, own: set<nat>, required: Request, p: nat)
    requires Kept(base, t, own) && Admits(t, required) && p !in t.heap
    ensures p !in own && Kept(base, Store(t, required, p), own + {p})
    ensures Store(t, required, p).heap.Keys == t.heap.Keys + {p}
  {
    StoreConserves(t, required, p);
    assert Regular(required);
    hide Conserved, HeapKept, Bytes;
    HeapStore(base.heap, t.heap, own, p, Align(required));
  }

  lemma StoreTail(t: Table, required: Request, p: nat)
    requires TailEmpty(t) && Admits(t, required)
    ensures t.slots[t.active] == Empty && TailEmpty(Store(t, required, p))
  {
  }

  /** With nothing in its tail a table takes an allocation without overwriting a live slot. */
  lemma {:induction false} StoreAbove(base: Table, t: Table, own: set<nat>, clean: bool, required: Request, p: nat)
    requires Above(base, t, own, clean) && (clean ==> TailEmpty(t))
    requires Admits(t, required) && p !in t.heap
    ensures |t.slots| == MAX_HEAPS && Store(t, required, p).active == t.active + 1
    ensures p !in own && Above(base, Store(t, required, p), own + {p}, clean)
    ensures clean ==> TailEmpty(Store(t, required, p))
  {
    StoreKeeps(base, t, own, required, p);
    ActiveGrows(base, t, own);
    if clean {
      StoreTail(t, required, p);
      SlotsStore(base, t.slots, own, t.active, p);
    }
  }

  /** A block of `own` sits past base's slots. */
  lemma {:induction false} OwnIndex(base: Table, t: Table, own: set<nat>, p: nat)
    requires Kept(base, t, own) && Stacked(base, t, own) && p in own
    ensures base.active <= IndexOf(t.slots, p) < |t.slots| == MAX_HEAPS
    ensures forall i :: 0 <= i < MAX_HEAPS && i != IndexOf(t.slots, p) ==> t.slots[i] != Holds(p)
  {
    forall i | 0 <= i < base.active ensures t.slots[i] != Holds(p) {
      assert t.slots[i] == base.slots[i];
    }
  }

  lemma ReleaseKeeps(base: Table, t: Table, own: set<nat>, p: nat)
    requires Kept(base, t, own) && p in own
    ensures p in t.heap && Kept(base, Release(t, p).0, own - {p})
  {
    HeapRelease(base.heap, t.heap, own, p);
    ReleaseConserves(t, p);
  }

  lemma OwnApart(base: Table, t: Table, own: set<nat>)
    requires Kept(base, t, own)
    ensures own !! base.heap.Keys
  {
  }

  lemma ReleaseListed(t: Table, p: nat)
    requires Conserved(t) && p in t.heap && IndexOf(t.slots, p) < |t.slots|
    requires MemoryBacked(t.heap) && Held(t.heap) < WORD
    ensures Release(t, p).1 == Success
    ensures Release(t, p).0.slots == t.slots[IndexOf(t.slots, p) := Empty] && Release(t, p).0.heap == t.heap - {p}
  {
    BackedCovers(t, p);
    assert t.slots[IndexOf(t.slots, p)] == Holds(p);
  }

  lemma ReleaseStacked(base: Table, t: Table, own: set<nat>, p: nat)
    requires Kept(base, t, own) && Stacked(base, t, own) && p in own && Held(t.heap) < WORD
    ensures p in t.heap && Release(t, p).1 == Success && Stacked(base, Release(t, p).0, own - {p})
  {
    OwnIndex(base, t, own, p);
    StackedBacked(base, t, own);
    HeapRelease(base.heap, t.heap, own, p);
    OwnApart(base, t, own);
    hide Conserved, HeapKept, Release, SlotsAbove, Clean, Held, MemoryBacked;
    ReleaseListed(t, p);
    SlotsRelease(base, t.slots, own, IndexOf(t.slots, p), p);
  }

  /** A pool frees its own block without touching anything else; on a clean table the block is found. */
  lemma {:induction false} ReleaseAbove(base: Table, t: Table, own: set<nat>, clean: bool, p: nat)
    requires Above(base, t, own, clean) && p in own && Held(t.heap) < WORD
    ensures p in t.heap && Above(base, Release(t, p).0, own - {p}, clean)
    ensures clean ==> Release(t, p).1 == Success
  {
    ReleaseKeeps(base, t, own, p);
    if clean { ReleaseStacked(base, t, own, p); }
  }
}
