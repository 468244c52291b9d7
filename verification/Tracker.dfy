/** The heap tracker of src/heap.c: a fixed table of pointers and two counters over what the C heap
    has handed out. A freed entry leaves a hole, and the next pointer is stored at the slot numbered
    by the count of live blocks, whatever that slot holds.
 */
module Tracker {
  import opened ArenaModel

  const MAX_HEAPS: nat := 20

  /** The bytes before a block that hold its rounded size. */
  const HEADER_BYTES: Size := 16

  /** A table entry, or a pointer that may be null. */
  datatype Slot = Empty | Holds(p: nat)

  datatype Status = Success | AbortCalculation | AbortNotFound

  /** `heap` maps every block not yet freed to the size in its header. */
  datatype Table = Table(slots: seq<Slot>, active: nat, total: nat, heap: map<nat, Size>)

  /** The bytes behind a set of live blocks. */
  ghost function Bytes(heap: map<nat, Size>): nat
    decreases heap.Keys
  {
    if heap.Keys == {} then 0
    else
      var p :| p in heap.Keys;
      heap[p] + Bytes(heap - {p})
  }

  lemma {:induction false} BytesRemove(heap: map<nat, Size>, p: nat)
    requires p in heap
    ensures Bytes(heap) == heap[p] + Bytes(heap - {p})
    decreases heap.Keys
  {
    var q :| q in heap.Keys && Bytes(heap) == heap[q] + Bytes(heap - {q});
    if q != p {
      BytesRemove(heap - {q}, p);
      BytesRemove(heap - {p}, q);
      assert heap - {q} - {p} == heap - {p} - {q};
    }
  }

  lemma BytesAdd(heap: map<nat, Size>, p: nat, size: Size)
    requires p !in heap
    ensures Bytes(heap[p := size]) == Bytes(heap) + size
  {
    BytesRemove(heap[p := size], p);
    assert heap[p := size] - {p} == heap;
  }

  lemma {:induction false} BytesLess(heap: map<nat, Size>, larger: map<nat, Size>)
    requires heap.Keys == larger.Keys && forall p :: p in heap ==> heap[p] <= larger[p]
    ensures Bytes(heap) <= Bytes(larger)
    decreases heap.Keys
  {
    if heap.Keys != {} {
      var p :| p in heap;
      BytesRemove(heap, p);
      BytesRemove(larger, p);
      BytesLess(heap - {p}, larger - {p});
    }
  }

  lemma {:induction false} BytesShrink(heap: map<nat, Size>, gone: set<nat>)
    ensures Bytes(heap - gone) <= Bytes(heap)
    decreases heap.Keys
  {
    if p :| p in gone && p in heap {
      BytesRemove(heap, p);
      BytesShrink(heap - {p}, gone);
      assert heap - {p} - gone == heap - gone;
    } else {
      assert heap - gone == heap;
    }
  }

  // ---------------------------------------------------------------- the operations on tables

  /** internal_heap_alloc asks for memory only under these conditions. */
  predicate Admits(t: Table, required: Size) {
    required >= 1 && t.active < MAX_HEAPS
  }

  /** internal_heap_alloc, once the C heap has answered with `p`. */
  function Store(t: Table, required: Size, p: nat): Table
    requires |t.slots| == MAX_HEAPS && Admits(t, required)
  {
    var size := Align(required);
    Table(t.slots[t.active := Holds(p)], t.active + 1, (t.total + size) % WORD, t.heap[p := size])
  }

  /** The first slot holding a pointer, or the table size. */
  function IndexOf(slots: seq<Slot>, p: nat): (i: nat)
    ensures i <= |slots|
    ensures i < |slots| ==> slots[i] == Holds(p)
    ensures forall k :: 0 <= k < i ==> slots[k] != Holds(p)
  {
    if slots == [] then 0
    else if slots[0] == Holds(p) then 0
    else 1 + IndexOf(slots[1..], p)
  }

  /** heap_free of a live block. */
  function Release(t: Table, p: nat): (Table, Status)
    requires p in t.heap
  {
    var size := t.heap[p];
    var i := IndexOf(t.slots, p);
    if t.active == 0 || t.total < size then (t, AbortCalculation)
    else if i == |t.slots| then (t, AbortNotFound)
    else (Table(t.slots[i := Empty], t.active - 1, t.total - size, t.heap - {p}), Success)
  }

  predicate Fatal(t: Table) {
    (t.active == 0 && t.total > 0) || (t.active > 0 && t.total == 0)
  }

  function Fresh(): Table {
    Table(seq(MAX_HEAPS, _ => Empty), 0, 0, map[])
  }

  // ---------------------------------------------------------------- what the C heap is asked for

  /** internal_heap_alloc asks for a rounded size and a 16-byte header; the addition may wrap around. */
  function WithHeader(size: Size): Size {
    Add(size, HEADER_BYTES)
  }

  ghost function WithHeaders(heap: map<nat, Size>): map<nat, Size> {
    map p | p in heap :: WithHeader(heap[p])
  }

  /** The bytes the C heap has handed out. Its blocks are disjoint, so these are fewer than there are
      addresses. */
  ghost function Held(heap: map<nat, Size>): nat {
    Bytes(WithHeaders(heap))
  }

  lemma HeldAdd(heap: map<nat, Size>, p: nat, size: Size)
    requires p !in heap
    ensures Held(heap[p := size]) == Held(heap) + WithHeader(size)
  {
    var grown := heap[p := size];
    assert WithHeaders(grown) == WithHeaders(heap)[p := WithHeader(size)];
    BytesAdd(WithHeaders(heap), p, WithHeader(size));
  }

  lemma HeldRemove(heap: map<nat, Size>, p: nat)
    requires p in heap
    ensures Held(heap) == Held(heap - {p}) + WithHeader(heap[p])
  {
    assert WithHeaders(heap - {p}) == WithHeaders(heap) - {p};
    BytesRemove(WithHeaders(heap), p);
  }

  /** The C heap was asked for every live block and its header. */
  ghost predicate MemoryBacked(heap: map<nat, Size>) {
    forall p :: p in heap ==> heap[p] + HEADER_BYTES < WORD
  }

  /** Then the rounded sizes add up to less than the address space. */
  lemma BackedBytes(heap: map<nat, Size>)
    requires MemoryBacked(heap) && Held(heap) < WORD
    ensures Bytes(heap) < WORD
  {
    BytesLess(heap, WithHeaders(heap));
  }

  // ---------------------------------------------------------------- conservation

  /** The counters account for the live blocks, the bytes modulo 2^64, and the table lists distinct live
      blocks. */
  ghost predicate Conserved(t: Table) {
    && |t.slots| == MAX_HEAPS
    && t.active == |t.heap| <= MAX_HEAPS
    && t.total == Bytes(t.heap) % WORD
    && Listed(t.slots, t.heap)
  }

  ghost predicate Listed(slots: seq<Slot>, heap: map<nat, Size>) {
    && (forall i :: 0 <= i < |slots| && slots[i].Holds? ==> slots[i].p in heap)
    && (forall i, j :: 0 <= i < j < |slots| && slots[i].Holds? ==> slots[i] != slots[j])
  }

  lemma WrapAdd(sum: nat, more: nat)
    ensures (sum % WORD + more) % WORD == (sum + more) % WORD
  {
  }

  lemma WrapSubtract(sum: nat, less: Size)
    requires less <= sum && less <= sum % WORD
    ensures sum % WORD - less == (sum - less) % WORD
  {
  }

  lemma ListedStore(slots: seq<Slot>, heap: map<nat, Size>, k: nat, p: nat, size: Size)
    requires Listed(slots, heap) && k < |slots| && p !in heap
    ensures Listed(slots[k := Holds(p)], heap[p := size])
    ensures |heap[p := size]| == |heap| + 1
  {
    assert heap[p := size].Keys == heap.Keys + {p};
    assert |heap[p := size]| == |heap[p := size].Keys| && |heap| == |heap.Keys|;
  }

  /** `size` is `required` rounded up to 16, or 0 if rounding wraps around. */
  predicate RoundedUp(required: Size, size: Size) {
    if required + 15 < WORD then size % 16 == 0 && required <= size < required + 16 else size == 0
  }

  /** The C heap answers with a block it has not handed out: its address is `p`. What is recorded of it
      is the request rounded up, in its header and in the byte counter. */
  lemma StoreConserves(t: Table, required: Size, p: nat)
    requires Conserved(t) && Admits(t, required) && p !in t.heap
    ensures Conserved(Store(t, required, p))
    ensures var u := Store(t, required, p);
            && p in u.heap && RoundedUp(required, u.heap[p]) && u.heap == t.heap[p := u.heap[p]]
            && u.total == (t.total + u.heap[p]) % WORD && u.active == t.active + 1
            && u.slots == t.slots[t.active := Holds(p)]
  {
    BytesAdd(t.heap, p, Align(required));
    WrapAdd(Bytes(t.heap), Align(required));
    ListedStore(t.slots, t.heap, t.active, p, Align(required));
    hide Bytes, Align, Listed;
    assert Store(t, required, p).active == t.active + 1;
  }

  /** Freeing a live block succeeds exactly when the table still lists it and the byte counter covers
      it; else nothing changes. */
  lemma ReleaseConserves(t: Table, p: nat)
    requires Conserved(t) && p in t.heap
    ensures Conserved(Release(t, p).0)
    ensures Release(t, p).1 == Success <==> Holds(p) in t.slots && t.heap[p] <= Bytes(t.heap) % WORD
    ensures Release(t, p).1 != Success ==>
              Release(t, p).0 == t
              && Release(t, p).1 == if t.heap[p] > Bytes(t.heap) % WORD then AbortCalculation else AbortNotFound
    ensures Release(t, p).1 == Success ==>
              && Release(t, p).0.heap == t.heap - {p} && Holds(p) !in Release(t, p).0.slots
              && exists i :: 0 <= i < MAX_HEAPS && t.slots[i] == Holds(p)
                              && Release(t, p).0.slots == t.slots[i := Empty]
  {
    BytesRemove(t.heap, p);
    assert p in t.heap.Keys && |t.heap.Keys| > 0;
    assert (t.heap - {p}).Keys == t.heap.Keys - {p};
    assert |t.heap - {p}| == |t.heap| - 1;
    if t.heap[p] <= t.total { WrapSubtract(Bytes(t.heap), t.heap[p]); }
  }

  /** With every live block backed, the byte counter covers each of them. */
  lemma BackedCovers(t: Table, p: nat)
    requires Conserved(t) && MemoryBacked(t.heap) && Held(t.heap) < WORD && p in t.heap
    ensures t.heap[p] <= Bytes(t.heap) % WORD
    ensures Release(t, p).1 == Success <==> Holds(p) in t.slots
  {
    BackedBytes(t.heap);
    BytesRemove(t.heap, p);
    ReleaseConserves(t, p);
  }

  datatype Event = DoAlloc(required: Size, p: nat) | DoFree(p: nat)

  /** One call of the program: a block handed out is not in use, and frees name live blocks. */
  ghost predicate Legal(t: Table, e: Event) {
    match e
    case DoAlloc(required, p) => Admits(t, required) ==> p !in t.heap
    case DoFree(p) => p in t.heap
  }

  /** A request that is not empty and for which no addition of internal_heap_alloc wraps around. */
  predicate Regular(size: nat) {
    1 <= size <= WORD - 32
  }

  ghost function After(t: Table, e: Event): Table
    requires |t.slots| == MAX_HEAPS && Legal(t, e)
  {
    match e
    case DoAlloc(required, p) => if Admits(t, required) then Store(t, required, p) else t
    case DoFree(p) => Release(t, p).0
  }

  ghost predicate History(t: Table, events: seq<Event>, u: Table)
    decreases |events|
  {
    if events == [] then t == u
    else |t.slots| == MAX_HEAPS && Legal(t, events[0]) && History(After(t, events[0]), events[1..], u)
  }

  /** Block `p` was handed out in the history for a request that rounds up to `size`. */
  ghost predicate HandedOut(events: seq<Event>, p: nat, size: Size) {
    exists k :: 0 <= k < |events| && events[k].DoAlloc? && events[k].p == p && RoundedUp(events[k].required, size)
  }

  lemma HandedOutCons(e: Event, events: seq<Event>, p: nat, size: Size)
    requires HandedOut(events, p, size) || (e.DoAlloc? && e.p == p && RoundedUp(e.required, size))
    ensures HandedOut([e] + events, p, size)
  {
    var all := [e] + events;
    assert all[0] == e;
    if k :| 0 <= k < |events| && events[k].DoAlloc? && events[k].p == p && RoundedUp(events[k].required, size) {
      assert all[k + 1] == events[k];
    }
  }

  lemma AfterSizes(t: Table, e: Event, p: nat)
    requires Conserved(t) && Legal(t, e) && p in After(t, e).heap
    ensures if p in t.heap then After(t, e).heap[p] == t.heap[p]
            else e.DoAlloc? && e.p == p && RoundedUp(e.required, After(t, e).heap[p])
  {
    if e.DoAlloc? {
      if Admits(t, e.required) { StoreConserves(t, e.required, e.p); }
    }
  }

  lemma {:induction false} HistorySizes(t: Table, events: seq<Event>, u: Table, p: nat)
    requires Conserved(t) && History(t, events, u) && p in u.heap
    ensures (p in t.heap && u.heap[p] == t.heap[p]) || HandedOut(events, p, u.heap[p])
    decreases |events|
  {
    if events != [] {
      var e, rest := events[0], events[1..];
      assert events == [e] + rest;
      var v := After(t, e);
      HistoryConserves(t, [e], v);
      HistorySizes(v, rest, u, p);
      if p in v.heap { AfterSizes(t, e, p); }
      if HandedOut(rest, p, u.heap[p]) || p !in t.heap { HandedOutCons(e, rest, p, u.heap[p]); }
    }
  }

  lemma {:induction false} HistoryConserves(t: Table, events: seq<Event>, u: Table)
    requires Conserved(t) && History(t, events, u)
    ensures Conserved(u)
    decreases |events|
  {
    if events != [] {
      match events[0] {
        case DoAlloc(required, p) => if Admits(t, required) { StoreConserves(t, required, p); }
        case DoFree(p) => ReleaseConserves(t, p);
      }
      HistoryConserves(After(t, events[0]), events[1..], u);
    }
  }

  /** No live block has a rounded size of 0 or one that wraps with its header. */
  ghost predicate AllRegular(heap: map<nat, Size>) {
    MemoryBacked(heap) && forall p :: p in heap ==> heap[p] > 0
  }

  lemma {:induction false} HistoryRegular(t: Table, events: seq<Event>, u: Table)
    requires History(t, events, u) && AllRegular(t.heap)
    requires forall i :: 0 <= i < |events| && events[i].DoAlloc? ==> Regular(events[i].required)
    ensures AllRegular(u.heap)
    decreases |events|
  {
    if events != [] {
      forall i | 0 <= i < |events| - 1 ensures events[1..][i] == events[i + 1] {}
      assert AllRegular(After(t, events[0]).heap);
      HistoryRegular(After(t, events[0]), events[1..], u);
    }
  }

  lemma FreshConserved()
    ensures Conserved(Fresh()) && AllRegular(Fresh().heap)
    ensures Held(Fresh().heap) == 0
  {
    assert Bytes(map[]) == 0;
    assert Fresh().heap.Keys == {};
  }

  /** In every history of allocations of any size and frees of live blocks, in any order and whatever the
      table has lost: every live block carries the rounded size of its request, the block counter is
      exact, the byte counter is exact modulo 2^64, the table lists distinct live blocks; a free succeeds
      exactly for a listed block that the byte counter covers; and health is fatal exactly when blocks are
      live and the byte counter has come to 0. */
  lemma {:induction false} TrackerConservation(events: seq<Event>, t: Table)
    requires History(Fresh(), events, t)
    ensures Conserved(t)
    ensures forall p :: p in t.heap ==>
              (Release(t, p).1 == Success <==> Holds(p) in t.slots && t.heap[p] <= Bytes(t.heap) % WORD)
    ensures forall p :: p in t.heap ==> HandedOut(events, p, t.heap[p])
    ensures Fatal(t) <==> t.heap.Keys != {} && Bytes(t.heap) % WORD == 0
  {
    FreshConserved();
    forall p | p in t.heap ensures HandedOut(events, p, t.heap[p]) {
      HistorySizes(Fresh(), events, t, p);
    }
    HistoryConserves(Fresh(), events, t);
    forall p | p in t.heap
      ensures Release(t, p).1 == Success <==> Holds(p) in t.slots && t.heap[p] <= Bytes(t.heap) % WORD
    {
      ReleaseConserves(t, p);
    }
    FatalIff(t);
  }

  /** On any table, consistent or not, health is fatal exactly when one counter is 0 and the other is not. */
  lemma FatalCases(t: Table)
    ensures Fatal(t) <==> (t.active == 0) != (t.total == 0)
  {
  }

  /** Health is fatal exactly when blocks are live and their rounded sizes add up to a multiple of
      2^64. */
  lemma FatalIff(t: Table)
    requires Conserved(t)
    ensures Fatal(t) <==> t.heap.Keys != {} && Bytes(t.heap) % WORD == 0
  {
    assert t.active == |t.heap.Keys|;
    assert t.heap.Keys == {} ==> Bytes(t.heap) == 0;
  }

  /** With every live block backed, one of positive size is enough for health. */
  lemma HealthyWith(t: Table, p: nat)
    requires Conserved(t) && MemoryBacked(t.heap) && Held(t.heap) < WORD && p in t.heap && t.heap[p] > 0
    ensures !Fatal(t)
  {
    BackedCovers(t, p);
    FatalIff(t);
  }

  /** The counters of a table without wrapped sizes. */
  lemma RegularHealthy(t: Table)
    requires Conserved(t) && AllRegular(t.heap) && Held(t.heap) < WORD
    ensures t.total == Bytes(t.heap) && !Fatal(t)
  {
    BackedBytes(t.heap);
    if p :| p in t.heap {
      HealthyWith(t, p);
    } else {
      FatalIff(t);
    }
  }

  /** If moreover every request is at most 2^64 - 32, so that the C heap is asked for every block, then -
      its blocks being disjoint - the byte counter is exact, a free succeeds exactly for a listed block,
      and health is never fatal. */
  lemma {:induction false} RegularHistoryHealthy(events: seq<Event>, t: Table)
    requires History(Fresh(), events, t) && Held(t.heap) < WORD
    requires forall i :: 0 <= i < |events| && events[i].DoAlloc? ==> Regular(events[i].required)
    ensures Conserved(t) && t.total == Bytes(t.heap) && !Fatal(t)
    ensures forall p :: p in t.heap ==> (Release(t, p).1 == Success <==> Holds(p) in t.slots)
  {
    hide Release, Fatal, Conserved, History, Fresh, Bytes, Held;
    FreshConserved();
    HistoryConserves(Fresh(), events, t);
    HistoryRegular(Fresh(), events, t);
    RegularHealthy(t);
    forall p | p in t.heap ensures Release(t, p).1 == Success <==> Holds(p) in t.slots {
      BackedCovers(t, p);
    }
  }

  /** The first allocation leaves the tracker unhealthy exactly when rounding its size wraps. */
  lemma FirstAllocationHealth(required: Size, p: nat)
    requires required >= 1
    ensures Fatal(Store(Fresh(), required, p)) <==> required > WORD - 16
  {
  }

  /** The header counts: for a request of 2^64 - 16 nothing is asked for, so the C heap can serve another
      beside it. The byte counter then wraps to 0: health is fatal, and the first block, though listed,
      cannot be freed. */
  lemma CounterWraps(p: nat, q: nat)
    requires p != q
    ensures WithHeader(WORD - 16) == 0
    ensures var t := Store(Store(Fresh(), WORD - 16, p), 16, q);
            && Conserved(t) && Held(t.heap) == 32 && Fatal(t)
            && Holds(p) in t.slots && p in t.heap && Release(t, p) == (t, AbortCalculation)
  {
    var one := Store(Fresh(), WORD - 16, p);
    var t := Store(one, 16, q);
    TwoStored(p, q);
    hide Store, Bytes, Held, Fresh, Align;
    FreshConserved();
    StoreConserves(Fresh(), WORD - 16, p);
    StoreConserves(one, 16, q);
    HeldAdd(map[], p, WORD - 16);
    HeldAdd(map[p := WORD - 16], q, 16);
  }

  lemma TwoStored(p: nat, q: nat)
    ensures var one := Store(Fresh(), WORD - 16, p);
            var t := Store(one, 16, q);
            && one.heap == map[p := WORD - 16] && t.heap == map[p := WORD - 16][q := 16]
            && one.active == 1 && t.active == 2 && t.total == 0 && |t.slots| == MAX_HEAPS
            && t.slots[0] == Holds(p) && Fresh().heap == map[] && Fresh().active == 0
  {
    assert Align(WORD - 16) == WORD - 16 && Align(16) == 16;
  }

  /** An allocation drops a listed block from the table exactly when that block sits in the slot
      numbered by the live count; freeing the dropped block then fails. */
  lemma StoreLoses(t: Table, required: Size, p: nat, q: nat)
    requires Conserved(t) && Admits(t, required) && p !in t.heap
    requires q in t.heap && Holds(q) in t.slots
    ensures var u := Store(t, required, p);
            && q in u.heap
            && (Holds(q) in u.slots <==> t.slots[t.active] != Holds(q))
            && (Release(u, q).1 == Success <==> t.slots[t.active] != Holds(q) && t.heap[q] <= u.total)
  {
    var u := Store(t, required, p);
    StoreConserves(t, required, p);
    ReleaseConserves(u, q);
    var i := IndexOf(t.slots, q);
    assert t.slots[i] == Holds(q);
    if i != t.active {
      assert u.slots[i] == Holds(q);
    }
  }

  /** The pointers in the first `n` slots. */
  function Swept(slots: seq<Slot>, n: nat): set<nat>
    requires n <= |slots|
  {
    set i: nat | i < n && slots[i].Holds? :: slots[i].p
  }

  function Cleared(slots: seq<Slot>, n: nat): seq<Slot>
    requires n <= |slots|
  {
    seq(|slots|, i requires 0 <= i < |slots| => if i < n then Empty else slots[i])
  }

  /** heap_free_all looks only at the slots below the live count. */
  function Sweep(t: Table): Table
    requires |t.slots| == MAX_HEAPS && t.active <= MAX_HEAPS
  {
    Table(Cleared(t.slots, t.active), 0, 0, t.heap - Swept(t.slots, t.active))
  }

  lemma SweptKeeps(t: Table, p: nat)
    requires Conserved(t)
    ensures p in Sweep(t).heap <==> p in t.heap && forall i :: 0 <= i < t.active ==> t.slots[i] != Holds(p)
  {
  }

  lemma SweptSlots(t: Table)
    requires Conserved(t) && Sweep(t).heap == map[]
    ensures Conserved(Sweep(t))
  {
    var u := Sweep(t);
    forall i | 0 <= i < MAX_HEAPS ensures u.slots[i] == Empty {
      if i >= t.active && t.slots[i].Holds? {
        SweptKeeps(t, t.slots[i].p);
      }
    }
    assert Bytes(map[]) == 0;
  }

  /** It frees and clears just the slots below the live count. */
  lemma SweepFreesBelow(t: Table, i: nat)
    requires Conserved(t) && i < MAX_HEAPS
    ensures var u := Sweep(t);
            && |u.slots| == MAX_HEAPS && u.active == 0 && u.total == 0
            && (i < t.active ==> u.slots[i] == Empty && (t.slots[i].Holds? ==> t.slots[i].p !in u.heap))
            && (i >= t.active ==>
                  && u.slots[i] == t.slots[i]
                  && (t.slots[i].Holds? ==> t.slots[i].p in u.heap && u.heap[t.slots[i].p] == t.heap[t.slots[i].p]))
  {
    if t.slots[i].Holds? { SweptKeeps(t, t.slots[i].p); }
  }

  /** So it leaves the tracker consistent, and no block behind, exactly when no live block lies in a
      later slot or has been dropped from the table. */
  lemma {:induction false} SweepLeavesNothing(t: Table)
    requires Conserved(t)
    ensures Conserved(Sweep(t)) <==> Sweep(t).heap == map[]
    ensures Sweep(t).heap == map[] <==>
            forall p :: p in t.heap ==> exists i :: 0 <= i < t.active && t.slots[i] == Holds(p)
  {
    var u := Sweep(t);
    forall p ensures p in u.heap <==> p in t.heap && forall i :: 0 <= i < t.active ==> t.slots[i] != Holds(p) {
      SweptKeeps(t, p);
    }
    assert u.active == 0 && u.heap.Keys == {} <==> u.heap == map[];
    if u.heap == map[] { SweptSlots(t); }
    assert u.heap.Keys != {} ==> |u.heap| == |u.heap.Keys| > 0;
  }
}
