/** The pool constructors and destructors of src/reactor.c, run on the heap tracker. */
module PoolObject {
  import opened ArenaModel
  import opened Tracker
  import opened TrackerObject
  import opened PoolLifecycle

  ghost function Pointers(s: seq<Slot>): set<nat> {
    set i | 0 <= i < |s| && s[i].Holds? :: s[i].p
  }

  ghost function Pointer(r: Slot): set<nat> {
    if r.Holds? then {r.p} else {}
  }

  ghost predicate Distinct(s: seq<Slot>) {
    forall i, j :: 0 <= i < j < |s| && s[i].Holds? ==> s[i] != s[j]
  }

  /** A list of pointers that are distinct and not in a given set. */
  ghost predicate New(s: seq<Slot>, own: set<nat>) {
    Distinct(s) && Pointers(s) !! own
  }

  lemma PointersAppend(s: seq<Slot>, r: Slot)
    ensures Pointers(s + [r]) == Pointers(s) + Pointer(r)
  {
    var t := s + [r];
    forall p ensures p in Pointers(t) <==> p in Pointers(s) + Pointer(r) {
      if p in Pointers(s) {
        var i :| 0 <= i < |s| && s[i] == Holds(p);
        assert t[i] == Holds(p);
      }
      if r == Holds(p) {
        assert t[|s|] == Holds(p);
      }
    }
  }

  lemma NewAppend(s: seq<Slot>, own: set<nat>, r: Slot)
    requires New(s, own) && Pointer(r) !! own + Pointers(s)
    ensures New(s + [r], own) && own + Pointers(s + [r]) == own + Pointers(s) + Pointer(r)
  {
    PointersAppend(s, r);
    forall k | 0 <= k < |s| && s[k].Holds? ensures s[k] != r {
      assert s[k].p in Pointers(s);
    }
  }

  lemma NewSkip(s: seq<Slot>, own: set<nat>)
    requires New(s, own)
    ensures New(s + [Empty], own) && own + Pointers(s + [Empty]) == own + Pointers(s)
  {
    NewAppend(s, own, Empty);
    assert own + Pointers(s) + {} == own + Pointers(s);
  }

  lemma NewNothing(own: set<nat>)
    ensures New([], own) && own + Pointers([]) == own && own - Pointers([]) == own
  {
  }

  /** Removing the pointers of a list one after another. */
  lemma GiveNext(s: seq<Slot>, own: set<nat>, i: nat)
    requires Distinct(s) && Pointers(s) <= own && i < |s|
    ensures Pointer(s[i]) <= own - Pointers(s[..i])
    ensures own - Pointers(s[..i + 1]) == own - Pointers(s[..i]) - Pointer(s[i])
  {
    assert s[..i + 1] == s[..i] + [s[i]];
    PointersAppend(s[..i], s[i]);
    if s[i].Holds? {
      assert s[i].p in Pointers(s);
    }
  }

  /** The C heap's block at `r`, if there is one, is made for this many bytes. */
  predicate HasSize(heap: map<nat, Size>, r: Slot, bytes: nat) {
    r.Holds? ==> r.p in heap && heap[r.p] % 16 == 0 && bytes <= heap[r.p] < bytes + 16
  }

  /** A 64-bit counter. */
  function Wrapped(sum: nat): nat {
    sum % WORD
  }

  /** The room that an array of `n` pointers needs. */
  function PointersRoom(n: int): nat {
    if n < 0 then 0 else 8 * n
  }

  function Rounded(bytes: nat): nat {
    bytes + 15 - (bytes + 15) % 16
  }

  lemma RoundedIsAlign(bytes: Request)
    ensures Align(bytes) == Rounded(bytes)
  {
    assert Regular(bytes);
  }

  /** What a list of pointers adds to the byte counter if each block has this size. */
  function BytesOf(s: seq<Slot>, size: nat): nat {
    if s == [] then 0 else BytesOf(s[..|s| - 1], size) + if s[|s| - 1].Holds? then size else 0
  }

  lemma BytesOfAppend(s: seq<Slot>, r: Slot, size: nat)
    ensures BytesOf([], size) == 0
    ensures BytesOf(s + [r], size) == BytesOf(s, size) + if r.Holds? then size else 0
  {
    assert (s + [r])[..|s|] == s;
  }

  /** Blocks that are live stay so, with their sizes. */
  ghost predicate Grown(before: map<nat, Size>, after: map<nat, Size>) {
    forall p :: p in before ==> p in after && after[p] == before[p]
  }

  /** The block at `r`, if there is one, is new and made for this many bytes; nothing else is. */
  ghost predicate Taken(before: map<nat, Size>, after: map<nat, Size>, r: Slot, bytes: Request) {
    if r.Holds? then r.p !in before && after == before[r.p := Align(bytes)] else after == before
  }

  lemma GrownBoth(a: map<nat, Size>, b: map<nat, Size>, c: map<nat, Size>)
    requires Grown(a, b) && Grown(b, c)
    ensures Grown(a, c)
  {
  }

  lemma NothingTaken(heap: map<nat, Size>, bytes: Request)
    ensures Taken(heap, heap, Empty, bytes)
  {
  }

  lemma GrownHasSize(a: map<nat, Size>, b: map<nat, Size>, r: Slot, bytes: nat)
    requires Grown(a, b) && HasSize(a, r, bytes)
    ensures HasSize(b, r, bytes)
  {
  }

  lemma TakenSize(before: map<nat, Size>, after: map<nat, Size>, r: Slot, bytes: Request)
    requires Taken(before, after, r, bytes)
    ensures Grown(before, after) && HasSize(after, r, bytes)
  {
    assert Regular(bytes);
  }

  lemma NullHasSize(heap: map<nat, Size>, bytes: nat)
    ensures HasSize(heap, Empty, bytes)
  {
  }

  /** Each pointer of a list has a block of this size. */
  ghost predicate EachHasSize(heap: map<nat, Size>, s: seq<Slot>, bytes: nat) {
    forall i :: 0 <= i < |s| ==> HasSize(heap, s[i], bytes)
  }

  lemma EachHasSizeAppend(a: map<nat, Size>, b: map<nat, Size>, s: seq<Slot>, r: Slot, bytes: nat)
    requires Grown(a, b) && EachHasSize(a, s, bytes) && HasSize(b, r, bytes)
    ensures EachHasSize(b, s + [r], bytes)
  {
  }

  lemma EachGrown(a: map<nat, Size>, b: map<nat, Size>, s: seq<Slot>, bytes: nat)
    requires Grown(a, b) && EachHasSize(a, s, bytes)
    ensures EachHasSize(b, s, bytes)
  {
  }

  lemma NoneHasSize(heap: map<nat, Size>, bytes: nat)
    ensures EachHasSize(heap, [], bytes) && Grown(heap, heap)
  {
  }

  /** pool_t, as far as its lifecycle reads and writes it. */
  class PoolRecord {
    const self: Slot
    const mode: Mode
    var workersArray: Slot
    var workers: seq<Slot>
    var workerCount: int
    var jobsArray: Slot
    var jobs: seq<Slot>
    var jobCount: int

    constructor (self: Slot, mode: Mode)
      ensures this.self == self && this.mode == mode
      ensures workersArray == jobsArray == Empty && workers == jobs == [] && workerCount == jobCount == 0
    {
      this.self, this.mode := self, mode;
      workersArray, jobsArray, workers, jobs, workerCount, jobCount := Empty, Empty, [], [], 0, 0;
    }

    ghost function JobBlocks(): set<nat>
      reads this
    {
      Pointer(jobsArray) + Pointers(jobs)
    }

    ghost function WorkerBlocks(): set<nat>
      reads this
    {
      Pointer(workersArray) + Pointers(workers)
    }

    ghost function Owned(): set<nat>
      reads this
    {
      Pointer(self) + JobBlocks() + WorkerBlocks()
    }

    /** Each block is as large as what the program keeps in it: the record itself, an array of pointers for
        all entries, and a worker or job for each entry that is not null. */
    ghost predicate Sized(heap: map<nat, Size>)
      reads this
    {
      && workerCount >= 0 && jobCount >= 0
      && HasSize(heap, self, 96)
      && HasSize(heap, workersArray, PointersRoom(workerCount))
      && HasSize(heap, jobsArray, PointersRoom(jobCount))
      && EachHasSize(heap, workers, 104) && EachHasSize(heap, jobs, 64)
    }

    /** What the record's blocks add to the byte counter. */
    ghost function Counted(): nat
      requires workerCount >= 0 && jobCount >= 0
      reads this
    {
      CountedArrays() + CountedEntries()
    }

    ghost function CountedArrays(): nat
      requires workerCount >= 0 && jobCount >= 0
      reads this
    {
      (if self.Holds? then Rounded(POOL_BYTES) else 0)
      + (if jobsArray.Holds? then Rounded(PointersRoom(jobCount)) else 0)
      + (if workersArray.Holds? then Rounded(PointersRoom(workerCount)) else 0)
    }

    ghost function CountedEntries(): nat
      reads this
    {
      BytesOf(jobs, Rounded(JOB_BYTES)) + BytesOf(workers, Rounded(WORKER_BYTES))
    }

    /** The record lists its blocks once each. */
    ghost predicate Intact()
      reads this
    {
      && self.Holds? && workersArray.Holds?
      && workerCount == |workers| && jobCount == |jobs|
      && Distinct(workers) && Distinct(jobs)
      && Pointer(self) !! Pointer(jobsArray) !! Pointer(workersArray) !! Pointers(jobs) !! Pointers(workers)
    }
  }

  /** One allocation on behalf of a pool: unless the C heap refuses, it succeeds while the table has
      not reached its limit. */
  method Take(t: HeapTracker, bytes: Request, ghost base: Table, ghost own: set<nat>, ghost clean: bool)
    returns (r: Slot)
    requires t.Valid() && Above(base, t.View(), own, clean) && (clean ==> TailEmpty(t.View()))
    modifies t, t.slots
    ensures t.Valid() && (clean ==> TailEmpty(t.View()))
    ensures Pointer(r) !! own && Above(base, t.View(), own + Pointer(r), clean)
    ensures r == Empty ==> Above(base, t.View(), own, clean)
    ensures t.active == old(t.active) + if r.Holds? then 1 else 0
    ensures Taken(old(t.heap), t.heap, r, bytes)
    ensures t.total == if r.Holds? then Wrapped(old(t.total) + Rounded(bytes)) else old(t.total)
    ensures t.refusals >= old(t.refusals)
    ensures t.refusals == old(t.refusals) ==> (r.Holds? <==> old(t.active) < MAX_HEAPS)
  {
    hide *;
    ghost var before := t.View();
    ViewIs(t);
    RequestIs(bytes);
    r := t.Alloc(bytes);
    ViewIs(t);
    PointerIs(r, own);
    if r.Holds? {
      StoreAbove(base, before, own, clean, bytes, r.p);
      StoreTakes(before, bytes, r.p);
    } else {
      NothingTaken(t.heap, bytes);
    }
  }

  lemma ViewIs(t: HeapTracker)
    ensures t.View().heap == t.heap && t.View().active == t.active && t.View().total == t.total
  {
  }

  lemma RequestIs(bytes: Request)
    ensures bytes >= 1 && MAX_HEAPS == 20
  {
    assert Regular(bytes);
  }

  lemma PointerIs(r: Slot, own: set<nat>)
    ensures if r.Holds? then Pointer(r) == {r.p} else Pointer(r) == {} && own + Pointer(r) == own
  {
  }

  lemma StoreTakes(t: Table, bytes: Request, p: nat)
    requires |t.slots| == MAX_HEAPS && Admits(t, bytes) && p !in t.heap
    ensures var u := Store(t, bytes, p);
            Taken(t.heap, u.heap, Holds(p), bytes) && u.total == Wrapped(t.total + Rounded(bytes))
  {
    hide Align, Rounded;
    RoundedIsAlign(bytes);
    StoreFields(t, bytes, p);
    hide Store, Wrapped;
    assert Taken(t.heap, Store(t, bytes, p).heap, Holds(p), bytes);
  }

  lemma StoreFields(t: Table, required: Size, p: nat)
    requires |t.slots| == MAX_HEAPS && Admits(t, required)
    ensures var u := Store(t, required, p);
            u.heap == t.heap[p := Align(required)] && u.total == Wrapped(t.total + Align(required))
  {
    hide Align;
    assert Store(t, required, p).total == (t.total + Align(required)) % WORD;
  }

  lemma HeldBound(t: HeapTracker)
    requires t.Valid()
    ensures Held(t.View().heap) < WORD
  {
  }

  lemma ActiveBound(t: HeapTracker)
    requires t.Valid()
    ensures t.active <= MAX_HEAPS && t.total < WORD
  {
    assert t.View().active <= MAX_HEAPS && t.View().total < WORD;
  }

  /** One free on behalf of a pool; the pointer may be null. */
  method Give(t: HeapTracker, r: Slot, ghost base: Table, ghost own: set<nat>, ghost clean: bool)
    requires t.Valid() && Above(base, t.View(), own, clean) && Pointer(r) <= own
    modifies t, t.slots
    ensures t.Valid() && Above(base, t.View(), own - Pointer(r), clean) && t.refusals == old(t.refusals)
  {
    hide Above, HeapTracker.Valid;
    ghost var before := t.View();
    if r.Holds? {
      assert r.p in Pointer(r);
      HeldBound(t);
      ReleaseAbove(base, before, own, clean, r.p);
    } else {
      assert own - Pointer(r) == own;
    }
    var status := t.Free(r);
  }

  /** The init_worker or init_job calls of a constructor: each asks for one block, and leaves its
      entry null if the tracker is unhealthy or refuses. */
  method TakeEach(t: HeapTracker, n: nat, bytes: Request, ghost base: Table, ghost own: set<nat>, ghost clean: bool)
    returns (slots: seq<Slot>)
    requires t.Valid() && Above(base, t.View(), own, clean) && (clean ==> TailEmpty(t.View())) && own != {}
    modifies t, t.slots
    ensures t.Valid() && (clean ==> TailEmpty(t.View()))
    ensures |slots| == n && New(slots, own) && Above(base, t.View(), own + Pointers(slots), clean)
    ensures Grown(old(t.heap), t.heap) && EachHasSize(t.heap, slots, bytes)
    ensures t.total == Wrapped(old(t.total) + BytesOf(slots, Rounded(bytes)))
    ensures t.refusals >= old(t.refusals)
    ensures clean && t.refusals == old(t.refusals) ==>
              && t.active == UpToLimit(old(t.active) + n)
              && forall i :: 0 <= i < n ==> (slots[i].Holds? <==> old(t.active) + i < MAX_HEAPS)
  {
    hide *;
    slots := [];
    NewNothing(own);
    NoneHasSize(t.heap, bytes);
    BytesOfAppend([], Empty, Rounded(bytes));
    RoundedIsAlign(bytes);
    ActiveBound(t);
    NotWrapped(t.total);
    LimitStep(t.active);
    for i := 0 to n
      invariant t.Valid() && (clean ==> TailEmpty(t.View()))
      invariant |slots| == i && New(slots, own) && Above(base, t.View(), own + Pointers(slots), clean)
      invariant Grown(old(t.heap), t.heap) && EachHasSize(t.heap, slots, bytes)
      invariant t.total == Wrapped(old(t.total) + BytesOf(slots, Rounded(bytes)))
      invariant t.refusals >= old(t.refusals)
      invariant clean && t.refusals == old(t.refusals) ==>
                  && t.active == UpToLimit(old(t.active) + i)
                  && forall k :: 0 <= k < i ==> (slots[k].Holds? <==> old(t.active) + k < MAX_HEAPS)
    {
      HeldBound(t);
      AboveHealthy(base, t.View(), own + Pointers(slots), clean);
      LimitStep(old(t.active) + i);
      var healthy := t.Healthy();
      if healthy {
        ghost var heap := t.heap;
        var r := Take(t, bytes, base, own + Pointers(slots), clean);
        NewAppend(slots, own, r);
        TakeSizes(old(t.heap), heap, t.heap, slots, r, bytes);
        BytesOfAppend(slots, r, Rounded(bytes));
        TwoTotals(old(t.total), BytesOf(slots, Rounded(bytes)), Rounded(bytes));
        slots := slots + [r];
      } else {
        NewSkip(slots, own);
        NothingTaken(t.heap, bytes);
        TakeSizes(old(t.heap), t.heap, t.heap, slots, Empty, bytes);
        BytesOfAppend(slots, Empty, Rounded(bytes));
        slots := slots + [Empty];
      }
    }
  }

  /** What one more entry does to the sizes. */
  lemma TakeSizes(first: map<nat, Size>, heap: map<nat, Size>, after: map<nat, Size>, s: seq<Slot>, r: Slot,
                  bytes: Request)
    requires Grown(first, heap) && EachHasSize(heap, s, bytes)
    requires Taken(heap, after, r, bytes)
    ensures Grown(first, after) && Grown(heap, after) && HasSize(after, r, bytes) && EachHasSize(after, s + [r], bytes)
  {
    TakenSize(heap, after, r, bytes);
    hide *;
    GrownBoth(first, heap, after);
    EachHasSizeAppend(heap, after, s, r, bytes);
  }

  function UpToLimit(n: nat): nat {
    if n <= MAX_HEAPS then n else MAX_HEAPS
  }

  lemma LimitStep(n: nat)
    ensures n <= MAX_HEAPS ==> UpToLimit(n) == n
    ensures UpToLimit(n + 1) == UpToLimit(n) + if n < MAX_HEAPS then 1 else 0
    ensures UpToLimit(n) < MAX_HEAPS <==> n < MAX_HEAPS
  {
  }

  /** The freeing loop of a destructor, which steps over null entries. */
  method GiveEach(t: HeapTracker, slots: seq<Slot>, ghost base: Table, ghost own: set<nat>, ghost clean: bool)
    requires t.Valid() && Above(base, t.View(), own, clean)
    requires Distinct(slots) && Pointers(slots) <= own
    modifies t, t.slots
    ensures t.Valid() && Above(base, t.View(), own - Pointers(slots), clean) && t.refusals == old(t.refusals)
  {
    hide *;
    assert slots[..0] == [];
    NewNothing(own);
    for i := 0 to |slots|
      invariant t.Valid() && Above(base, t.View(), own - Pointers(slots[..i]), clean)
      invariant t.refusals == old(t.refusals)
    {
      GiveNext(slots, own, i);
      Give(t, slots[i], base, own - Pointers(slots[..i]), clean);
    }
    assert slots[..|slots|] == slots;
  }

  predicate WorkersInRange(n: int): (r: bool)
    ensures r <==> !(n < 1) && !(n > 96)
  {
    1 <= n <= MAX_POOLS
  }

  predicate JobsInRange(n: int): (r: bool)
    ensures r <==> !(n < 1) && !(n > 16)
  {
    1 <= n <= MAX_JOBS
  }

  /** The size of an array of worker or job pointers. */
  function ArrayBytes(n: int): Request
    requires WorkersInRange(n) || JobsInRange(n)
  {
    POINTER_BYTES * n
  }

  predicate SharedFlag(pshared: int) {
    pshared == 0 || pshared == 1
  }

  function ModeOf(epollfd: int): Mode {
    if epollfd != -1 then ReactorEpoll else PureThreadPool
  }

  /** The blocks of a record, in the order a mixed constructor takes them, are the record's own. */
  lemma Assembled(pool: PoolRecord)
    requires pool.self.Holds? && pool.workersArray.Holds?
    requires pool.workerCount == |pool.workers| && pool.jobCount == |pool.jobs|
    requires Pointer(pool.jobsArray) !! Pointer(pool.self)
    requires Pointer(pool.workersArray) !! Pointer(pool.self) + Pointer(pool.jobsArray)
    requires var own := Pointer(pool.self) + Pointer(pool.jobsArray) + Pointer(pool.workersArray);
             New(pool.jobs, own) && New(pool.workers, own + Pointers(pool.jobs))
    ensures pool.Intact()
    ensures pool.Owned() == Pointer(pool.self) + Pointer(pool.jobsArray) + Pointer(pool.workersArray)
                            + Pointers(pool.jobs) + Pointers(pool.workers)
  {
  }

  lemma AssembledThreads(pool: PoolRecord)
    requires pool.self.Holds? && pool.workersArray.Holds? && pool.workerCount == |pool.workers|
    requires pool.jobsArray == Empty && pool.jobs == [] && pool.jobCount == 0
    requires Pointer(pool.workersArray) !! Pointer(pool.self)
    requires New(pool.workers, Pointer(pool.self) + Pointer(pool.workersArray))
    ensures pool.Intact() && pool.JobBlocks() == {}
    ensures pool.Owned() == Pointer(pool.self) + Pointer(pool.workersArray) + Pointers(pool.workers)
  {
    var own := Pointer(pool.self) + Pointer(pool.workersArray);
    assert Pointer(pool.self) + Pointer(pool.jobsArray) + Pointer(pool.workersArray) == own;
    assert own + Pointers(pool.jobs) == own;
    assert New(pool.jobs, own);
    Assembled(pool);
  }

  lemma FirstPointer(r: Slot)
    ensures {} + Pointer(r) == Pointer(r) && Pointer(r) - Pointer(r) == {}
    ensures r != Empty <==> Pointer(r) != {}
  {
  }

  lemma TwoPointers(r: Slot, q: Slot)
    requires Pointer(q) !! Pointer(r)
    ensures Pointer(r) + Pointer(q) - Pointer(q) == Pointer(r)
  {
  }

  /** The blocks a constructor's result owns. */
  ghost function OwnedBy(pool: PoolRecord?): set<nat>
    reads pool
  {
    if pool == null then {} else pool.Owned()
  }

  /** What taking one block after another does to sizes and to the byte counter. */
  lemma TwoSizes(first: map<nat, Size>, second: map<nat, Size>, third: map<nat, Size>, r: Slot, q: Slot,
                 bytes: Request, more: Request)
    requires Taken(first, second, r, bytes) && Taken(second, third, q, more)
    ensures Grown(first, third) && HasSize(third, r, bytes) && HasSize(third, q, more)
  {
    TakenSize(first, second, r, bytes);
    TakenSize(second, third, q, more);
    hide *;
    GrownBoth(first, second, third);
    GrownHasSize(second, third, r, bytes);
  }

  lemma NotWrapped(total: nat)
    requires total < WORD
    ensures Wrapped(total) == total
  {
  }

  lemma TwoTotals(start: nat, a: nat, b: nat)
    ensures Wrapped(Wrapped(start + a) + b) == Wrapped(start + a + b)
  {
    WrapAdd(start + a, b);
  }

  /** The first two blocks of a thread pool, or none of them. */
  method TakeTwo(t: HeapTracker, workerCount: int, ghost base: Table, ghost clean: bool)
    returns (self: Slot, workersArray: Slot)
    requires WorkersInRange(workerCount)
    requires t.Valid() && Above(base, t.View(), {}, clean) && (clean ==> TailEmpty(t.View()))
    modifies t, t.slots
    ensures t.Valid()
    ensures self == Empty ==> Above(base, t.View(), {}, clean)
    ensures self.Holds? ==>
              && workersArray.Holds? && Pointer(workersArray) !! Pointer(self)
              && Above(base, t.View(), Pointer(self) + Pointer(workersArray), clean)
              && (clean ==> TailEmpty(t.View())) && t.active == old(t.active) + 2
    ensures self.Holds? ==>
              && HasSize(t.heap, self, POOL_BYTES) && HasSize(t.heap, workersArray, PointersRoom(workerCount))
              && t.total == Wrapped(old(t.total) + Rounded(POOL_BYTES) + Rounded(PointersRoom(workerCount)))
    ensures t.refusals >= old(t.refusals)
    ensures t.refusals == old(t.refusals) ==> (self.Holds? <==> old(t.active) + 2 <= MAX_HEAPS)
  {
    hide *;
    ArraySize(workerCount);
    workersArray := Empty;
    self := Take(t, POOL_BYTES, base, {}, clean);
    FirstPointer(self);
    if self == Empty {
      return;
    }
    ghost var heap := t.heap;
    workersArray := Take(t, ArrayBytes(workerCount), base, Pointer(self), clean);
    if workersArray == Empty {
      Give(t, self, base, Pointer(self), clean);
      return Empty, Empty;
    }
    TwoSizes(old(t.heap), heap, t.heap, self, workersArray, POOL_BYTES, ArrayBytes(workerCount));
    RoundedIsAlign(POOL_BYTES);
    TwoTotals(old(t.total), Rounded(POOL_BYTES), Rounded(PointersRoom(workerCount)));
  }

  /** An array of pointers is asked for with room for all entries. */
  lemma ArraySize(n: int)
    requires WorkersInRange(n) || JobsInRange(n)
    ensures ArrayBytes(n) == PointersRoom(n)
  {
  }

  /** init_mode_threading */
  method InitThreading(t: HeapTracker, workerCount: int, epollfd: int, pshared: int) returns (pool: PoolRecord?)
    requires t.Valid()
    modifies t, t.slots
    ensures t.Valid() && Above(old(t.View()), t.View(), OwnedBy(pool), Clean(old(t.View())))
    ensures Clean(old(t.View())) ==> Clean(t.View()) && (pool == null <==> t.View() == old(t.View()))
    ensures pool != null ==>
              && fresh(pool) && pool.Intact()
              && pool.mode == (if epollfd == -1 then PureThreadPool else ReactorEpoll)
              && |pool.workers| == workerCount && pool.JobBlocks() == {}
    ensures pool != null ==>
              && pool.Sized(t.heap) && pool.workerCount == workerCount
              && t.total == Wrapped(old(t.total) + pool.Counted())
    ensures t.refusals >= old(t.refusals)
    ensures t.refusals == old(t.refusals) ==>
              && (pool != null <==> 1 <= workerCount <= 96 && (pshared == 0 || pshared == 1)
                                    && !Fatal(old(t.View())) && old(t.active) + 2 <= MAX_HEAPS)
              && (pool != null && Clean(old(t.View())) ==>
                    && t.active == UpToLimit(old(t.active) + 2 + workerCount)
                    && forall i :: 0 <= i < workerCount ==>
                         (pool.workers[i].Holds? <==> old(t.active) + 2 + i < MAX_HEAPS))
  {
    hide *;
    SharedIs(pshared);
    ModeIs(epollfd);
    ghost var base := t.View();
    ghost var clean := Clean(base);
    Untouched(t);
    pool := null;
    NoBlocks(t, pool, base, clean);
    if !WorkersInRange(workerCount) || !SharedFlag(pshared) {
      return;
    }
    var healthy := t.Healthy();
    if !healthy {
      return;
    }
    var self, workersArray := TakeTwo(t, workerCount, base, clean);
    if self == Empty {
      NoBlocks(t, pool, base, clean);
      return;
    }
    pool := new PoolRecord(self, ModeOf(epollfd));
    pool.workersArray := workersArray;
    pool.workerCount := workerCount;
    ghost var heap := t.heap;
    FirstPointer(self);
    pool.workers := TakeEach(t, workerCount, WORKER_BYTES, base, Pointer(self) + Pointer(workersArray), clean);
    AssembledThreads(pool);
    SomeBlocks(t, pool, base, clean);
    SizedThreads(pool, heap, t.heap);
    TwoTotals(old(t.total), Rounded(POOL_BYTES) + Rounded(PointersRoom(workerCount)),
              BytesOf(pool.workers, Rounded(WORKER_BYTES)));
  }

  lemma SharedIs(pshared: int)
    ensures SharedFlag(pshared) <==> pshared == 0 || pshared == 1
  {
  }

  lemma ModeIs(epollfd: int)
    ensures ModeOf(epollfd) == if epollfd == -1 then PureThreadPool else ReactorEpoll
  {
  }

  lemma SizedThreads(pool: PoolRecord, heap: map<nat, Size>, after: map<nat, Size>)
    requires pool.self.Holds? && pool.workersArray.Holds? && pool.jobsArray == Empty && pool.jobs == []
    requires pool.workerCount >= 0 && pool.jobCount == 0 && Grown(heap, after)
    requires HasSize(heap, pool.self, POOL_BYTES)
    requires HasSize(heap, pool.workersArray, PointersRoom(pool.workerCount))
    requires EachHasSize(after, pool.workers, WORKER_BYTES)
    ensures pool.Sized(after)
    ensures pool.Counted() == Rounded(POOL_BYTES) + Rounded(PointersRoom(pool.workerCount))
                              + BytesOf(pool.workers, Rounded(WORKER_BYTES))
  {
    GrownHasSize(heap, after, pool.self, POOL_BYTES);
    GrownHasSize(heap, after, pool.workersArray, PointersRoom(pool.workerCount));
    NullHasSize(after, PointersRoom(pool.jobCount));
    NoneHasSize(after, JOB_BYTES);
    BytesOfAppend([], Empty, Rounded(JOB_BYTES));
  }

  lemma Untouched(t: HeapTracker)
    requires t.Valid()
    ensures Above(t.View(), t.View(), {}, Clean(t.View()))
    ensures Clean(t.View()) ==> TailEmpty(t.View())
  {
    AboveSelf(t.View());
  }

  /** Back where it started. */
  lemma NoBlocks(t: HeapTracker, pool: PoolRecord?, base: Table, clean: bool)
    requires pool == null && Above(base, t.View(), {}, clean) && clean == Clean(base)
    ensures Above(base, t.View(), OwnedBy(pool), clean)
    ensures clean ==> Clean(t.View()) && t.View() == base
  {
    if clean { KeptNothing(base, t.View()); }
  }

  lemma SomeBlocks(t: HeapTracker, pool: PoolRecord, base: Table, clean: bool)
    requires pool.Intact() && Above(base, t.View(), pool.Owned(), clean) && (clean ==> TailEmpty(t.View()))
    ensures Above(base, t.View(), OwnedBy(pool), clean) && t.View() != base && (clean ==> Clean(t.View()))
    ensures pool.jobsArray.Holds? ==> pool.JobBlocks() != {}
  {
    if pool.jobsArray.Holds? { assert pool.jobsArray.p in pool.JobBlocks(); }
    if clean { StackedBacked(base, t.View(), pool.Owned()); }
    assert pool.self.p in pool.Owned();
    assert pool.self.p in t.View().heap.Keys && pool.self.p !in base.heap.Keys;
  }

  /** The first three blocks of a mixed pool, or none of them. */
  method TakeThree(t: HeapTracker, workerCount: int, jobCount: int, ghost base: Table, ghost clean: bool)
    returns (self: Slot, jobsArray: Slot, workersArray: Slot)
    requires WorkersInRange(workerCount) && JobsInRange(jobCount)
    requires t.Valid() && Above(base, t.View(), {}, clean) && (clean ==> TailEmpty(t.View()))
    modifies t, t.slots
    ensures t.Valid()
    ensures self == Empty ==> Above(base, t.View(), {}, clean)
    ensures self.Holds? ==>
              && jobsArray.Holds? && workersArray.Holds?
              && Pointer(jobsArray) !! Pointer(self) && Pointer(workersArray) !! Pointer(self) + Pointer(jobsArray)
              && Above(base, t.View(), Pointer(self) + Pointer(jobsArray) + Pointer(workersArray), clean)
              && (clean ==> TailEmpty(t.View())) && t.active == old(t.active) + 3
    ensures self.Holds? ==>
              && HasSize(t.heap, self, POOL_BYTES) && HasSize(t.heap, jobsArray, PointersRoom(jobCount))
              && HasSize(t.heap, workersArray, PointersRoom(workerCount))
              && t.total == Wrapped(old(t.total) + Rounded(POOL_BYTES) + Rounded(PointersRoom(jobCount))
                                    + Rounded(PointersRoom(workerCount)))
    ensures t.refusals >= old(t.refusals)
    ensures t.refusals == old(t.refusals) ==> (self.Holds? <==> old(t.active) + 3 <= MAX_HEAPS)
  {
    hide *;
    ArraySize(workerCount);
    ArraySize(jobCount);
    jobsArray, workersArray := Empty, Empty;
    self := Take(t, POOL_BYTES, base, {}, clean);
    FirstPointer(self);
    if self == Empty {
      return;
    }
    ghost var first := t.heap;
    jobsArray := Take(t, ArrayBytes(jobCount), base, Pointer(self), clean);
    if jobsArray == Empty {
      Give(t, self, base, Pointer(self), clean);
      return Empty, Empty, Empty;
    }
    ghost var second := t.heap;
    TwoSizes(old(t.heap), first, second, self, jobsArray, POOL_BYTES, ArrayBytes(jobCount));
    RoundedIsAlign(POOL_BYTES);
    TwoTotals(old(t.total), Rounded(POOL_BYTES), Rounded(PointersRoom(jobCount)));
    workersArray := Take(t, ArrayBytes(workerCount), base, Pointer(self) + Pointer(jobsArray), clean);
    if workersArray == Empty {
      TwoPointers(self, jobsArray);
      Give(t, jobsArray, base, Pointer(self) + Pointer(jobsArray), clean);
      Give(t, self, base, Pointer(self), clean);
      return Empty, Empty, Empty;
    }
    TakenSize(second, t.heap, workersArray, ArrayBytes(workerCount));
    GrownHasSize(second, t.heap, self, POOL_BYTES);
    GrownHasSize(second, t.heap, jobsArray, ArrayBytes(jobCount));
    TwoTotals(old(t.total), Rounded(POOL_BYTES) + Rounded(PointersRoom(jobCount)),
              Rounded(PointersRoom(workerCount)));
  }

  /** The two loops of a mixed constructor. */
  method FillMixed(t: HeapTracker, pool: PoolRecord, ghost base: Table, ghost clean: bool)
    requires WorkersInRange(pool.workerCount) && JobsInRange(pool.jobCount)
    requires pool.self.Holds? && pool.jobsArray.Holds? && pool.workersArray.Holds?
    requires Pointer(pool.jobsArray) !! Pointer(pool.self)
    requires Pointer(pool.workersArray) !! Pointer(pool.self) + Pointer(pool.jobsArray)
    requires t.Valid() && (clean ==> TailEmpty(t.View()))
    requires Above(base, t.View(), Pointer(pool.self) + Pointer(pool.jobsArray) + Pointer(pool.workersArray), clean)
    requires HasSize(t.heap, pool.self, POOL_BYTES) && HasSize(t.heap, pool.jobsArray, PointersRoom(pool.jobCount))
    requires HasSize(t.heap, pool.workersArray, PointersRoom(pool.workerCount))
    modifies t, t.slots, pool`jobs, pool`workers
    ensures t.Valid() && (clean ==> TailEmpty(t.View())) && t.refusals >= old(t.refusals)
    ensures |pool.jobs| == pool.jobCount && |pool.workers| == pool.workerCount
    ensures pool.Intact() && Above(base, t.View(), pool.Owned(), clean) && pool.Sized(t.heap)
    ensures t.total == Wrapped(old(t.total) + pool.CountedEntries())
    ensures clean && t.refusals == old(t.refusals) ==>
              && t.active == UpToLimit(old(t.active) + pool.jobCount + pool.workerCount)
              && (forall i :: 0 <= i < |pool.jobs| ==> (pool.jobs[i].Holds? <==> old(t.active) + i < MAX_HEAPS))
              && (forall i :: 0 <= i < |pool.workers| ==>
                    (pool.workers[i].Holds? <==> old(t.active) + pool.jobCount + i < MAX_HEAPS))
  {
    hide *;
    ghost var own := Pointer(pool.self) + Pointer(pool.jobsArray) + Pointer(pool.workersArray);
    ghost var heap := t.heap;
    FirstPointer(pool.self);
    pool.jobs := TakeEach(t, pool.jobCount, JOB_BYTES, base, own, clean);
    ghost var between := t.heap;
    LimitSum(old(t.active), pool.jobCount, pool.workerCount);
    pool.workers := TakeEach(t, pool.workerCount, WORKER_BYTES, base, own + Pointers(pool.jobs), clean);
    Assembled(pool);
    SizedMixed(pool, heap, between, t.heap);
    TwoTotals(old(t.total), BytesOf(pool.jobs, Rounded(JOB_BYTES)), BytesOf(pool.workers, Rounded(WORKER_BYTES)));
  }

  /** init_mode_threaded_processing */
  method InitMixed(t: HeapTracker, workerCount: int, jobCount: int, epollfd: int, pshared: int)
    returns (pool: PoolRecord?)
    requires t.Valid()
    modifies t, t.slots
    ensures t.Valid() && Above(old(t.View()), t.View(), OwnedBy(pool), Clean(old(t.View())))
    ensures Clean(old(t.View())) ==> Clean(t.View()) && (pool == null <==> t.View() == old(t.View()))
    ensures pool != null ==>
              && fresh(pool) && pool.Intact()
              && pool.mode == (if epollfd == -1 then PureThreadPool else ReactorEpoll)
              && |pool.workers| == workerCount && |pool.jobs| == jobCount && pool.JobBlocks() != {}
    ensures pool != null ==>
              && pool.Sized(t.heap) && pool.workerCount == workerCount && pool.jobCount == jobCount
              && pool.jobsArray.Holds? && t.total == Wrapped(old(t.total) + pool.Counted())
    ensures t.refusals >= old(t.refusals)
    ensures t.refusals == old(t.refusals) ==>
              && (pool != null <==> 1 <= workerCount <= 96 && 1 <= jobCount <= 16
                                    && (pshared == 0 || pshared == 1)
                                    && !Fatal(old(t.View())) && old(t.active) + 3 <= MAX_HEAPS)
              && (pool != null && Clean(old(t.View())) ==>
                    && t.active == UpToLimit(old(t.active) + 3 + jobCount + workerCount)
                    && (forall i :: 0 <= i < jobCount ==>
                          (pool.jobs[i].Holds? <==> old(t.active) + 3 + i < MAX_HEAPS))
                    && (forall i :: 0 <= i < workerCount ==>
                          (pool.workers[i].Holds? <==> old(t.active) + 3 + jobCount + i < MAX_HEAPS)))
  {
    hide *;
    SharedIs(pshared);
    ModeIs(epollfd);
    ghost var base := t.View();
    ghost var clean := Clean(base);
    Untouched(t);
    pool := null;
    NoBlocks(t, pool, base, clean);
    if !WorkersInRange(workerCount) || !JobsInRange(jobCount) || !SharedFlag(pshared) {
      return;
    }
    var healthy := t.Healthy();
    if !healthy {
      return;
    }
    var self, jobsArray, workersArray := TakeThree(t, workerCount, jobCount, base, clean);
    if self == Empty {
      NoBlocks(t, pool, base, clean);
      return;
    }
    pool := new PoolRecord(self, ModeOf(epollfd));
    pool.jobsArray, pool.workersArray := jobsArray, workersArray;
    pool.jobCount, pool.workerCount := jobCount, workerCount;
    FillMixed(t, pool, base, clean);
    SomeBlocks(t, pool, base, clean);
    CountedBoth(pool);
    TwoTotals(old(t.total), pool.CountedArrays(), pool.CountedEntries());
  }

  lemma CountedBoth(pool: PoolRecord)
    requires pool.self.Holds? && pool.jobsArray.Holds? && pool.workersArray.Holds?
    requires pool.workerCount >= 0 && pool.jobCount >= 0
    ensures pool.Counted() == pool.CountedArrays() + pool.CountedEntries()
    ensures pool.CountedArrays() == Rounded(POOL_BYTES) + Rounded(PointersRoom(pool.jobCount))
                                    + Rounded(PointersRoom(pool.workerCount))
  {
  }

  lemma SizedMixed(pool: PoolRecord, heap: map<nat, Size>, between: map<nat, Size>, after: map<nat, Size>)
    requires pool.self.Holds? && pool.workersArray.Holds? && pool.jobsArray.Holds?
    requires pool.workerCount >= 0 && pool.jobCount >= 0 && Grown(heap, between) && Grown(between, after)
    requires HasSize(heap, pool.self, POOL_BYTES)
    requires HasSize(heap, pool.jobsArray, PointersRoom(pool.jobCount))
    requires HasSize(heap, pool.workersArray, PointersRoom(pool.workerCount))
    requires EachHasSize(between, pool.jobs, JOB_BYTES) && EachHasSize(after, pool.workers, WORKER_BYTES)
    ensures pool.Sized(after)
    ensures pool.CountedEntries()
            == BytesOf(pool.jobs, Rounded(JOB_BYTES)) + BytesOf(pool.workers, Rounded(WORKER_BYTES))
  {
    GrownBoth(heap, between, after);
    GrownHasSize(heap, after, pool.self, POOL_BYTES);
    GrownHasSize(heap, after, pool.jobsArray, PointersRoom(pool.jobCount));
    GrownHasSize(heap, after, pool.workersArray, PointersRoom(pool.workerCount));
    EachGrown(between, after, pool.jobs, JOB_BYTES);
  }

  lemma LimitSum(n: nat, k: nat, m: nat)
    ensures UpToLimit(UpToLimit(n + k) + m) == UpToLimit(n + k + m)
    ensures UpToLimit(n + k) == n + k || MAX_HEAPS == UpToLimit(n + k) < n + k
  {
  }

  // ---------------------------------------------------------------- destruction

  /** A destructor that finds the tracker unhealthy gives up its blocks without freeing them. */
  lemma AboveLess(base: Table, t: Table, own: set<nat>, less: set<nat>)
    requires Above(base, t, own, false) && less <= own
    ensures Above(base, t, less, false)
  {
  }

  /** destroy_job: in a pool without epoll it returns at once and gives nothing back. */
  method DestroyJobs(t: HeapTracker, pool: PoolRecord, ghost base: Table, ghost clean: bool)
    requires t.Valid() && pool.Intact() && Above(base, t.View(), pool.Owned(), clean)
    modifies t, t.slots, pool`jobsArray, pool`jobs, pool`jobCount
    ensures t.Valid() && t.refusals == old(t.refusals)
    ensures Above(base, t.View(), if pool.mode == PureThreadPool then old(pool.Owned())
                                  else old(pool.Owned()) - old(pool.JobBlocks()), clean)
    ensures pool.mode == ReactorEpoll && !Fatal(old(t.View())) ==> pool.jobsArray == Empty && pool.jobCount == -1
  {
    hide *;
    if pool.mode == PureThreadPool {
      return;
    }
    ghost var own := pool.Owned();
    JobBlocksApart(pool);
    HeldBound(t);
    AboveHealthy(base, t.View(), own, clean);
    var healthy := t.Healthy();
    if !healthy {
      AboveLess(base, t.View(), own, own - pool.JobBlocks());
      return;
    }
    GiveEach(t, pool.jobs, base, own, clean);
    Give(t, pool.jobsArray, base, own - Pointers(pool.jobs), clean);
    pool.jobs := seq(|pool.jobs|, _ => Empty);
    pool.jobsArray := Empty;
    pool.jobCount := -1;
  }

  lemma JobBlocksApart(pool: PoolRecord)
    requires pool.Intact()
    ensures pool.Owned() != {}
    ensures Distinct(pool.jobs) && Pointers(pool.jobs) <= pool.Owned()
    ensures Pointer(pool.jobsArray) <= pool.Owned() - Pointers(pool.jobs)
    ensures pool.Owned() - Pointers(pool.jobs) - Pointer(pool.jobsArray) == pool.Owned() - pool.JobBlocks()
  {
    assert pool.self.p in pool.Owned();
  }

  /** destroy_workers, as far as the tracker is concerned. */
  method DestroyWorkers(t: HeapTracker, pool: PoolRecord, ghost base: Table, ghost own: set<nat>, ghost clean: bool)
    requires t.Valid() && Above(base, t.View(), own, clean) && own != {}
    requires Distinct(pool.workers) && Pointers(pool.workers) <= own
    requires Pointer(pool.workersArray) <= own - Pointers(pool.workers)
    modifies t, t.slots, pool`workersArray, pool`workers, pool`workerCount
    ensures t.Valid() && t.refusals == old(t.refusals)
    ensures !Fatal(old(t.View())) ==> pool.workersArray == Empty && pool.workerCount == -1
    ensures Above(base, t.View(), own - Pointers(old(pool.workers)) - Pointer(old(pool.workersArray)), clean)
  {
    hide *;
    HeldBound(t);
    AboveHealthy(base, t.View(), own, clean);
    var healthy := t.Healthy();
    if !healthy {
      AboveLess(base, t.View(), own, own - Pointers(pool.workers) - Pointer(pool.workersArray));
      return;
    }
    GiveEach(t, pool.workers, base, own, clean);
    Give(t, pool.workersArray, base, own - Pointers(pool.workers), clean);
    pool.workersArray := Empty;
    pool.workerCount := -1;
  }

  /** destroy_pool gives back everything the pool owns, except that a pool without epoll keeps its
      job blocks. */
  method DestroyPool(t: HeapTracker, pool: PoolRecord, ghost base: Table, ghost clean: bool)
    requires t.Valid() && pool.Intact() && Above(base, t.View(), pool.Owned(), clean)
    modifies t, t.slots, pool
    ensures t.Valid() && t.refusals == old(t.refusals)
    ensures Above(base, t.View(), if pool.mode == ReactorEpoll then {} else old(pool.JobBlocks()), clean)
    ensures clean ==> (t.View() == base <==> pool.mode == ReactorEpoll || old(pool.JobBlocks()) == {})
  {
    hide *;
    ghost var kept := if pool.mode == ReactorEpoll then {} else pool.JobBlocks();
    ghost var own := pool.Owned() - (if pool.mode == ReactorEpoll then pool.JobBlocks() else {});
    WorkerBlocksApart(pool, own);
    DestroyJobs(t, pool, base, clean);
    DestroyWorkers(t, pool, base, own, clean);
    Give(t, pool.self, base, kept + Pointer(pool.self), clean);
    Restored(base, t.View(), kept, clean);
  }

  lemma WorkerBlocksApart(pool: PoolRecord, own: set<nat>)
    requires pool.Intact()
    requires own == pool.Owned() - (if pool.mode == ReactorEpoll then pool.JobBlocks() else {})
    ensures var kept := if pool.mode == ReactorEpoll then {} else pool.JobBlocks();
            && own != {}
            && Distinct(pool.workers) && Pointers(pool.workers) <= own
            && Pointer(pool.workersArray) <= own - Pointers(pool.workers)
            && own - Pointers(pool.workers) - Pointer(pool.workersArray) == kept + Pointer(pool.self)
            && kept + Pointer(pool.self) - Pointer(pool.self) == kept
            && own == (if pool.mode == PureThreadPool then pool.Owned() else pool.Owned() - pool.JobBlocks())
  {
    assert pool.self.p in own;
  }

  lemma Restored(base: Table, t: Table, kept: set<nat>, clean: bool)
    requires Above(base, t, kept, clean)
    ensures kept != {} ==> base.heap.Keys < t.heap.Keys
    ensures clean ==> (t == base <==> kept == {})
  {
    if kept == {} {
      if clean { KeptNothing(base, t); }
    } else {
      var p :| p in kept;
      assert p in t.heap.Keys && p !in base.heap.Keys;
    }
  }

  // ---------------------------------------------------------------- nested lifetimes

  /** A properly nested program of pools: open one, run the inner program, destroy it, go on. A pool
      with jobs is `Mixed`. */
  datatype Program =
    | Stop
    | Threads(workers: int, epollfd: int, pshared: int, inner: Program, rest: Program)
    | Mixed(workers: int, jobs: int, epollfd: int, pshared: int, inner: Program, rest: Program)

  predicate MixedUsesEpoll(prog: Program) {
    match prog
    case Stop => true
    case Threads(_, _, _, inner, rest) => MixedUsesEpoll(inner) && MixedUsesEpoll(rest)
    case Mixed(_, _, epollfd, _, inner, rest) => epollfd != -1 && MixedUsesEpoll(inner) && MixedUsesEpoll(rest)
  }

  /** Whether a program started with `active` live blocks comes to make a mixed pool without epoll. */
  predicate Leaks(prog: Program, active: nat) {
    match prog
    case Stop => false
    case Threads(workers, _, pshared, inner, rest) =>
      var opens := WorkersInRange(workers) && SharedFlag(pshared) && active + 2 <= MAX_HEAPS;
      Leaks(inner, if opens then UpToLimit(active + 2 + workers) else active) || Leaks(rest, active)
    case Mixed(workers, jobs, epollfd, pshared, inner, rest) =>
      var opens := WorkersInRange(workers) && JobsInRange(jobs) && SharedFlag(pshared) && active + 3 <= MAX_HEAPS;
      || (opens && epollfd == -1)
      || Leaks(inner, if opens then UpToLimit(active + 3 + jobs + workers) else active)
      || Leaks(rest, active)
  }

  /** What a program keeps, whatever happens in it: nothing live is lost, and what it leaves behind is
      still there at the end. */
  ghost predicate Ran(before: Table, after: Table, leaked: bool) {
    && Kept(before, after, {})
    && (leaked ==> before.heap.Keys < after.heap.Keys)
    && (Clean(before) && !leaked ==> after == before)
  }

  lemma RanNothing(t: HeapTracker)
    requires t.Valid()
    ensures Ran(t.View(), t.View(), false) && t.View().active == t.active
  {
  }

  lemma RanBoth(t: Table, u: Table, v: Table, first: bool, second: bool)
    requires Ran(t, u, first) && Ran(u, v, second)
    ensures Ran(t, v, first || second)
  {
  }

  /** What a pool will leave of a table when it gives its blocks back. */
  ghost function Without(t: Table, own: set<nat>): Table {
    var heap := t.heap - own;
    Table(seq(MAX_HEAPS, _ => Empty), |heap|, Bytes(heap) % WORD, heap)
  }

  lemma WithoutConserved(t: Table, own: set<nat>)
    requires Conserved(t)
    ensures Conserved(Without(t, own))
  {
    var heap := t.heap - own;
    SubsetCount(heap.Keys, t.heap.Keys);
    assert |heap| == |heap.Keys| && |t.heap| == |t.heap.Keys|;
  }

  lemma LeakOutlives(base: map<nat, Size>, middle: map<nat, Size>, heap: map<nat, Size>, own: set<nat>)
    requires HeapKept(base, middle, own) && HeapKept(middle, heap, {}) && middle.Keys < heap.Keys
    ensures HeapKept(heap - own, heap, own) && HeapKept(base, heap - own, {})
    ensures base.Keys < (heap - own).Keys
  {
    var rest := heap - own;
    assert rest.Keys == heap.Keys - own;
    var p :| p in heap.Keys && p !in middle.Keys;
    assert p in rest.Keys && p !in base.Keys;
    assert rest.Keys + own == heap.Keys;
  }

  /** If the program inside a pool has left blocks behind, they are not the pool's. */
  lemma InnerLeaked(base: Table, middle: Table, t: Table, own: set<nat>)
    requires Kept(base, middle, own) && Kept(middle, t, {}) && middle.heap.Keys < t.heap.Keys
    ensures Above(Without(t, own), t, own, false)
    ensures Kept(base, Without(t, own), {}) && base.heap.Keys < Without(t, own).heap.Keys
  {
    WithoutConserved(t, own);
    LeakOutlives(base.heap, middle.heap, t.heap, own);
    hide Conserved, Bytes, HeapKept;
    assert Without(t, own).heap == t.heap - own;
  }

  /** The pool's end after the program inside it. */
  lemma RanClosed(base: Table, floor: Table, t: Table, kept: set<nat>, leaked: bool)
    requires Above(floor, t, kept, Clean(base) && !leaked)
    requires if leaked then Kept(base, floor, {}) && base.heap.Keys < floor.heap.Keys else floor == base
    ensures Ran(base, t, leaked || kept != {})
  {
    if kept != {} {
      var p :| p in kept;
      assert p in t.heap.Keys && p !in floor.heap.Keys;
    } else if Clean(base) && !leaked {
      KeptNothing(base, t);
    }
  }

  /** Whether a pool will leave blocks behind. */
  ghost predicate Forgetful(pool: PoolRecord?)
    reads pool
  {
    pool != null && pool.mode == PureThreadPool && pool.JobBlocks() != {}
  }

  /** A program that runs between the making and the destruction of a pool. */
  method RunInside(t: HeapTracker, pool: PoolRecord?, inner: Program, ghost base: Table)
    returns (ghost leaked: bool)
    requires t.Valid() && Above(base, t.View(), OwnedBy(pool), Clean(base))
    requires Clean(base) ==> Clean(t.View())
    requires pool != null ==> pool.Intact()
    modifies t, t.slots, if pool == null then {} else {pool}
    ensures t.Valid() && Ran(base, t.View(), leaked) && t.refusals >= old(t.refusals)
    ensures MixedUsesEpoll(inner) && !old(Forgetful(pool)) ==> !leaked
    ensures Clean(base) && t.refusals == old(t.refusals) ==>
              (leaked <==> (!Fatal(old(t.View())) && Leaks(inner, old(t.active))) || old(Forgetful(pool)))
    decreases inner, 1
  {
    hide Above, Kept, Stacked, Clean, HeapTracker.Valid, HeapTracker.View, PoolRecord.Intact, PoolRecord.Owned,
         PoolRecord.JobBlocks, Leaks, MixedUsesEpoll;
    ghost var middle := t.View();
    leaked := RunProgram(t, inner);
    ghost var own := OwnedBy(pool);
    ghost var floor := base;
    if leaked {
      floor := Without(t.View(), own);
      AboveKept(base, middle, own);
      InnerLeaked(base, middle, t.View(), own);
    } else {
      InnerRan(base, middle, t.View(), own);
    }
    if pool == null {
      RanClosed(base, floor, t.View(), {}, leaked);
    } else {
      ghost var kept := if pool.mode == ReactorEpoll then {} else pool.JobBlocks();
      DestroyPool(t, pool, floor, Clean(base) && !leaked);
      RanClosed(base, floor, t.View(), kept, leaked);
      leaked := leaked || kept != {};
    }
  }

  lemma AboveKept(base: Table, t: Table, own: set<nat>)
    requires Above(base, t, own, Clean(base))
    ensures Kept(base, t, own)
  {
  }

  /** If it has not, the pool is still above its base. */
  lemma InnerRan(base: Table, middle: Table, t: Table, own: set<nat>)
    requires Above(base, middle, own, Clean(base)) && (Clean(base) ==> Clean(middle))
    requires Ran(middle, t, false)
    ensures Above(base, t, own, Clean(base))
  {
  }

  /** Every properly nested program of pools, whichever constructors fail and wherever the table runs out
      in between: nothing live before is lost; a program whose pools with jobs use epoll leaves a table
      without holes as it found it; and if the C heap never refuses, a program does so exactly unless it
      comes to make a pool with jobs and without epoll. */
  method RunProgram(t: HeapTracker, prog: Program) returns (ghost leaked: bool)
    requires t.Valid()
    modifies t, t.slots
    ensures t.Valid() && Ran(old(t.View()), t.View(), leaked) && t.refusals >= old(t.refusals)
    ensures MixedUsesEpoll(prog) ==> !leaked
    ensures Clean(old(t.View())) ==> (t.View() == old(t.View()) <==> !leaked)
    ensures Clean(old(t.View())) && t.refusals == old(t.refusals) ==>
              (leaked <==> !Fatal(old(t.View())) && Leaks(prog, old(t.active)))
    decreases prog, 0
  {
    hide Above, Kept, Stacked, Clean, HeapTracker.Valid, HeapTracker.View, PoolRecord.Intact, PoolRecord.Owned,
         PoolRecord.JobBlocks, Ran, Fatal;
    ghost var base := t.View();
    leaked := false;
    RanNothing(t);
    if prog == Stop {
      return;
    }
    var pool: PoolRecord?;
    if prog.Threads? {
      pool := InitThreading(t, prog.workers, prog.epollfd, prog.pshared);
    } else {
      pool := InitMixed(t, prog.workers, prog.jobs, prog.epollfd, prog.pshared);
    }
    AfterOpening(t, pool, base);
    leaked := RunInside(t, pool, prog.inner, base);
    ghost var between := t.View();
    RanCleanly(base, t, leaked);
    ghost var later := RunProgram(t, prog.rest);
    RanBoth(base, between, t.View(), leaked, later);
    leaked := leaked || later;
    RanCleanly(base, t, leaked);
  }

  lemma AfterOpening(t: HeapTracker, pool: PoolRecord?, base: Table)
    requires t.Valid() && Above(base, t.View(), OwnedBy(pool), Clean(base)) && (pool != null ==> pool.Intact())
    ensures pool != null && Clean(base) ==> !Fatal(t.View())
    ensures pool == null && Clean(base) ==> t.View() == base && t.active == base.active
  {
    if pool != null {
      assert pool.self.p in OwnedBy(pool);
      HeldBound(t);
      hide Conserved, Bytes, Held, Kept, Stacked, Clean, Fatal;
      AboveHealthy(base, t.View(), OwnedBy(pool), Clean(base));
    } else if Clean(base) {
      KeptNothing(base, t.View());
    }
  }

  lemma RanCleanly(base: Table, t: HeapTracker, leaked: bool)
    requires Ran(base, t.View(), leaked)
    ensures Clean(base) ==> (t.View() == base <==> !leaked)
    ensures t.View() == base ==> t.active == base.active
  {
  }
}
