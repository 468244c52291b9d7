/** What a run of the pool does, told by its steps alone: which tasks were visited, reserved late or
    skipped, what was posted, and what callers were promised. The history that workers carry agrees
    with it. */
module Events {
  import opened ArenaModel
  import opened ArenaTheorems
  import opened QueueLayout
  import opened Reactor
  import opened Delivery
  import opened Shutdown

  // ---------------------------------------------------------------- what happens in one step

  /** The worker's next action is to read the slot its cursor is on. */
  predicate AtSlot(w: Worker) {
    && w.pc.Drain? && w.pc.block < |w.queue.blocks|
    && !w.queue.blocks[w.pc.block].wiped && w.pc.offset < w.queue.blocks[w.pc.block].offset
  }

  predicate IsWrite(step: Step, i: nat, m: nat) {
    step.Write? && step.w == i && step.task == m
  }

  /** The task of reservation `m` is written. */
  predicate Written(w: Worker, m: nat) {
    m < |w.addrs| && m !in w.unwritten
  }

  /** The cursor of worker `i` comes to the slot of reservation `m`. */
  predicate Visits(s: Pool, step: Step, i: nat, m: nat) {
    && step == Work(i) && i < |s.workers|
    && var w := s.workers[i];
       && AtSlot(w) && w.epoch <= m < |w.addrs|
       && w.addrs[m] == Addr(w.pc.block, w.pc.offset)
  }

  /** Reservation `m` is made at an address that the cursor has passed already. */
  predicate ReservesLate(s: Pool, step: Step, i: nat, m: nat) {
    && step == Reserve(i) && i < |s.workers|
    && m == |s.workers[i].addrs| && Passed(s.workers[i].pc, Alloc(s.workers[i].queue, s.taskSize).1)
  }

  /** The queue is reset while reservation `m` lies in a block wiped before. */
  predicate Skips(s: Pool, step: Step, i: nat, m: nat) {
    && step == Work(i) && i < |s.workers|
    && var w := s.workers[i];
       && w.pc == Resetting && w.epoch <= m < |w.addrs|
       && w.addrs[m].block < |w.queue.blocks| && w.queue.blocks[w.addrs[m].block].wiped
  }

  // ---------------------------------------------------------------- what happens in a run

  ghost predicate EverLate(s: Pool, steps: seq<Step>, i: nat, m: nat)
    decreases |steps|
  {
    steps != [] && Enabled(s, steps[0])
    && (ReservesLate(s, steps[0], i, m) || EverLate(Next(s, steps[0]), steps[1..], i, m))
  }

  ghost predicate EverSkipped(s: Pool, steps: seq<Step>, i: nat, m: nat)
    decreases |steps|
  {
    steps != [] && Enabled(s, steps[0])
    && (Skips(s, steps[0], i, m) || EverSkipped(Next(s, steps[0]), steps[1..], i, m))
  }

  /** The cursor comes to the slot of `m` at a moment when a write of `m` has been made, or has not, as
      `after` says; `written` tells whether it had been made when the run began. */
  ghost predicate EverVisited(s: Pool, steps: seq<Step>, i: nat, m: nat, written: bool, after: bool)
    decreases |steps|
  {
    steps != [] && Enabled(s, steps[0])
    && ((Visits(s, steps[0], i, m) && written == after)
        || EverVisited(Next(s, steps[0]), steps[1..], i, m, written || IsWrite(steps[0], i, m), after))
  }

  // ---------------------------------------------------------------- histories agree with events

  lemma CloseKeepsHistory(s: Pool, i: nat)
    requires Enabled(s, Close) && i < |s.workers|
    ensures var w, v := s.workers[i], Next(s, Close).workers[i];
            v == w.(shutdown := v.shutdown, sem := v.sem, queueAlive := v.queueAlive, recordAlive := v.recordAlive)
  {
  }

  lemma StepWritten(s: Pool, step: Step, i: nat, m: nat)
    requires Enabled(s, step) && i < |s.workers|
    ensures |Next(s, step).workers| == |s.workers|
    ensures Written(Next(s, step).workers[i], m) <==> Written(s.workers[i], m) || IsWrite(step, i, m)
  {
    if step == Close { CloseKeepsHistory(s, i); }
  }

  lemma StepLate(s: Pool, step: Step, i: nat, m: nat)
    requires Enabled(s, step) && i < |s.workers|
    ensures m in Next(s, step).workers[i].late <==> m in s.workers[i].late || ReservesLate(s, step, i, m)
  {
    if step == Close { CloseKeepsHistory(s, i); }
  }

  lemma StepSkipped(s: Pool, step: Step, i: nat, m: nat)
    requires Enabled(s, step) && i < |s.workers|
    ensures m in Next(s, step).workers[i].skipped <==> m in s.workers[i].skipped || Skips(s, step, i, m)
  {
    if step == Close { CloseKeepsHistory(s, i); }
  }

  lemma WorkVisits(w: Worker, stride: nat)
    requires stride > 0 && CursorOk(w, stride)
    ensures var v := WorkStep(w, stride);
            if AtSlot(w) then v == Visit(w, stride) else v.missed == w.missed && v.executed == w.executed
  {
  }

  lemma VisitMisses(w: Worker, stride: nat, m: nat)
    requires stride > 0 && CursorOk(w, stride)
    ensures m in WorkStep(w, stride).missed <==>
            m in w.missed
            || (AtSlot(w) && w.epoch <= m < |w.addrs| && w.addrs[m] == Addr(w.pc.block, w.pc.offset)
                && !Written(w, m))
  {
    WorkVisits(w, stride);
  }

  /** In the current epoch a slot that is not wiped holds exactly the task written for it. */
  lemma SlotHolds(w: Worker, stride: nat, m: nat)
    requires stride > 0 && WorkerOk(w, stride) && AtSlot(w) && w.epoch <= m < |w.addrs|
    requires w.addrs[m] == Addr(w.pc.block, w.pc.offset)
    ensures Written(w, m) <==> w.addrs[m] in w.slots
    ensures w.addrs[m] in w.slots ==> w.slots[w.addrs[m]] == m
  {
    assert !IsWiped(w, w.addrs[m]);
    if w.addrs[m] in w.slots {
      var t := w.slots[w.addrs[m]];
      VisitRunsNewest(w, stride);
      AddressOrder(w, stride, m, t);
      AddressOrder(w, stride, t, m);
    }
  }

  lemma VisitRuns(w: Worker, stride: nat, m: nat)
    requires stride > 0 && WorkerOk(w, stride)
    ensures m in WorkStep(w, stride).executed <==>
            m in w.executed
            || (AtSlot(w) && w.epoch <= m < |w.addrs| && w.addrs[m] == Addr(w.pc.block, w.pc.offset)
                && Written(w, m))
  {
    WorkVisits(w, stride);
    if AtSlot(w) {
      var at := Addr(w.pc.block, w.pc.offset);
      if at in w.slots { VisitRunsNewest(w, stride); }
      if w.epoch <= m < |w.addrs| && w.addrs[m] == at { SlotHolds(w, stride, m); }
      hide WorkStep, WorkerOk;
      assert at in w.slots ==> w.epoch <= w.slots[at] < |w.addrs|;
      SlotsNamed(w, stride, at);
    }
  }

  lemma SlotsNamed(w: Worker, stride: nat, at: Addr)
    requires stride > 0 && WorkerOk(w, stride)
    ensures at in w.slots ==> w.slots[at] < |w.addrs| && w.addrs[w.slots[at]] == at && Written(w, w.slots[at])
  {
  }

  lemma StepVisits(s: Pool, step: Step, i: nat, m: nat)
    requires PoolOk(s) && Enabled(s, step) && i < |s.workers|
    ensures var w, v := s.workers[i], Next(s, step).workers[i];
            && (m in v.missed <==> m in w.missed || (Visits(s, step, i, m) && !Written(w, m)))
            && (m in v.executed <==> m in w.executed || (Visits(s, step, i, m) && Written(w, m)))
  {
    var w, stride := s.workers[i], Align(s.taskSize);
    if step == Work(i) {
      assert WorkerOk(w, stride);
      VisitMisses(w, stride, m);
      VisitRuns(w, stride, m);
      assert Next(s, step).workers[i] == WorkStep(w, stride);
    } else if step == Close {
      CloseKeepsHistory(s, i);
    }
  }

  /** Over any run from a consistent pool, what a worker's history gains is what the steps say. */
  lemma {:induction false} RunHistory(s: Pool, steps: seq<Step>, t: Pool, i: nat, m: nat)
    requires PoolOk(s) && Leads(s, steps, t) && i < |s.workers|
    ensures i < |t.workers|
    ensures var w, v := s.workers[i], t.workers[i];
            && (m in v.late <==> m in w.late || EverLate(s, steps, i, m))
            && (m in v.skipped <==> m in w.skipped || EverSkipped(s, steps, i, m))
            && (m in v.missed <==> m in w.missed || EverVisited(s, steps, i, m, Written(w, m), false))
            && (m in v.executed <==> m in w.executed || EverVisited(s, steps, i, m, Written(w, m), true))
    decreases |steps|
  {
    if steps != [] {
      var u := Next(s, steps[0]);
      StepKeeps(s, steps[0]);
      StepWritten(s, steps[0], i, m);
      StepLate(s, steps[0], i, m);
      StepSkipped(s, steps[0], i, m);
      StepVisits(s, steps[0], i, m);
      hide PoolOk, Next, Enabled, Visits, ReservesLate, Skips, Written, IsWrite;
      RunHistory(u, steps[1..], t, i, m);
    }
  }

  /** In every interleaving, told by its steps: a task was run exactly if the cursor came to its slot after
      its caller had written it; and of a task whose queue has been reset since, that is so exactly if it
      was never reserved behind the cursor, never visited before its write, and never in a block wiped
      before the reset. */
  lemma {:induction false} TasksRunByEvents(n: nat, blockSize: Size, taskSize: Size, steps: seq<Step>, t: Pool,
                                            i: nat, m: nat)
    requires Reachable(n, blockSize, taskSize, steps, t) && i < n
    ensures |t.workers| == n
    ensures var s, w := Opened(n, blockSize, taskSize), t.workers[i];
            && (m in w.executed <==> EverVisited(s, steps, i, m, false, true))
            && (m < w.epoch ==>
                  (m in w.executed <==> !EverLate(s, steps, i, m) && !EverVisited(s, steps, i, m, false, false)
                                        && !EverSkipped(s, steps, i, m)))
  {
    var s := Opened(n, blockSize, taskSize);
    OpenedOk(n, blockSize, taskSize);
    DeliverySafety(n, blockSize, taskSize, steps, t, i);
    OpenedWorker(n, blockSize, taskSize, i, m);
    hide *;
    ReachableLeads(n, blockSize, taskSize, steps, t);
    RunHistory(s, steps, t, i, m);
  }

  lemma OpenedWorker(n: nat, blockSize: Size, taskSize: Size, i: nat, m: nat)
    requires i < n
    ensures |Opened(n, blockSize, taskSize).workers| == n
    ensures var w := Opened(n, blockSize, taskSize).workers[i];
            && w.executed == [] && w.late == w.missed == w.skipped == w.unposted == w.notified == {}
            && w.sem == 0 && !Written(w, m)
  {
  }

  lemma ReachableLeads(n: nat, blockSize: Size, taskSize: Size, steps: seq<Step>, t: Pool)
    requires Reachable(n, blockSize, taskSize, steps, t)
    ensures Leads(Opened(n, blockSize, taskSize), steps, t) && PoolOk(Opened(n, blockSize, taskSize))
  {
    OpenedOk(n, blockSize, taskSize);
  }

  // ---------------------------------------------------------------- what callers are promised

  lemma StepPromised(s: Pool, step: Step, i: nat, m: nat)
    requires Enabled(s, step) && i < |s.workers|
    ensures i < |Next(s, step).workers|
    ensures var w, v := s.workers[i], Next(s, step).workers[i];
            && (m in v.unposted || m in v.notified <==>
                  step == Write(i, m, true) || m in w.unposted || m in w.notified)
            && (m in v.notified <==> step == Notify(i, m) || m in w.notified)
  {
    if step == Close { assert Next(s, step).workers[i].notified == s.workers[i].notified; }
  }

  lemma {:induction false} RunPromised(s: Pool, steps: seq<Step>, t: Pool, i: nat, m: nat)
    requires Leads(s, steps, t) && i < |s.workers|
    ensures i < |t.workers|
    ensures var w, v := s.workers[i], t.workers[i];
            && (m in v.unposted || m in v.notified <==>
                  Write(i, m, true) in steps || m in w.unposted || m in w.notified)
            && (m in v.notified <==> Notify(i, m) in steps || m in w.notified)
    decreases |steps|
  {
    if steps != [] {
      StepPromised(s, steps[0], i, m);
      assert forall step :: step in steps <==> step == steps[0] || step in steps[1..];
      RunPromised(Next(s, steps[0]), steps[1..], t, i, m);
    }
  }

  /** In every interleaving, the posts that callers have made or still have to make are for exactly the
      tasks enqueued with notice. */
  lemma {:induction false} NoticePromised(n: nat, blockSize: Size, taskSize: Size, steps: seq<Step>, t: Pool,
                                          i: nat, m: nat)
    requires Reachable(n, blockSize, taskSize, steps, t) && i < n
    ensures i < |t.workers|
    ensures m in t.workers[i].unposted || m in t.workers[i].notified <==> Write(i, m, true) in steps
    ensures m in t.workers[i].notified <==> Notify(i, m) in steps
  {
    OpenedWorker(n, blockSize, taskSize, i, m);
    ReachableLeads(n, blockSize, taskSize, steps, t);
    RunPromised(Opened(n, blockSize, taskSize), steps, t, i, m);
  }

  lemma QuietHasPosted(s: Pool, i: nat)
    requires PoolOk(s) && Quiet(s) && i < |s.workers| && s.workers[i].pc != Done
    ensures s.workers[i].unposted == {}
  {
    AckedBound(s.workers);
    assert InStep(s.closer, i, s.workers[i]);
    if m :| m in s.workers[i].unposted {
      assert Enabled(s, Notify(i, m));
    }
  }

  /** When a pool has come to rest, every task enqueued with notice to a worker that has not finished has
      been dealt with: its queue was reset since, and it was run exactly if it was never reserved behind
      the cursor, never visited before its write and never in a block wiped before the reset. */
  lemma {:induction false} NoticesDelivered(n: nat, blockSize: Size, taskSize: Size, steps: seq<Step>, t: Pool,
                                            i: nat, m: nat)
    requires Reachable(n, blockSize, taskSize, steps, t) && i < n
    requires Quiet(t) && Write(i, m, true) in steps
    ensures |t.workers| == n
    ensures var s, w := Opened(n, blockSize, taskSize), t.workers[i];
            w.pc != Done ==>
              && m < w.epoch
              && (m in w.executed <==> !EverLate(s, steps, i, m) && !EverVisited(s, steps, i, m, false, false)
                                       && !EverSkipped(s, steps, i, m))
  {
    var s := Opened(n, blockSize, taskSize);
    ReachableOk(n, blockSize, taskSize, steps, t);
    NoticePromised(n, blockSize, taskSize, steps, t, i, m);
    if t.workers[i].pc != Done {
      QuietHasPosted(t, i);
      QuietDelivers(n, blockSize, taskSize, steps, t, i);
      TasksRunByEvents(n, blockSize, taskSize, steps, t, i, m);
    }
  }

  // ---------------------------------------------------------------- semaphores balance

  /** The step posts the semaphore of worker `i`, or takes a post from it. */
  predicate PostsTo(s: Pool, step: Step, i: nat) {
    (step.Notify? && step.w == i) || (step == Close && s.closer == Post(i))
  }

  predicate TakesFrom(s: Pool, step: Step, i: nat) {
    step == Work(i) && i < |s.workers| && s.workers[i].pc == Waiting
  }

  ghost function PostsMade(s: Pool, steps: seq<Step>, i: nat): nat
    decreases |steps|
  {
    if steps == [] || !Enabled(s, steps[0]) then 0
    else (if PostsTo(s, steps[0], i) then 1 else 0) + PostsMade(Next(s, steps[0]), steps[1..], i)
  }

  ghost function PostsTaken(s: Pool, steps: seq<Step>, i: nat): nat
    decreases |steps|
  {
    if steps == [] || !Enabled(s, steps[0]) then 0
    else (if TakesFrom(s, steps[0], i) then 1 else 0) + PostsTaken(Next(s, steps[0]), steps[1..], i)
  }

  lemma StepBalances(s: Pool, step: Step, i: nat)
    requires Enabled(s, step) && i < |s.workers|
    ensures i < |Next(s, step).workers|
    ensures Next(s, step).workers[i].sem
            == s.workers[i].sem + (if PostsTo(s, step, i) then 1 else 0) - (if TakesFrom(s, step, i) then 1 else 0)
  {
  }

  lemma {:induction false} RunBalances(s: Pool, steps: seq<Step>, t: Pool, i: nat)
    requires Leads(s, steps, t) && i < |s.workers|
    ensures i < |t.workers|
    ensures t.workers[i].sem + PostsTaken(s, steps, i) == s.workers[i].sem + PostsMade(s, steps, i)
    decreases |steps|
  {
    if steps != [] {
      StepBalances(s, steps[0], i);
      RunBalances(Next(s, steps[0]), steps[1..], t, i);
    }
  }

  /** In every interleaving a worker's semaphore holds exactly the posts made to it, by callers that gave
      notice and by the closer, that it has not yet taken. */
  lemma {:induction false} SemaphoreBalance(n: nat, blockSize: Size, taskSize: Size, steps: seq<Step>, t: Pool, i: nat)
    requires Reachable(n, blockSize, taskSize, steps, t) && i < n
    ensures i < |t.workers|
    ensures var s := Opened(n, blockSize, taskSize);
            t.workers[i].sem + PostsTaken(s, steps, i) == PostsMade(s, steps, i)
  {
    var s := Opened(n, blockSize, taskSize);
    OpenedWorker(n, blockSize, taskSize, i, 0);
    ReachableLeads(n, blockSize, taskSize, steps, t);
    RunBalances(s, steps, t, i);
  }

  // ---------------------------------------------------------------- the queue holds reservations

  /** The cursor positions in the queue are the addresses reserved since the latest reset, in order. */
  ghost predicate HoldsReservations(w: Worker, stride: nat)
    requires stride > 0
  {
    w.epoch <= |w.addrs| && Slots(w.queue.blocks, 0, stride) == w.addrs[w.epoch..]
  }

  lemma ReserveHolds(w: Worker, size: Size)
    requires 0 < size <= MAX_REQUEST && QueueOk(w, Align(size)) && HoldsReservations(w, Align(size))
    ensures HoldsReservations(ReserveStep(w, size), Align(size))
  {
    TaskAllocAddsSlot(w.queue, size);
    var at := Alloc(w.queue, size).1;
    assert (w.addrs + [at])[w.epoch..] == w.addrs[w.epoch..] + [at];
  }

  lemma WorkHolds(w: Worker, stride: nat)
    requires stride > 0 && HoldsReservations(w, stride)
    ensures HoldsReservations(WorkStep(w, stride), stride)
    ensures |WorkStep(w, stride).addrs| == |w.addrs|
  {
    if w.pc == Resetting {
      EmptySlots(Reset(w.queue).blocks, 0, stride);
    }
  }

  function Reservations(steps: seq<Step>, i: nat): nat {
    if steps == [] then 0 else (if steps[0] == Reserve(i) then 1 else 0) + Reservations(steps[1..], i)
  }

  lemma StepHolds(s: Pool, step: Step, i: nat)
    requires PoolOk(s) && Enabled(s, step) && i < |s.workers|
    requires HoldsReservations(s.workers[i], Align(s.taskSize))
    ensures var t := Next(s, step);
            && t.taskSize == s.taskSize && i < |t.workers|
            && HoldsReservations(t.workers[i], Align(s.taskSize))
            && |t.workers[i].addrs| == |s.workers[i].addrs| + if step == Reserve(i) then 1 else 0
  {
    var w := s.workers[i];
    assert WorkerOk(w, Align(s.taskSize));
    if step == Reserve(i) {
      ReserveHolds(w, s.taskSize);
    } else if step == Work(i) {
      WorkHolds(w, Align(s.taskSize));
    } else if step == Close {
      CloseKeepsHistory(s, i);
    }
  }

  lemma {:induction false} RunHolds(s: Pool, steps: seq<Step>, t: Pool, i: nat)
    requires PoolOk(s) && Leads(s, steps, t) && i < |s.workers|
    requires HoldsReservations(s.workers[i], Align(s.taskSize))
    ensures i < |t.workers| && t.taskSize == s.taskSize && HoldsReservations(t.workers[i], Align(s.taskSize))
    ensures |t.workers[i].addrs| == |s.workers[i].addrs| + Reservations(steps, i)
    decreases |steps|
  {
    if steps != [] {
      StepHolds(s, steps[0], i);
      StepKeeps(s, steps[0]);
      hide PoolOk, Next, Enabled, HoldsReservations;
      RunHolds(Next(s, steps[0]), steps[1..], t, i);
    }
  }

  /** In every interleaving, whatever else happens between: every enqueue has reserved one slot, and the
      positions a cursor can visit in a worker's queue are exactly the slots reserved since its latest
      reset, in order. */
  lemma {:induction false} QueueHoldsReservations(n: nat, blockSize: Size, taskSize: Size, steps: seq<Step>, t: Pool,
                                                  i: nat)
    requires Reachable(n, blockSize, taskSize, steps, t) && i < n
    ensures i < |t.workers| && HoldsReservations(t.workers[i], Align(taskSize))
    ensures |t.workers[i].addrs| == Reservations(steps, i)
  {
    var s := Opened(n, blockSize, taskSize);
    ReachableLeads(n, blockSize, taskSize, steps, t);
    var w := s.workers[i];
    assert w.queue == Init(blockSize) && w.addrs == [];
    EmptySlots(w.queue.blocks, 0, Align(taskSize));
    RunHolds(s, steps, t, i);
  }

  // ---------------------------------------------------------------- what a queue's memory holds

  /** Whether a write of task `m` is still there after the run, for all that resets have left of it. */
  ghost predicate WrittenSinceReset(s: Pool, steps: seq<Step>, i: nat, m: nat, held: bool)
    decreases |steps|
  {
    if steps == [] || !Enabled(s, steps[0]) then held
    else
      var wiped := steps[0] == Work(i) && i < |s.workers| && s.workers[i].pc == Resetting;
      WrittenSinceReset(Next(s, steps[0]), steps[1..], i, m, !wiped && (held || IsWrite(steps[0], i, m)))
  }

  /** If the queue of worker `i` holds task `m` anywhere, `held` says so. */
  ghost predicate HoldsOnly(w: Worker, m: nat, held: bool) {
    forall at :: at in w.slots && w.slots[at] == m ==> held
  }

  lemma StepHoldsOnly(s: Pool, step: Step, i: nat, m: nat, held: bool)
    requires Enabled(s, step) && i < |s.workers| && HoldsOnly(s.workers[i], m, held)
    ensures i < |Next(s, step).workers|
    ensures var wiped := step == Work(i) && s.workers[i].pc == Resetting;
            HoldsOnly(Next(s, step).workers[i], m, !wiped && (held || IsWrite(step, i, m)))
  {
    var w, stride := s.workers[i], Align(s.taskSize);
    if step == Close {
      CloseKeepsHistory(s, i);
    } else if step == Work(i) {
      WorkSlots(w, stride);
    } else {
    }
  }

  lemma WorkSlots(w: Worker, stride: nat)
    ensures WorkStep(w, stride).slots == if w.pc == Resetting then map[] else w.slots
  {
  }

  lemma {:induction false} RunHoldsOnly(s: Pool, steps: seq<Step>, t: Pool, i: nat, m: nat, held: bool)
    requires Leads(s, steps, t) && i < |s.workers| && HoldsOnly(s.workers[i], m, held)
    ensures i < |t.workers| && HoldsOnly(t.workers[i], m, WrittenSinceReset(s, steps, i, m, held))
    decreases |steps|
  {
    if steps != [] {
      StepHoldsOnly(s, steps[0], i, m, held);
      var wiped := steps[0] == Work(i) && s.workers[i].pc == Resetting;
      hide HoldsOnly, Enabled, Next, IsWrite;
      RunHoldsOnly(Next(s, steps[0]), steps[1..], t, i, m, !wiped && (held || IsWrite(steps[0], i, m)));
    }
  }

  /** In every interleaving a queue's memory holds a task only if its caller has written it since the
      latest reset: a reset leaves nothing behind, and only a write that comes late puts a task of an
      earlier time back. */
  lemma {:induction false} ResetLeavesNothing(n: nat, blockSize: Size, taskSize: Size, steps: seq<Step>, t: Pool,
                                              i: nat, at: Addr)
    requires Reachable(n, blockSize, taskSize, steps, t) && i < n
    ensures i < |t.workers|
    ensures at in t.workers[i].slots ==>
              WrittenSinceReset(Opened(n, blockSize, taskSize), steps, i, t.workers[i].slots[at], false)
  {
    var s := Opened(n, blockSize, taskSize);
    ReachableOk(n, blockSize, taskSize, steps, t);
    ReachableLeads(n, blockSize, taskSize, steps, t);
    if at in t.workers[i].slots {
      var m := t.workers[i].slots[at];
      assert s.workers[i].slots == map[];
      RunHoldsOnly(s, steps, t, i, m, false);
    }
  }
}
