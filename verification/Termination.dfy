/** Shutdown makes progress: something can always move until every worker is joined, and once no new
    enqueue begins only finitely many steps remain. */
module Termination {
  import opened ArenaModel
  import opened Numbers
  import opened QueueLayout
  import opened Reactor
  import opened Shutdown

  // ---------------------------------------------------------------- progress

  /** A signalled worker that has not finished can always take its next action. */
  lemma SignalledWorkerMoves(s: Pool, i: nat)
    requires Protocol(s) && i < |s.workers| && Signalled(s.closer, i) && s.workers[i].pc != Done
    ensures Enabled(s, Work(i))
  {
    assert InStep(s.closer, i, s.workers[i]);
  }

  /** In every interleaving, unless the closer is through, some step other than an enqueue is
      enabled. A join never blocks: its worker has already returned. */
  lemma {:induction false} ShutdownProgress(n: nat, blockSize: Size, taskSize: Size, steps: seq<Step>, t: Pool)
    requires Reachable(n, blockSize, taskSize, steps, t) && t.closer != Closed
    ensures exists step :: !IsEnqueue(step) && Enabled(t, step)
    ensures !t.closer.Collect? ==> Enabled(t, Close)
  {
    ReachableOk(n, blockSize, taskSize, steps, t);
    AckedBound(t.workers);
    if t.closer.Collect? && t.ack == 0 {
      var i :| 0 <= i < n && t.workers[i].pc != Done;
      SignalledWorkerMoves(t, i);
      hide Enabled, PoolOk;
      assert !IsEnqueue(Work(i));
    } else {
      assert !IsEnqueue(Close) && Enabled(t, Close);
    }
  }

  // ---------------------------------------------------------------- the measure

  /** An upper bound on the cursor moves over the blocks from `k` on. */
  function WalkCost(blocks: seq<Block>, k: nat): nat
    decreases |blocks| - k
  {
    if k >= |blocks| then 0 else blocks[k].offset + 2 + WalkCost(blocks, k + 1)
  }

  /** An upper bound on the actions a worker has left in the current turn of its loop. */
  function Rank(w: Worker): nat {
    match w.pc
    case Done => 0
    case Ack => 1
    case Waiting => 2
    case Top => 3
    case Resetting => 4
    case Leave(b) => 5 + WalkCost(w.queue.blocks, b + 1)
    case Drain(b, o) =>
      if b >= |w.queue.blocks| then 5
      else 6 + WalkCost(w.queue.blocks, b + 1) + Gap(o, w.queue.blocks[b].offset)
    case Woken => 5 + WalkCost(w.queue.blocks, 0)
  }

  /** The most one turn of the loop can cost. */
  function TurnCost(w: Worker): nat {
    6 + WalkCost(w.queue.blocks, 0)
  }

  /** Posts the worker's semaphore holds, or may still get from the closer and from the callers of
      enqueue that have reserved a slot. */
  function Posts(c: Closer, i: nat, w: Worker): nat {
    w.sem + (if Signalled(c, i) then 0 else 1) + |w.unposted| + |w.unwritten|
  }

  /** Every post can cost the worker a turn of its loop; a caller still has at most a write and a post
      to make. */
  function WorkerMeasure(c: Closer, i: nat, w: Worker): nat {
    Posts(c, i, w) * TurnCost(w) + Rank(w) + |w.unposted| + 2 * |w.unwritten|
  }

  function Measures(c: Closer, ws: seq<Worker>): (r: seq<nat>)
    ensures |r| == |ws| && forall i :: 0 <= i < |r| ==> r[i] == WorkerMeasure(c, i, ws[i])
  {
    seq(|ws|, i requires 0 <= i < |ws| => WorkerMeasure(c, i, ws[i]))
  }

  function CloserRank(c: Closer, n: nat): nat
    requires CloserInRange(c, n)
  {
    match c
    case SetFlag(i) => 2 * (n - i) + 4 * n
    case Post(i) => 2 * (n - i) - 1 + 4 * n
    case Collect(i) => (n - i) + 3 * n
    case Destroy(i) => 3 * (n - i)
    case Join(i) => 3 * (n - i) - 1
    case Free(i) => 3 * (n - i) - 2
    case Closed => 0
  }

  function Measure(s: Pool): nat
    requires CloserInRange(s.closer, |s.workers|)
  {
    CloserRank(s.closer, |s.workers|) + Sum(Measures(s.closer, s.workers))
  }

  lemma {:induction false} ResetWalkCost(blocks: seq<Block>, k: nat)
    ensures WalkCost(WipeAll(blocks), k) <= WalkCost(blocks, k)
    decreases |blocks| - k
  {
    if k < |blocks| { ResetWalkCost(blocks, k + 1); }
  }

  lemma DrainMoves(w: Worker, stride: nat)
    requires w.pc.Drain?
    ensures var v := WorkStep(w, stride);
            && v.queue == w.queue
            && match v.pc
               case Resetting => w.pc.block >= |w.queue.blocks|
               case Leave(b) => b == w.pc.block < |w.queue.blocks|
               case Drain(b, o) =>
                 && b == w.pc.block < |w.queue.blocks|
                 && w.pc.offset < w.queue.blocks[b].offset && o == w.pc.offset + stride
               case _ => false
  {
  }

  lemma DrainRankDrops(w: Worker, stride: nat)
    requires stride > 0 && w.pc.Drain?
    ensures Rank(WorkStep(w, stride)) < Rank(w)
  {
    hide WorkStep, Inv;
    DrainMoves(w, stride);
  }

  lemma LeaveRankDrops(w: Worker, stride: nat)
    requires w.pc.Leave?
    ensures Rank(WorkStep(w, stride)) < Rank(w)
  {
    var v := WorkStep(w, stride);
    assert v.queue == w.queue;
    assert v.pc == Resetting || v.pc == Drain(w.pc.block + 1, 0);
  }

  lemma WorkRankDrops(w: Worker, stride: nat)
    requires stride > 0 && w.pc != Done && w.pc != Waiting
    ensures var v := WorkStep(w, stride);
            Rank(v) < Rank(w) && TurnCost(v) <= TurnCost(w) && v.sem == w.sem
  {
    match w.pc
    case Resetting => ResetWalkCost(w.queue.blocks, 0);
    case Drain(_, _) => DrainRankDrops(w, stride);
    case Leave(_) => LeaveRankDrops(w, stride);
    case _ =>
  }

  lemma WorkMeasureDrops(c: Closer, i: nat, w: Worker, stride: nat)
    requires stride > 0 && w.pc != Done && (w.pc == Waiting ==> w.sem > 0)
    ensures WorkerMeasure(c, i, WorkStep(w, stride)) < WorkerMeasure(c, i, w)
  {
    var v := WorkStep(w, stride);
    if w.pc == Waiting {
      var p := Posts(c, i, w);
      assert Posts(c, i, v) == p - 1 && TurnCost(v) == TurnCost(w);
      assert (p - 1) * TurnCost(w) == p * TurnCost(w) - TurnCost(w);
    } else {
      WorkRankDrops(w, stride);
      ProductLess(Posts(c, i, v), Posts(c, i, w), TurnCost(v), TurnCost(w));
    }
  }

  /** The closer's post only turns a post still to come into one already made. */
  lemma CloseKeepsWorkerMeasure(s: Pool, i: nat)
    requires Enabled(s, Close) && i < |s.workers|
    ensures WorkerMeasure(CloseStep(s).closer, i, CloseStep(s).workers[i]) == WorkerMeasure(s.closer, i, s.workers[i])
  {
    var t := CloseStep(s);
    assert Posts(t.closer, i, t.workers[i]) == Posts(s.closer, i, s.workers[i]);
    assert t.workers[i].pc == s.workers[i].pc && t.workers[i].queue == s.workers[i].queue;
    assert Rank(t.workers[i]) == Rank(s.workers[i]);
  }

  lemma CloseDropsMeasure(s: Pool)
    requires Enabled(s, Close) && CloserInRange(CloseStep(s).closer, |s.workers|)
    ensures Measure(CloseStep(s)) < Measure(s)
  {
    var t := CloseStep(s);
    forall i | 0 <= i < |s.workers|
      ensures WorkerMeasure(s.closer, i, s.workers[i]) == WorkerMeasure(t.closer, i, t.workers[i])
    {
      CloseKeepsWorkerMeasure(s, i);
    }
    assert Measures(s.closer, s.workers) == Measures(t.closer, t.workers);
  }

  lemma WriteDrops(c: Closer, i: nat, w: Worker, task: nat, notify: bool)
    requires task < |w.addrs| && task in w.unwritten
    ensures WorkerMeasure(c, i, WriteStep(w, task, notify)) < WorkerMeasure(c, i, w)
  {
    var v := WriteStep(w, task, notify);
    assert |v.unwritten| == |w.unwritten| - 1;
    assert |v.unposted| <= |w.unposted| + 1;
    assert Rank(v) == Rank(w);
    ProductLess(Posts(c, i, v), Posts(c, i, w), TurnCost(v), TurnCost(w));
  }

  lemma NotifyDrops(c: Closer, i: nat, w: Worker, task: nat)
    requires task in w.unposted
    ensures WorkerMeasure(c, i, NotifyStep(w, task)) < WorkerMeasure(c, i, w)
  {
    var v := NotifyStep(w, task);
    assert |v.unposted| == |w.unposted| - 1;
    assert Rank(v) == Rank(w) && TurnCost(v) == TurnCost(w) && Posts(c, i, v) == Posts(c, i, w);
  }

  /** What a worker or the caller of an enqueue already begun does lowers the worker's own measure. */
  lemma ActorDrops(s: Pool, step: Step)
    requires 0 < s.taskSize <= MAX_REQUEST && Enabled(s, step) && !step.Close? && !step.Reserve?
    ensures step.w < |s.workers|
    ensures var i := step.w;
            WorkerMeasure(s.closer, i, Next(s, step).workers[i]) < WorkerMeasure(s.closer, i, s.workers[i])
  {
    var w := s.workers[step.w];
    match step
    case Work(i) => WorkMeasureDrops(s.closer, i, w, Align(s.taskSize));
    case Write(i, task, notify) => WriteDrops(s.closer, i, w, task, notify);
    case Notify(i, task) => NotifyDrops(s.closer, i, w, task);
  }

  lemma ActorDropsMeasure(s: Pool, step: Step)
    requires 0 < s.taskSize <= MAX_REQUEST && CloserInRange(s.closer, |s.workers|)
    requires Enabled(s, step) && !step.Close? && !step.Reserve?
    ensures CloserInRange(Next(s, step).closer, |Next(s, step).workers|) && Measure(Next(s, step)) < Measure(s)
  {
    ActorDrops(s, step);
    var t, i := Next(s, step), step.w;
    assert t.closer == s.closer && t.workers == s.workers[i := t.workers[i]];
    hide Next, Enabled, WorkerMeasure;
    var m := Measures(s.closer, s.workers);
    var x := WorkerMeasure(s.closer, i, t.workers[i]);
    assert Measures(t.closer, t.workers) == m[i := x];
    SumUpdate(m, i, x);
  }

  /** Every step of a worker, of the closer or of a caller that has its slot lowers the measure. */
  lemma {:induction false} MeasureDrops(s: Pool, step: Step)
    requires PoolOk(s) && Enabled(s, step) && !step.Reserve?
    ensures PoolOk(Next(s, step)) && Measure(Next(s, step)) < Measure(s)
  {
    StepKeeps(s, step);
    if step == Close {
      CloseDropsMeasure(s);
    } else {
      ActorDropsMeasure(s, step);
    }
  }

  /** No new enqueue begins; those that have reserved their slot may write and post. */
  ghost predicate NoneBegun(steps: seq<Step>) {
    forall i :: 0 <= i < |steps| ==> !steps[i].Reserve?
  }

  lemma {:induction false} MeasureBoundsRun(s: Pool, steps: seq<Step>, t: Pool)
    requires PoolOk(s) && Leads(s, steps, t) && NoneBegun(steps)
    ensures PoolOk(t) && |steps| + Measure(t) <= Measure(s)
    decreases |steps|
  {
    if steps != [] {
      MeasureDrops(s, steps[0]);
      MeasureBoundsRun(Next(s, steps[0]), steps[1..], t);
    }
  }

  /** From any reachable pool, a run in which no new enqueue begins is at most as long as the measure. */
  lemma {:induction false} ShutdownBounded(n: nat, blockSize: Size, taskSize: Size, before: seq<Step>, s: Pool,
                                           steps: seq<Step>, t: Pool)
    requires Reachable(n, blockSize, taskSize, before, s)
    requires Leads(s, steps, t) && NoneBegun(steps)
    ensures CloserInRange(s.closer, |s.workers|) && |steps| <= Measure(s)
  {
    ReachableOk(n, blockSize, taskSize, before, s);
    MeasureBoundsRun(s, steps, t);
  }

  ghost predicate Stuck(t: Pool) {
    forall step: Step :: !step.Reserve? ==> !Enabled(t, step)
  }

  /** A reachable pool can go no further without a new enqueue exactly when the closer is through; and
      then every worker is done, every queue destroyed and every record freed. With the bound above,
      destroy_workers terminates under every schedule. */
  lemma {:induction false} StuckMeansClosed(n: nat, blockSize: Size, taskSize: Size, steps: seq<Step>, t: Pool)
    requires Reachable(n, blockSize, taskSize, steps, t)
    ensures Stuck(t) <==> t.closer == Closed
    ensures |t.workers| == n
    ensures t.closer == Closed ==>
              forall i :: 0 <= i < n ==>
                t.workers[i].pc == Done && !t.workers[i].queueAlive && !t.workers[i].recordAlive
  {
    ReachableOk(n, blockSize, taskSize, steps, t);
    if t.closer == Closed {
      AckedBound(t.workers);
      forall i | 0 <= i < n
        ensures t.workers[i].pc == Done && !t.workers[i].queueAlive && !t.workers[i].recordAlive
      {
        assert InStep(t.closer, i, t.workers[i]);
      }
    } else {
      ShutdownProgress(n, blockSize, taskSize, steps, t);
    }
  }
}
