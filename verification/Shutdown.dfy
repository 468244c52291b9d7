/** Whole runs of the pool: shutdown is safe and terminates, and delivery holds throughout. */
module Shutdown {
  import opened ArenaModel
  import opened Reactor
  import opened Delivery

  // ---------------------------------------------------------------- what the closer has done

  /** The closer has set the shutdown flag of worker `i`. */
  predicate Flagged(c: Closer, i: nat) {
    match c
    case SetFlag(j) => i < j
    case Post(j) => i <= j
    case _ => true
  }

  /** The closer has posted the semaphore of worker `i`. */
  predicate Signalled(c: Closer, i: nat) {
    match c
    case SetFlag(j) => i < j
    case Post(j) => i < j
    case _ => true
  }

  /** How many acknowledgements the closer has taken from `ack_sem`. */
  function Collected(c: Closer, n: nat): nat {
    match c
    case SetFlag(_) => 0
    case Post(_) => 0
    case Collect(i) => i
    case _ => n
  }

  predicate QueueGone(c: Closer, i: nat) {
    match c
    case Destroy(j) => i < j
    case Join(j) => i <= j
    case Free(j) => i <= j
    case Closed => true
    case _ => false
  }

  predicate RecordGone(c: Closer, i: nat) {
    match c
    case Destroy(j) => i < j
    case Join(j) => i < j
    case Free(j) => i < j
    case Closed => true
    case _ => false
  }

  /** How many workers have posted their acknowledgement: each does so once, by becoming Done. */
  function Acked(ws: seq<Worker>): nat {
    if ws == [] then 0
    else Acked(ws[..|ws| - 1]) + if ws[|ws| - 1].pc == Done then 1 else 0
  }

  lemma {:induction false} AckedUpdate(ws: seq<Worker>, i: nat, w: Worker)
    requires i < |ws|
    ensures Acked(ws[i := w]) - (if w.pc == Done then 1 else 0)
            == Acked(ws) - (if ws[i].pc == Done then 1 else 0)
  {
    var n := |ws| - 1;
    if i == n {
      assert ws[i := w][..n] == ws[..n];
    } else {
      assert ws[i := w][..n] == ws[..n][i := w];
      AckedUpdate(ws[..n], i, w);
    }
  }

  lemma {:induction false} AckedBound(ws: seq<Worker>)
    ensures Acked(ws) <= |ws|
    ensures Acked(ws) == |ws| <==> forall i :: 0 <= i < |ws| ==> ws[i].pc == Done
  {
    if ws != [] {
      var n := |ws| - 1;
      AckedBound(ws[..n]);
      assert (forall i :: 0 <= i < |ws| ==> ws[i].pc == Done)
          <==> (forall i :: 0 <= i < n ==> ws[..n][i].pc == Done) && ws[n].pc == Done;
    }
  }

  /** A worker that is waiting, or about to, while a task of the current epoch has been notified holds
      a wake-up. */
  ghost predicate WakeOk(w: Worker) {
    && (forall n :: n in w.unposted || n in w.notified ==> n < |w.addrs|)
    && ((w.pc == Top || w.pc == Waiting) && (exists n :: n in w.notified && w.epoch <= n) ==> w.sem > 0)
  }

  /** How far the closer is, as seen from worker `i`. A signalled worker never waits in vain. */
  ghost predicate InStep(c: Closer, i: nat, w: Worker) {
    && w.shutdown == Flagged(c, i)
    && w.queueAlive == !QueueGone(c, i)
    && w.recordAlive == !RecordGone(c, i)
    && (Signalled(c, i) && w.pc == Waiting ==> w.sem > 0)
    && WakeOk(w)
  }

  /** The handshake between the closer and the workers. */
  ghost predicate Protocol(s: Pool) {
    && CloserInRange(s.closer, |s.workers|)
    && s.ack + Collected(s.closer, |s.workers|) == Acked(s.workers)
    && forall i :: 0 <= i < |s.workers| ==> InStep(s.closer, i, s.workers[i])
  }

  ghost predicate PoolOk(s: Pool) {
    && 0 < s.taskSize <= MAX_REQUEST
    && Protocol(s)
    && forall i :: 0 <= i < |s.workers| ==> WorkerOk(s.workers[i], Align(s.taskSize))
  }

  // ---------------------------------------------------------------- every step keeps it

  /** A closer step changes at most its own worker, and keeps all of them in step. */
  lemma CloseKeepsInStep(s: Pool, i: nat)
    requires Protocol(s) && Enabled(s, Close) && i < |s.workers|
    ensures InStep(CloseStep(s).closer, i, CloseStep(s).workers[i])
    ensures CloseStep(s).workers[i].pc == s.workers[i].pc
  {
    assert InStep(s.closer, i, s.workers[i]);
  }

  lemma {:induction false} SamePcSameAcked(ws: seq<Worker>, vs: seq<Worker>)
    requires |ws| == |vs| && forall i :: 0 <= i < |ws| ==> ws[i].pc == vs[i].pc
    ensures Acked(ws) == Acked(vs)
  {
    if ws != [] { SamePcSameAcked(ws[..|ws| - 1], vs[..|vs| - 1]); }
  }

  lemma CloseKeepsProtocol(s: Pool)
    requires Protocol(s) && Enabled(s, Close)
    ensures Protocol(Next(s, Close))
  {
    var t := CloseStep(s);
    forall i | 0 <= i < |s.workers|
      ensures InStep(t.closer, i, t.workers[i]) && t.workers[i].pc == s.workers[i].pc
    {
      CloseKeepsInStep(s, i);
    }
    SamePcSameAcked(s.workers, t.workers);
    AckedBound(s.workers);
  }

  lemma WorkKeepsInStep(c: Closer, i: nat, w: Worker, stride: nat)
    requires InStep(c, i, w) && w.pc != Done && (w.pc == Waiting ==> w.sem > 0)
    ensures var v := WorkStep(w, stride);
            InStep(c, i, v) && (v.pc == Done <==> w.pc == Ack)
  {
  }

  lemma ActorKeepsProtocol(s: Pool, step: Step)
    requires Protocol(s) && Enabled(s, step) && step != Close
    ensures Protocol(Next(s, step))
  {
    var i := step.w;
    var w := s.workers[i];
    var t := Next(s, step);
    var v := t.workers[i];
    assert InStep(s.closer, i, w);
    if step.Work? {
      WorkKeepsInStep(s.closer, i, w, Align(s.taskSize));
    } else {
      assert v.pc == w.pc && InStep(s.closer, i, v);
    }
    AckedUpdate(s.workers, i, v);
    assert t == s.(workers := s.workers[i := v], ack := t.ack);
  }

  lemma {:induction false} ActorKeepsWorkers(s: Pool, step: Step)
    requires PoolOk(s) && Enabled(s, step) && step != Close
    ensures WorkerOk(Next(s, step).workers[step.w], Align(s.taskSize))
  {
    var w := s.workers[step.w];
    var stride := Align(s.taskSize);
    match step
    case Work(_) => WorkKeeps(w, stride);
    case Reserve(_) => ReserveKeeps(w, s.taskSize);
    case Write(_, task, notify) => WriteKeeps(w, stride, task, notify);
    case Notify(_, _) => FieldsKeep(w, Next(s, step).workers[step.w], stride);
  }

  lemma StepKeeps(s: Pool, step: Step)
    requires PoolOk(s) && Enabled(s, step)
    ensures PoolOk(Next(s, step))
  {
    var t := Next(s, step);
    if step == Close {
      CloseKeepsProtocol(s);
      forall i | 0 <= i < |t.workers| ensures WorkerOk(t.workers[i], Align(s.taskSize)) {
        FieldsKeep(s.workers[i], t.workers[i], Align(s.taskSize));
      }
    } else {
      ActorKeepsProtocol(s, step);
      ActorKeepsWorkers(s, step);
    }
  }

  lemma OpenedOk(n: nat, blockSize: Size, taskSize: Size)
    requires blockSize <= MAX_REQUEST && 0 < taskSize <= MAX_REQUEST
    ensures PoolOk(Opened(n, blockSize, taskSize))
  {
    var s := Opened(n, blockSize, taskSize);
    AckedNone(s.workers);
  }

  lemma {:induction false} AckedNone(ws: seq<Worker>)
    requires forall i :: 0 <= i < |ws| ==> ws[i].pc != Done
    ensures Acked(ws) == 0
  {
    if ws != [] { AckedNone(ws[..|ws| - 1]); }
  }

  lemma {:induction false} RunKeeps(s: Pool, steps: seq<Step>, t: Pool)
    requires PoolOk(s) && Leads(s, steps, t)
    ensures PoolOk(t) && |t.workers| == |s.workers|
    decreases |steps|
  {
    if steps != [] {
      StepKeeps(s, steps[0]);
      RunKeeps(Next(s, steps[0]), steps[1..], t);
    }
  }

  /** `t` is reachable from a freshly opened pool of `n` workers by some interleaving. */
  ghost predicate Reachable(n: nat, blockSize: Size, taskSize: Size, steps: seq<Step>, t: Pool) {
    && blockSize <= MAX_REQUEST && 0 < taskSize <= MAX_REQUEST
    && Leads(Opened(n, blockSize, taskSize), steps, t)
  }

  lemma ReachableOk(n: nat, blockSize: Size, taskSize: Size, steps: seq<Step>, t: Pool)
    requires Reachable(n, blockSize, taskSize, steps, t)
    ensures PoolOk(t) && |t.workers| == n
  {
    OpenedOk(n, blockSize, taskSize);
    RunKeeps(Opened(n, blockSize, taskSize), steps, t);
  }

  // ---------------------------------------------------------------- safety

  /** In every interleaving: once any queue is destroyed or any record freed, every worker has left
      its loop for good; so whatever step a worker can still take finds its queue and record intact.
      Acknowledgements taken plus those waiting in `ack_sem` always equal the workers that posted. */
  lemma {:induction false} ShutdownSafety(n: nat, blockSize: Size, taskSize: Size, steps: seq<Step>, t: Pool)
    requires Reachable(n, blockSize, taskSize, steps, t)
    ensures |t.workers| == n
    ensures t.ack + Collected(t.closer, n) == Acked(t.workers)
    ensures (exists i :: 0 <= i < n && (!t.workers[i].queueAlive || !t.workers[i].recordAlive))
            ==> forall j :: 0 <= j < n ==> t.workers[j].pc == Done
    ensures forall i :: 0 <= i < n && Enabled(t, Work(i)) ==> t.workers[i].queueAlive && t.workers[i].recordAlive
    ensures forall i :: 0 <= i < n && !t.workers[i].recordAlive ==> !t.workers[i].queueAlive
  {
    ReachableOk(n, blockSize, taskSize, steps, t);
    AckedBound(t.workers);
    assert forall i :: 0 <= i < n ==> InStep(t.closer, i, t.workers[i]);
  }

  /** In every interleaving and across all reset epochs: the tasks a worker has run are, in order,
      an increasing list of reservation numbers - so none runs twice and none overtakes another - and
      a task whose queue has since been reset was run exactly if it was not in a block wiped by an
      earlier reset, not reserved after the cursor had passed and not visited before its write. */
  lemma {:induction false} DeliverySafety(n: nat, blockSize: Size, taskSize: Size, steps: seq<Step>, t: Pool, i: nat)
    requires Reachable(n, blockSize, taskSize, steps, t) && i < n
    ensures |t.workers| == n
    ensures var w := t.workers[i];
            && Increasing(w.executed)
            && (forall m :: m in w.executed ==> m < |w.addrs|)
            && w.epoch <= |w.addrs|
            && forall m :: 0 <= m < w.epoch ==>
                 (m in w.executed <==> m !in w.skipped && m !in w.late && m !in w.missed)
  {
    ReachableOk(n, blockSize, taskSize, steps, t);
  }

  /** A worker about to reset has run every task reserved since the previous reset, if its queue has
      no wiped block and no task was reserved behind the cursor or visited before its write. */
  lemma {:induction false} UndisturbedDrainRunsAll(n: nat, blockSize: Size, taskSize: Size, steps: seq<Step>, t: Pool,
                                                   i: nat)
    requires Reachable(n, blockSize, taskSize, steps, t) && i < n
    requires |t.workers| == n && t.workers[i].pc == Resetting
    requires var w := t.workers[i];
             && (forall b :: 0 <= b < |w.queue.blocks| ==> !w.queue.blocks[b].wiped)
             && (forall m :: w.epoch <= m < |w.addrs| ==> m !in w.late && m !in w.missed)
    ensures var w := t.workers[i];
            forall m :: w.epoch <= m < |w.addrs| ==> m in w.executed
  {
    ReachableOk(n, blockSize, taskSize, steps, t);
    var w := t.workers[i];
    forall m | w.epoch <= m < |w.addrs| ensures m in w.executed {
      assert Passed(w.pc, w.addrs[m]) && !IsWiped(w, w.addrs[m]);
    }
  }

  /** No wake-up is lost: while a worker sleeps without one, no caller has posted for any task reserved
      since the latest reset; so such a task is still on its way in or was enqueued without notice. */
  lemma {:induction false} NoLostWakeUp(n: nat, blockSize: Size, taskSize: Size, steps: seq<Step>, t: Pool, i: nat)
    requires Reachable(n, blockSize, taskSize, steps, t) && i < n
    ensures |t.workers| == n
    ensures var w := t.workers[i];
            w.pc == Waiting && w.sem == 0 ==>
              forall m :: w.epoch <= m < |w.addrs| ==> m !in w.notified
  {
    ReachableOk(n, blockSize, taskSize, steps, t);
    assert InStep(t.closer, i, t.workers[i]);
  }

  /** Nothing can happen but a new enqueue or an action of the closer. */
  ghost predicate Quiet(t: Pool) {
    forall step: Step :: Enabled(t, step) ==> step.Reserve? || step.Close?
  }

  /** When a pool has come to rest, a worker that has not finished sleeps, and it has dealt with every
      task its callers notified it of: the task was run exactly if it was not in a block wiped by an
      earlier reset, not reserved after the cursor had passed and not visited before its write. */
  lemma {:induction false} QuietDelivers(n: nat, blockSize: Size, taskSize: Size, steps: seq<Step>, t: Pool, i: nat)
    requires Reachable(n, blockSize, taskSize, steps, t) && i < n
    requires Quiet(t)
    ensures |t.workers| == n
    ensures var w := t.workers[i];
            w.pc != Done ==>
              && w.pc == Waiting && w.sem == 0
              && forall m :: m in w.notified ==>
                   m < w.epoch && (m in w.executed <==> m !in w.skipped && m !in w.late && m !in w.missed)
  {
    ReachableOk(n, blockSize, taskSize, steps, t);
    var w := t.workers[i];
    if w.pc != Done {
      assert !Enabled(t, Work(i));
      assert InStep(t.closer, i, w);
      NoLostWakeUp(n, blockSize, taskSize, steps, t, i);
      DeliverySafety(n, blockSize, taskSize, steps, t, i);
    }
  }

  /** A worker that is told to shut down while it is not draining. */
  predicate Leaving(w: Worker) {
    w.shutdown && (w.pc.Top? || w.pc.Waiting? || w.pc.Woken? || w.pc.Ack? || w.pc.Done?)
  }

  /** From then on it runs nothing, whatever is still queued and whatever the others do. */
  lemma {:induction false} LeavingRunsNothing(s: Pool, steps: seq<Step>, t: Pool, i: nat)
    requires Leads(s, steps, t) && i < |s.workers| && Leaving(s.workers[i])
    ensures i < |t.workers| && Leaving(t.workers[i]) && t.workers[i].executed == s.workers[i].executed
    decreases |steps|
  {
    if steps != [] {
      var u := Next(s, steps[0]);
      assert Leaving(u.workers[i]) && u.workers[i].executed == s.workers[i].executed;
      LeavingRunsNothing(u, steps[1..], t, i);
    }
  }
}
