/** The worker pool of src/reactor.c as a transition system.

    Any number of workers run the sleep / drain / reset loop of start_working, any callers run
    enqueue (split into reserving a slot, writing the task and posting the worker's semaphore), and
    one closer runs destroy_workers. Each step is one sequentially consistent action of one of them;
    a run is any interleaving of enabled steps.

    Reservations of a worker's queue are numbered 0, 1, 2, ... over the whole run, and a number
    stands for the task the caller of that enqueue writes.
 */
module Reactor {
  import opened ArenaModel

  /** Where a worker is in start_working. `Drain(b, o)` is about to compare its cursor with the
      offset of block `b`, `Leave(b)` is about to read the next pointer of block `b`. */
  datatype Pc =
    | Top
    | Waiting
    | Woken
    | Drain(block: nat, offset: nat)
    | Leave(block: nat)
    | Resetting
    | Ack
    | Done

  datatype Worker = Worker(
    pc: Pc,
    shutdown: bool,
    sem: nat,
    queue: Chain,
    queueAlive: bool,        // arena_destroy has not run
    recordAlive: bool,       // the worker record has not been freed
    slots: map<Addr, nat>,   // the task stored at an address; absent means zero bytes
    unwritten: set<nat>,     // reserved, not yet written by its caller
    unposted: set<nat>,      // written, its caller has yet to post the semaphore
    // history
    addrs: seq<Addr>,        // the address reservation n was given
    epoch: nat,              // the first reservation made after the latest reset
    executed: seq<nat>,      // the tasks run, in order
    late: set<nat>,          // reserved when the cursor was already past the address
    missed: set<nat>,        // visited by the cursor before its caller had written it
    skipped: set<nat>,       // in a wiped block when the queue was reset
    notified: set<nat>)      // its caller has posted the semaphore

  /** Where the closer is in destroy_workers; `SetFlag(i)` and `Post(i)` are the two halves of the
      first loop, `Destroy(i)`, `Join(i)` and `Free(i)` the parts of the third. */
  datatype Closer =
    | SetFlag(i: nat)
    | Post(i: nat)
    | Collect(i: nat)
    | Destroy(i: nat)
    | Join(i: nat)
    | Free(i: nat)
    | Closed

  datatype Pool = Pool(workers: seq<Worker>, ack: nat, closer: Closer, taskSize: Size)

  datatype Step =
    | Work(w: nat)                            // one action of worker w
    | Reserve(w: nat)                         // arena_alloc in enqueue
    | Write(w: nat, task: nat, notify: bool)  // memcpy in enqueue
    | Notify(w: nat, task: nat)               // sem_post in enqueue
    | Close                                   // one action of the closer

  predicate IsEnqueue(step: Step) {
    step.Reserve? || step.Write? || step.Notify?
  }

  // ---------------------------------------------------------------- one worker

  /** The cursor is on a slot: the task found there, if any, runs. Zero bytes run nothing. */
  function Visit(w: Worker, stride: nat): Worker
    requires w.pc.Drain?
  {
    var at := Addr(w.pc.block, w.pc.offset);
    w.(pc := Drain(w.pc.block, w.pc.offset + stride),
       executed := if at in w.slots then w.executed + [w.slots[at]] else w.executed,
       missed := w.missed + StillUnwritten(w, at))
  }

  /** The reservation of this epoch at an address, if its caller has not written it yet. */
  function StillUnwritten(w: Worker, at: Addr): set<nat> {
    set n | w.epoch <= n < |w.addrs| && w.addrs[n] == at && n in w.unwritten :: n
  }

  /** The reservations since the latest reset that lie in wiped blocks. */
  function InWipedBlocks(w: Worker): set<nat> {
    set n | w.epoch <= n < |w.addrs|
            && w.addrs[n].block < |w.queue.blocks| && w.queue.blocks[w.addrs[n].block].wiped :: n
  }

  /** One action of start_working. */
  function WorkStep(w: Worker, stride: nat): Worker {
    match w.pc
    case Top => w.(pc := if w.shutdown then Ack else Waiting)
    case Waiting => w.(pc := Woken, sem := if w.sem > 0 then w.sem - 1 else 0)
    case Woken => w.(pc := if w.shutdown then Ack else Drain(0, 0))
    case Drain(b, o) =>
      if b >= |w.queue.blocks| then w.(pc := Resetting)
      else if o == 0 && w.queue.blocks[b].wiped then w.(pc := Leave(b))
      else if o < w.queue.blocks[b].offset then Visit(w, stride)
      else w.(pc := Leave(b))
    case Leave(b) => w.(pc := if b + 1 < |w.queue.blocks| then Drain(b + 1, 0) else Resetting)
    case Resetting => w.(pc := Top, queue := Reset(w.queue), slots := map[], epoch := |w.addrs|,
                           skipped := w.skipped + InWipedBlocks(w))
    case Ack => w.(pc := Done)
    case Done => w
  }

  /** The cursor will not come to this address again before the next reset. */
  predicate Passed(pc: Pc, at: Addr) {
    match pc
    case Drain(b, o) => at.block < b || (at.block == b && at.offset < o)
    case Leave(b) => at.block <= b
    case Resetting => true
    case _ => false
  }

  function ReserveStep(w: Worker, size: Size): Worker {
    AllocKeepsInv(w.queue, size);
    var (q, at) := Alloc(w.queue, size);
    var n := |w.addrs|;
    w.(queue := q, addrs := w.addrs + [at], unwritten := w.unwritten + {n},
       late := if Passed(w.pc, at) then w.late + {n} else w.late)
  }

  function WriteStep(w: Worker, task: nat, notify: bool): Worker
    requires task < |w.addrs|
  {
    w.(slots := w.slots[w.addrs[task] := task], unwritten := w.unwritten - {task},
       unposted := if notify then w.unposted + {task} else w.unposted)
  }

  function NotifyStep(w: Worker, task: nat): Worker {
    w.(sem := w.sem + 1, unposted := w.unposted - {task}, notified := w.notified + {task})
  }

  // ---------------------------------------------------------------- the whole pool

  function SetFlagFrom(i: nat, n: nat): Closer {
    if i < n then SetFlag(i) else CollectFrom(0, n)
  }

  function CollectFrom(i: nat, n: nat): Closer {
    if i < n then Collect(i) else DestroyFrom(0, n)
  }

  function DestroyFrom(i: nat, n: nat): Closer {
    if i < n then Destroy(i) else Closed
  }

  predicate CloserInRange(c: Closer, n: nat) {
    c.Closed? || c.i < n
  }

  /** A step is enabled when its actor is there and does not block. Callers of enqueue stop before
      the queue they use is destroyed: the pool they were given must still be open. */
  predicate Enabled(s: Pool, step: Step) {
    match step
    case Work(i) =>
      && i < |s.workers| && s.workers[i].pc != Done
      && (s.workers[i].pc == Waiting ==> s.workers[i].sem > 0)
    case Reserve(i) => i < |s.workers| && s.workers[i].queueAlive
    case Write(i, task, _) =>
      && i < |s.workers| && s.workers[i].queueAlive
      && task < |s.workers[i].addrs| && task in s.workers[i].unwritten
    case Notify(i, task) => i < |s.workers| && s.workers[i].queueAlive && task in s.workers[i].unposted
    case Close =>
      && CloserInRange(s.closer, |s.workers|)
      && match s.closer
         case Collect(_) => s.ack > 0
         case Join(i) => s.workers[i].pc == Done
         case Closed => false
         case _ => true
  }

  function CloseStep(s: Pool): Pool
    requires Enabled(s, Close)
  {
    var n := |s.workers|;
    match s.closer
    case SetFlag(i) => s.(workers := s.workers[i := s.workers[i].(shutdown := true)], closer := Post(i))
    case Post(i) =>
      s.(workers := s.workers[i := s.workers[i].(sem := s.workers[i].sem + 1)], closer := SetFlagFrom(i + 1, n))
    case Collect(i) => s.(ack := s.ack - 1, closer := CollectFrom(i + 1, n))
    case Destroy(i) => s.(workers := s.workers[i := s.workers[i].(queueAlive := false)], closer := Join(i))
    case Join(i) => s.(closer := Free(i))
    case Free(i) =>
      s.(workers := s.workers[i := s.workers[i].(recordAlive := false)], closer := DestroyFrom(i + 1, n))
  }

  function Next(s: Pool, step: Step): Pool
    requires Enabled(s, step)
  {
    match step
    case Work(i) =>
      s.(workers := s.workers[i := WorkStep(s.workers[i], Align(s.taskSize))],
         ack := if s.workers[i].pc == Ack then s.ack + 1 else s.ack)
    case Reserve(i) => s.(workers := s.workers[i := ReserveStep(s.workers[i], s.taskSize)])
    case Write(i, task, notify) => s.(workers := s.workers[i := WriteStep(s.workers[i], task, notify)])
    case Notify(i, task) => s.(workers := s.workers[i := NotifyStep(s.workers[i], task)])
    case Close => CloseStep(s)
  }

  function Start(blockSize: Size): Worker {
    Worker(Top, false, 0, Init(blockSize), true, true, map[], {}, {}, [], 0, [], {}, {}, {}, {})
  }

  /** `n` workers whose threads have started, and a closer that has not begun. */
  function Opened(n: nat, blockSize: Size, taskSize: Size): Pool {
    Pool(seq(n, _ => Start(blockSize)), 0, SetFlagFrom(0, n), taskSize)
  }

  /** The pools a run of enabled steps can lead to. */
  ghost predicate Leads(s: Pool, steps: seq<Step>, t: Pool)
    decreases |steps|
  {
    if steps == [] then s == t
    else Enabled(s, steps[0]) && Leads(Next(s, steps[0]), steps[1..], t)
  }
}
