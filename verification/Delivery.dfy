/** What a worker runs: each task at most once and in reservation order over the whole run, and
    exactly the tasks that were not skipped, reserved late or visited too early. */
module Delivery {
  import opened ArenaModel
  import opened ArenaTheorems
  import opened QueueLayout
  import opened Reactor

  ghost predicate Before(a: Addr, b: Addr) {
    a.block < b.block || (a.block == b.block && a.offset < b.offset)
  }

  ghost predicate IsWiped(w: Worker, at: Addr) {
    at.block < |w.queue.blocks| && w.queue.blocks[at.block].wiped
  }

  /** The reservations of the current epoch lie in the chain, in order, at multiples of the stride. */
  ghost predicate EpochLaidOut(w: Worker, stride: nat)
    requires stride > 0
  {
    && w.epoch <= |w.addrs|
    && (forall n :: w.epoch <= n < |w.addrs| ==>
          && w.addrs[n].block <= w.queue.current
          && Lands(0, w.addrs[n].offset, stride)
          && w.addrs[n].offset + stride <= w.queue.blocks[w.addrs[n].block].offset)
    && (forall m, n :: w.epoch <= m < n < |w.addrs| ==> Before(w.addrs[m], w.addrs[n]))
    && (forall n :: 0 <= n < w.epoch ==> IsWiped(w, w.addrs[n]))
  }

  /** The cursor is on the chain and will land on every slot it has not passed. */
  ghost predicate CursorOk(w: Worker, stride: nat)
    requires stride > 0
  {
    match w.pc
    case Drain(b, o) =>
      && b < |w.queue.blocks| && Lands(o, w.queue.blocks[b].offset, stride)
      && (w.queue.blocks[b].wiped ==> o == 0)
      && forall n :: w.epoch <= n < |w.addrs| && w.addrs[n].block == b && o <= w.addrs[n].offset ==>
           Lands(o, w.addrs[n].offset, stride)
    case Leave(b) => b < |w.queue.blocks|
    case _ => true
  }

  /** A slot holds a task that was reserved there and has been written; and a task of the current
      epoch that has been written is in its slot, unless its block is wiped. */
  ghost predicate SlotsOk(w: Worker) {
    && w.epoch <= |w.addrs|
    && (forall n :: n in w.unwritten ==> n < |w.addrs|)
    && (forall at :: at in w.slots ==>
          w.slots[at] < |w.addrs| && w.addrs[w.slots[at]] == at && w.slots[at] !in w.unwritten)
    && (forall n :: w.epoch <= n < |w.addrs| && n !in w.unwritten && !IsWiped(w, w.addrs[n]) ==>
          w.addrs[n] in w.slots && w.slots[w.addrs[n]] == n)
  }

  /** Which of the reasons for not running a task applies to reservation `n`. */
  ghost predicate Dropped(w: Worker, n: nat) {
    n in w.late || n in w.missed || n in w.skipped
  }

  ghost predicate HistoryOk(w: Worker) {
    && (forall n :: n in w.executed || n in w.late || n in w.missed || n in w.skipped ==> n < |w.addrs|)
    && (forall n :: n in w.skipped ==> n < w.epoch)
    && (forall n :: 0 <= n < w.epoch ==> (n in w.executed <==> !Dropped(w, n)))
    && (forall n :: n in w.executed && w.epoch <= n ==>
          !Dropped(w, n) && !IsWiped(w, w.addrs[n]) && Passed(w.pc, w.addrs[n]))
    && (forall n :: (n in w.late || n in w.missed) && w.epoch <= n ==> Passed(w.pc, w.addrs[n]))
    && (forall n :: w.epoch <= n < |w.addrs| && Passed(w.pc, w.addrs[n]) && !IsWiped(w, w.addrs[n]) ==>
          n in w.executed || n in w.late || n in w.missed)
  }

  ghost predicate Increasing(s: seq<nat>) {
    forall i, j :: 0 <= i < j < |s| ==> s[i] < s[j]
  }

  ghost predicate QueueOk(w: Worker, stride: nat)
    requires stride > 0
  {
    Bounded(w.queue) && TaskAligned(w.queue, stride) && EpochLaidOut(w, stride)
  }

  ghost predicate WorkerOk(w: Worker, stride: nat)
    requires stride > 0
  {
    QueueOk(w, stride) && CursorOk(w, stride) && SlotsOk(w) && HistoryOk(w) && Increasing(w.executed)
  }

  // ---------------------------------------------------------------- steps keep it

  /** In the current epoch, addresses are ordered as reservation numbers are. */
  lemma AddressOrder(w: Worker, stride: nat, m: nat, n: nat)
    requires stride > 0 && EpochLaidOut(w, stride)
    requires w.epoch <= m < |w.addrs| && w.epoch <= n < |w.addrs|
    ensures Before(w.addrs[m], w.addrs[n]) <==> m < n
  {
    if m < n {
      assert Before(w.addrs[m], w.addrs[n]);
    } else if n < m {
      assert Before(w.addrs[n], w.addrs[m]);
    }
  }

  /** Flags and semaphores play no part in delivery. */
  lemma FieldsKeep(w: Worker, v: Worker, stride: nat)
    requires stride > 0 && WorkerOk(w, stride)
    requires v == w.(shutdown := v.shutdown, sem := v.sem, queueAlive := v.queueAlive,
                     recordAlive := v.recordAlive, unposted := v.unposted, notified := v.notified)
    ensures WorkerOk(v, stride)
  {
    assert forall at: Addr :: IsWiped(v, at) == IsWiped(w, at);
  }

  lemma QueueSame(w: Worker, v: Worker, stride: nat)
    requires stride > 0 && QueueOk(w, stride)
    requires v.queue == w.queue && v.addrs == w.addrs && v.epoch == w.epoch
    ensures QueueOk(v, stride)
  {
  }

  lemma SlotsSame(w: Worker, pc: Pc)
    requires SlotsOk(w)
    ensures SlotsOk(w.(pc := pc))
  {
    assert forall at: Addr :: IsWiped(w.(pc := pc), at) == IsWiped(w, at);
  }

  lemma HistorySame(w: Worker, pc: Pc)
    requires HistoryOk(w)
    requires forall n :: w.epoch <= n < |w.addrs| ==> Passed(pc, w.addrs[n]) == Passed(w.pc, w.addrs[n])
    ensures HistoryOk(w.(pc := pc))
  {
    hide Passed;
    assert forall at: Addr :: IsWiped(w.(pc := pc), at) == IsWiped(w, at);
  }

  /** Moving the program counter is harmless when it passes no slot. */
  lemma PcKeeps(w: Worker, stride: nat, pc: Pc)
    requires stride > 0 && WorkerOk(w, stride) && CursorOk(w.(pc := pc), stride)
    requires forall n :: w.epoch <= n < |w.addrs| ==> Passed(pc, w.addrs[n]) == Passed(w.pc, w.addrs[n])
    ensures WorkerOk(w.(pc := pc), stride)
  {
    hide QueueOk, CursorOk, SlotsOk, HistoryOk, Passed;
    QueueSame(w, w.(pc := pc), stride);
    SlotsSame(w, pc);
    HistorySame(w, pc);
  }

  ghost predicate AboutToVisit(w: Worker, stride: nat)
    requires stride > 0
  {
    && WorkerOk(w, stride) && w.pc.Drain?
    && !w.queue.blocks[w.pc.block].wiped && w.pc.offset < w.queue.blocks[w.pc.block].offset
  }

  /** Moving the cursor by one stride passes no slot but the one it was on. */
  lemma VisitPassesOne(w: Worker, stride: nat, n: nat)
    requires stride > 0 && CursorOk(w, stride) && w.pc.Drain? && w.epoch <= n < |w.addrs|
    ensures Passed(Visit(w, stride).pc, w.addrs[n])
            <==> Passed(w.pc, w.addrs[n]) || w.addrs[n] == Addr(w.pc.block, w.pc.offset)
  {
    var o := w.addrs[n].offset;
    if w.addrs[n].block == w.pc.block && w.pc.offset <= o {
      assert Lands(w.pc.offset, o, stride);
      assert w.pc.offset != o ==> Lands(w.pc.offset + stride, o, stride);
    }
  }

  lemma VisitRunsNewest(w: Worker, stride: nat)
    requires stride > 0 && AboutToVisit(w, stride)
    requires Addr(w.pc.block, w.pc.offset) in w.slots
    ensures var t := w.slots[Addr(w.pc.block, w.pc.offset)];
            && w.epoch <= t < |w.addrs| && !Passed(w.pc, w.addrs[t])
            && forall e :: e in w.executed ==> e < t
  {
    var t := w.slots[Addr(w.pc.block, w.pc.offset)];
    forall e | e in w.executed ensures e < t {
      if w.epoch <= e {
        AddressOrder(w, stride, e, t);
      }
    }
  }

  lemma VisitKeepsOrder(w: Worker, stride: nat)
    requires stride > 0 && AboutToVisit(w, stride)
    ensures Increasing(Visit(w, stride).executed)
  {
    var at := Addr(w.pc.block, w.pc.offset);
    if at in w.slots {
      VisitRunsNewest(w, stride);
      forall i | 0 <= i < |w.executed| ensures w.executed[i] < w.slots[at] {
        assert w.executed[i] in w.executed;
      }
    }
  }

  lemma WrittenSlotMissesNothing(w: Worker, stride: nat)
    requires stride > 0 && EpochLaidOut(w, stride) && SlotsOk(w) && w.pc.Drain?
    requires var at := Addr(w.pc.block, w.pc.offset); at in w.slots && w.epoch <= w.slots[at]
    ensures StillUnwritten(w, Addr(w.pc.block, w.pc.offset)) == {}
  {
    var at := Addr(w.pc.block, w.pc.offset);
    forall n | w.epoch <= n < |w.addrs| && w.addrs[n] == at ensures n == w.slots[at] {
      AddressOrder(w, stride, n, w.slots[at]);
      AddressOrder(w, stride, w.slots[at], n);
    }
  }

  /** Running the task under the cursor passes that task's reservation and misses nothing. */
  lemma RunPassesOne(w: Worker, stride: nat, n: nat)
    requires stride > 0 && AboutToVisit(w, stride) && w.epoch <= n < |w.addrs|
    requires Addr(w.pc.block, w.pc.offset) in w.slots
    ensures Passed(Visit(w, stride).pc, w.addrs[n])
            <==> Passed(w.pc, w.addrs[n]) || n == w.slots[Addr(w.pc.block, w.pc.offset)]
  {
    var t := w.slots[Addr(w.pc.block, w.pc.offset)];
    VisitRunsNewest(w, stride);
    VisitPassesOne(w, stride, n);
    AddressOrder(w, stride, n, t);
    AddressOrder(w, stride, t, n);
  }

  lemma RunVisit(w: Worker, stride: nat)
    requires stride > 0 && AboutToVisit(w, stride)
    requires Addr(w.pc.block, w.pc.offset) in w.slots
    ensures var v := Visit(w, stride);
            var t := w.slots[Addr(w.pc.block, w.pc.offset)];
            v == w.(pc := v.pc, executed := w.executed + [t])
  {
    VisitRunsNewest(w, stride);
    WrittenSlotMissesNothing(w, stride);
  }

  lemma RunKeepsHistory(w: Worker, stride: nat)
    requires stride > 0 && AboutToVisit(w, stride)
    requires Addr(w.pc.block, w.pc.offset) in w.slots
    ensures HistoryOk(Visit(w, stride))
  {
    var t := w.slots[Addr(w.pc.block, w.pc.offset)];
    var v := Visit(w, stride);
    VisitRunsNewest(w, stride);
    RunVisit(w, stride);
    forall n | w.epoch <= n < |w.addrs|
      ensures Passed(v.pc, w.addrs[n]) <==> Passed(w.pc, w.addrs[n]) || n == t
    {
      RunPassesOne(w, stride, n);
    }
    assert HistoryOk(w) && !IsWiped(w, w.addrs[t]);
    hide Visit, WorkerOk, AboutToVisit, Passed;
    assert forall n :: n in v.executed <==> n in w.executed || n == t;
    assert forall at: Addr :: IsWiped(v, at) == IsWiped(w, at);
  }

  lemma MissKeepsHistory(w: Worker, stride: nat)
    requires stride > 0 && AboutToVisit(w, stride)
    requires Addr(w.pc.block, w.pc.offset) !in w.slots
    ensures HistoryOk(Visit(w, stride))
  {
    var at := Addr(w.pc.block, w.pc.offset);
    var v := Visit(w, stride);
    forall n | w.epoch <= n < |w.addrs|
      ensures Passed(v.pc, w.addrs[n]) <==> Passed(w.pc, w.addrs[n]) || w.addrs[n] == at
    {
      VisitPassesOne(w, stride, n);
    }
    forall n | w.epoch <= n < |w.addrs| && w.addrs[n] == at ensures n in w.unwritten {
      assert !IsWiped(w, w.addrs[n]);
    }
    assert forall n :: n in v.missed <==> n in w.missed || (w.epoch <= n < |w.addrs| && w.addrs[n] == at);
    assert v == w.(pc := v.pc, missed := v.missed);
  }

  lemma VisitKeepsCursor(w: Worker, stride: nat)
    requires stride > 0 && CursorOk(w, stride) && SlotsOk(w) && w.pc.Drain?
    requires !w.queue.blocks[w.pc.block].wiped && w.pc.offset < w.queue.blocks[w.pc.block].offset
    ensures CursorOk(Visit(w, stride), stride) && SlotsOk(Visit(w, stride))
  {
    var v := Visit(w, stride);
    assert Lands(v.pc.offset, w.queue.blocks[w.pc.block].offset, stride);
  }

  lemma VisitKeeps(w: Worker, stride: nat)
    requires stride > 0 && AboutToVisit(w, stride)
    ensures WorkerOk(Visit(w, stride), stride)
  {
    VisitKeepsCursor(w, stride);
    VisitKeepsOrder(w, stride);
    if Addr(w.pc.block, w.pc.offset) in w.slots {
      RunKeepsHistory(w, stride);
    } else {
      MissKeepsHistory(w, stride);
    }
    QueueSame(w, Visit(w, stride), stride);
  }

  lemma ResetKeeps(w: Worker, stride: nat)
    requires stride > 0 && WorkerOk(w, stride) && w.pc == Resetting
    ensures WorkerOk(WorkStep(w, stride), stride)
  {
    var v := WorkStep(w, stride);
    forall n | 0 <= n < |w.addrs| ensures IsWiped(v, w.addrs[n]) {
      if n < w.epoch { assert IsWiped(w, w.addrs[n]); }
    }
  }

  lemma EnterKeeps(w: Worker, stride: nat, b: nat)
    requires stride > 0 && WorkerOk(w, stride) && b < |w.queue.blocks|
    requires if b == 0 then w.pc == Woken else w.pc == Leave(b - 1)
    ensures WorkerOk(w.(pc := Drain(b, 0)), stride)
  {
    PcKeeps(w, stride, Drain(b, 0));
  }

  /** Past its last slot, or in a wiped block, the cursor has passed all there is to pass. */
  lemma LeavePassesNothing(w: Worker, stride: nat, n: nat)
    requires stride > 0 && QueueOk(w, stride) && CursorOk(w, stride) && w.pc.Drain? && w.epoch <= n < |w.addrs|
    requires w.queue.blocks[w.pc.block].wiped || w.pc.offset >= w.queue.blocks[w.pc.block].offset
    requires !IsWiped(w, w.addrs[n])
    ensures Passed(Leave(w.pc.block), w.addrs[n]) <==> Passed(w.pc, w.addrs[n])
  {
  }

  lemma {:induction false} LeaveKeeps(w: Worker, stride: nat)
    requires stride > 0 && WorkerOk(w, stride) && w.pc.Drain?
    requires w.queue.blocks[w.pc.block].wiped || w.pc.offset >= w.queue.blocks[w.pc.block].offset
    ensures WorkerOk(w.(pc := Leave(w.pc.block)), stride)
  {
    var v := w.(pc := Leave(w.pc.block));
    QueueSame(w, v, stride);
    SlotsSame(w, v.pc);
    LeaveKeepsHistory(w, stride);
  }

  lemma LeaveKeepsHistory(w: Worker, stride: nat)
    requires stride > 0 && WorkerOk(w, stride) && w.pc.Drain?
    requires w.queue.blocks[w.pc.block].wiped || w.pc.offset >= w.queue.blocks[w.pc.block].offset
    ensures HistoryOk(w.(pc := Leave(w.pc.block)))
  {
    var v := w.(pc := Leave(w.pc.block));
    forall n | w.epoch <= n < |w.addrs|
      ensures !IsWiped(w, w.addrs[n]) ==> (Passed(v.pc, w.addrs[n]) <==> Passed(w.pc, w.addrs[n]))
      ensures Passed(w.pc, w.addrs[n]) ==> Passed(v.pc, w.addrs[n])
    {
      if !IsWiped(w, w.addrs[n]) { LeavePassesNothing(w, stride, n); }
    }
    hide Passed, QueueOk, CursorOk, SlotsOk, Lands;
    assert forall at: Addr :: IsWiped(v, at) == IsWiped(w, at);
  }

  lemma EndKeeps(w: Worker, stride: nat)
    requires stride > 0 && WorkerOk(w, stride) && w.pc.Leave? && w.pc.block + 1 == |w.queue.blocks|
    ensures WorkerOk(w.(pc := Resetting), stride)
  {
    PcKeeps(w, stride, Resetting);
  }

  lemma IdleKeeps(w: Worker, stride: nat)
    requires stride > 0 && WorkerOk(w, stride)
    requires w.pc.Top? || w.pc.Waiting? || w.pc.Ack? || w.pc.Done? || (w.pc.Woken? && w.shutdown)
    ensures WorkerOk(WorkStep(w, stride), stride)
  {
    var v := WorkStep(w, stride);
    PcKeeps(w, stride, v.pc);
    FieldsKeep(w.(pc := v.pc), v, stride);
  }

  lemma DrainKeeps(w: Worker, stride: nat)
    requires stride > 0 && WorkerOk(w, stride) && w.pc.Drain?
    ensures WorkerOk(WorkStep(w, stride), stride)
  {
    if !w.queue.blocks[w.pc.block].wiped && w.pc.offset < w.queue.blocks[w.pc.block].offset {
      VisitKeeps(w, stride);
    } else {
      LeaveKeeps(w, stride);
    }
  }

  lemma LeaveMoves(w: Worker, stride: nat)
    requires w.pc.Leave?
    ensures WorkStep(w, stride)
            == w.(pc := if w.pc.block + 1 < |w.queue.blocks| then Drain(w.pc.block + 1, 0) else Resetting)
  {
  }

  lemma NextBlockKeeps(w: Worker, stride: nat)
    requires stride > 0 && WorkerOk(w, stride) && w.pc.Leave?
    ensures WorkerOk(WorkStep(w, stride), stride)
  {
    hide *;
    LeaveMoves(w, stride);
    LeaveInChain(w, stride);
    if w.pc.block + 1 < |w.queue.blocks| {
      EnterKeeps(w, stride, w.pc.block + 1);
    } else {
      EndKeeps(w, stride);
    }
  }

  lemma LeaveInChain(w: Worker, stride: nat)
    requires stride > 0 && WorkerOk(w, stride) && w.pc.Leave?
    ensures w.pc.block < |w.queue.blocks|
  {
  }

  lemma {:induction false} WorkKeeps(w: Worker, stride: nat)
    requires stride > 0 && WorkerOk(w, stride)
    ensures WorkerOk(WorkStep(w, stride), stride)
  {
    if w.pc.Drain? {
      DrainKeeps(w, stride);
    } else if w.pc.Leave? {
      NextBlockKeeps(w, stride);
    } else if w.pc.Resetting? {
      ResetKeeps(w, stride);
    } else if w.pc.Woken? && !w.shutdown {
      EnterKeeps(w, stride, 0);
    } else {
      IdleKeeps(w, stride);
    }
  }

  /** What reserving a slot does to the queue, as far as the worker can tell. */
  lemma ReserveShape(w: Worker, size: Size)
    requires 0 < size <= MAX_REQUEST && Bounded(w.queue) && TaskAligned(w.queue, Align(size))
    ensures var v := ReserveStep(w, size);
            var at := v.addrs[|w.addrs|];
            && v.addrs == w.addrs + [at] && v.pc == w.pc && v.epoch == w.epoch
            && Bounded(v.queue) && TaskAligned(v.queue, Align(size))
            && w.queue.current <= v.queue.current == at.block < |v.queue.blocks|
            && Lands(0, at.offset, Align(size))
            && at.offset == (if at.block < |w.queue.blocks| then w.queue.blocks[at.block].offset else 0)
            && v.queue.blocks[at.block].offset == at.offset + Align(size)
            && |w.queue.blocks| <= |v.queue.blocks|
            && (forall i :: 0 <= i < |w.queue.blocks| ==>
                  v.queue.blocks[i] == if i == at.block then w.queue.blocks[i].(offset := at.offset + Align(size))
                                       else w.queue.blocks[i])
  {
    TaskAllocAddsSlot(w.queue, size);
    AllocEffect(w.queue, size);
    var at := Alloc(w.queue, size).1;
    if at.block < |w.queue.blocks| {
      assert Lands(0, w.queue.blocks[at.block].offset, Align(size));
    }
  }

  lemma ReserveKeepsQueue(w: Worker, size: Size)
    requires 0 < size <= MAX_REQUEST && QueueOk(w, Align(size))
    ensures QueueOk(ReserveStep(w, size), Align(size))
  {
    ReserveShape(w, size);
    var v := ReserveStep(w, size);
    var at := v.addrs[|w.addrs|];
    forall n | w.epoch <= n < |w.addrs| ensures Before(w.addrs[n], at) {}
  }

  lemma ReserveKeepsCursor(w: Worker, size: Size)
    requires 0 < size <= MAX_REQUEST && QueueOk(w, Align(size)) && CursorOk(w, Align(size))
    ensures CursorOk(ReserveStep(w, size), Align(size))
  {
    ReserveShape(w, size);
    var at := ReserveStep(w, size).addrs[|w.addrs|];
    if w.pc.Drain? && w.pc.block == at.block {
      LandsExtends(w.pc.offset, at.offset, Align(size));
    }
  }

  lemma ReserveKeepsHistory(w: Worker, size: Size)
    requires 0 < size <= MAX_REQUEST && QueueOk(w, Align(size)) && HistoryOk(w)
    ensures HistoryOk(ReserveStep(w, size))
  {
    ReserveShape(w, size);
    var v := ReserveStep(w, size);
    forall n | w.epoch <= n < |w.addrs| ensures IsWiped(v, v.addrs[n]) == IsWiped(w, w.addrs[n]) {}
  }

  lemma ReserveKeepsSlots(w: Worker, size: Size)
    requires 0 < size <= MAX_REQUEST && QueueOk(w, Align(size)) && SlotsOk(w)
    ensures SlotsOk(ReserveStep(w, size))
  {
    ReserveShape(w, size);
    var v := ReserveStep(w, size);
    forall n | w.epoch <= n < |w.addrs| ensures IsWiped(v, v.addrs[n]) == IsWiped(w, w.addrs[n]) {}
  }

  lemma ReserveKeeps(w: Worker, size: Size)
    requires 0 < size <= MAX_REQUEST && WorkerOk(w, Align(size))
    ensures WorkerOk(ReserveStep(w, size), Align(size))
  {
    ReserveKeepsQueue(w, size);
    ReserveKeepsCursor(w, size);
    ReserveKeepsHistory(w, size);
    ReserveKeepsSlots(w, size);
  }

  lemma WriteKeepsSlots(w: Worker, stride: nat, task: nat, notify: bool)
    requires stride > 0 && EpochLaidOut(w, stride) && SlotsOk(w) && task < |w.addrs|
    ensures SlotsOk(WriteStep(w, task, notify))
  {
    var v := WriteStep(w, task, notify);
    forall n | w.epoch <= n < |w.addrs| && w.addrs[n] == w.addrs[task] && w.epoch <= task ensures n == task {
      AddressOrder(w, stride, n, task);
      AddressOrder(w, stride, task, n);
    }
  }

  lemma WriteKeeps(w: Worker, stride: nat, task: nat, notify: bool)
    requires stride > 0 && WorkerOk(w, stride) && task < |w.addrs|
    ensures WorkerOk(WriteStep(w, task, notify), stride)
  {
    var v := WriteStep(w, task, notify);
    WriteKeepsSlots(w, stride, task, notify);
    QueueSame(w, v, stride);
    assert CursorOk(v, stride);
    assert v == w.(slots := v.slots, unwritten := v.unwritten, unposted := v.unposted);
  }
}
