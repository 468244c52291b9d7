/** The heap tracker updated in place, proved to do what Tracker says. */
module TrackerObject {
  import opened ArenaModel
  import opened Numbers
  import opened Tracker

  class HeapTracker {
    const slots: array<Slot>
    var active: nat
    var total: nat
    var heap: map<nat, Size>  // the C heap: blocks handed out and not freed, with their headers
    var held: nat             // the bytes of all these, headers included, as the C heap was asked for them
    var refusals: nat         // how often the C heap had no memory

    ghost function View(): Table
      reads this, slots
    {
      Table(slots[..], active, total, heap)
    }

    /** The counters are as they should be, and the C heap's blocks fit beside each other. */
    ghost predicate Valid()
      reads this, slots
    {
      Conserved(View()) && held == Held(heap) < WORD
    }

    /** tracker_init on a zeroed record */
    constructor ()
      ensures Valid() && View() == Fresh() && fresh(slots)
    {
      slots := new Slot[MAX_HEAPS](_ => Empty);
      active, total, heap, held, refusals := 0, 0, map[], 0, 0;
      new;
      FreshConserved();
      assert slots[..] == Fresh().slots;
    }

    /** malloc, as far as the tracker can tell: it may refuse, and otherwise answers with some block
        that is not in use and does not overlap those that are. */
    method Malloc(bytes: Size) returns (r: Slot)
      requires Valid()
      modifies `refusals
      ensures r.Holds? ==> r.p !in heap && held + bytes < WORD
      ensures refusals == old(refusals) + if r.Holds? then 0 else 1
    {
      var refuse: bool := *;
      if refuse || held + bytes >= WORD {
        refusals := refusals + 1;
        return Empty;
      }
      var p: nat := Unused(heap.Keys);
      r := Holds(p);
    }

    /** heap_alloc */
    method Alloc(required: Size) returns (r: Slot)
      requires Valid()
      modifies this, slots
      ensures Valid()
      ensures r == Empty ==> View() == old(View())
      ensures refusals == old(refusals) + if Admits(old(View()), required) && r == Empty then 1 else 0
      ensures r.Holds? ==>
                && Admits(old(View()), required) && r.p !in old(heap)
                && View() == Store(old(View()), required, r.p)
                && r.p in heap && RoundedUp(required, heap[r.p]) && heap == old(heap)[r.p := heap[r.p]]
                && total == (old(total) + heap[r.p]) % WORD && active == old(active) + 1
      ensures required == 0 || old(active) >= 20 ==> r == Empty && refusals == old(refusals)
      ensures required > 0 && old(active) < 20 && refusals == old(refusals) ==> r.Holds?
    {
      hide Bytes, Held, Conserved, Align;
      SlotsLength();
      if required < 1 || active >= MAX_HEAPS {
        return Empty;
      }
      r := Malloc(WithHeader(Align(required)));
      if r.Holds? {
        StoreConserves(View(), required, r.p);
        HeldAdd(heap, r.p, Align(required));
        held := held + WithHeader(Align(required));
        slots[active] := r;
        active := active + 1;
        total := (total + Align(required)) % WORD;
        heap := heap[r.p := Align(required)];
      }
    }

    /** The search of heap_free. */
    method FindSlot(r: Slot) returns (i: nat)
      requires Valid() && r.Holds?
      ensures i == IndexOf(slots[..], r.p)
    {
      hide *;
      SlotsLength();
      i := 0;
      while i < MAX_HEAPS && slots[i] != r
        invariant i <= MAX_HEAPS && forall k :: 0 <= k < i ==> slots[k] != r
      {
        i := i + 1;
      }
    }

    lemma SlotsLength()
      requires Valid()
      ensures slots.Length == MAX_HEAPS
    {
    }

    /** Clears one entry and gives its block back to the C heap. */
    method Discard(i: nat)
      requires i < slots.Length && slots[i].Holds? && slots[i].p in heap && held == Held(heap)
      modifies `heap, `held, slots
      ensures slots[..] == old(slots[..])[i := Empty] && heap == old(heap) - {old(slots[i]).p}
      ensures held == Held(heap) <= old(held)
    {
      HeldRemove(heap, slots[i].p);
      held := held - WithHeader(heap[slots[i].p]);
      heap := heap - {slots[i].p};
      slots[i] := Empty;
    }

    /** heap_free of null or of a live block */
    method Free(r: Slot) returns (status: Status)
      requires Valid() && (r.Holds? ==> r.p in heap)
      modifies this, slots
      ensures Valid()
      ensures r == Empty ==> status == Success && View() == old(View())
      ensures r.Holds? ==> (View(), status) == Release(old(View()), r.p)
      ensures refusals == old(refusals)
    {
      if r == Empty {
        return Success;
      }
      hide Conserved, Bytes, Held;
      ReleaseConserves(View(), r.p);
      SlotsLength();
      var size := heap[r.p];
      if active == 0 || total < size {
        return AbortCalculation;
      }
      var i := FindSlot(r);
      if i == MAX_HEAPS {
        return AbortNotFound;
      }
      Discard(i);
      active := active - 1;
      total := total - size;
      status := Success;
    }

    /** tracking_health: whether it reports no fatal condition. */
    method Healthy() returns (ok: bool)
      ensures ok <==> !Fatal(View())
      ensures ok <==> (active == 0 <==> total == 0)
      ensures Valid() ==> (!ok <==> heap.Keys != {} && Bytes(heap) % WORD == 0)
    {
      ok := !((active == 0 && total > 0) || (active > 0 && total == 0));
      if Conserved(View()) { FatalIff(View()); }
    }

    /** heap_free_all */
    method FreeAll()
      requires Valid()
      modifies this, slots
      ensures View() == Sweep(old(View())) && held == Held(heap)
    {
      hide Bytes, Held, Conserved, Cleared, Swept;
      var i := 0;
      ghost var t := View();
      SweepStart(t);
      SlotsLength();
      while i < active
        invariant i <= active == t.active <= MAX_HEAPS == slots.Length && held == Held(heap)
        invariant slots[..] == Cleared(t.slots, i) && heap == t.heap - Swept(t.slots, i)
      {
        SweepStep(t, i);
        assert slots[i] == slots[..][i];
        if slots[i].Holds? {
          Discard(i);
        }
        i := i + 1;
      }
      active, total := 0, 0;
    }
  }

  lemma SweepStart(t: Table)
    requires Conserved(t)
    ensures |t.slots| == MAX_HEAPS >= t.active
    ensures t.slots == Cleared(t.slots, 0) && t.heap == t.heap - Swept(t.slots, 0)
  {
  }

  lemma SweepStep(t: Table, i: nat)
    requires Conserved(t) && i < MAX_HEAPS
    ensures i < |t.slots| && Cleared(t.slots, i)[i] == t.slots[i]
    ensures Cleared(t.slots, i + 1) == Cleared(t.slots, i)[i := Empty]
    ensures var gone := t.heap - Swept(t.slots, i);
            && (t.slots[i] == Empty ==>
                  Cleared(t.slots, i + 1) == Cleared(t.slots, i) && gone == t.heap - Swept(t.slots, i + 1))
            && (t.slots[i].Holds? ==>
                  t.slots[i].p in gone && gone - {t.slots[i].p} == t.heap - Swept(t.slots, i + 1))
  {
    if t.slots[i] == Empty {
      assert Swept(t.slots, i + 1) == Swept(t.slots, i);
    } else {
      assert Swept(t.slots, i + 1) == Swept(t.slots, i) + {t.slots[i].p};
    }
  }
}
