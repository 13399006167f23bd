/** Whole runs of a heap client (mm/heap/heap.c): calls in any order on the pointers it holds. */
module HeapRuns {
  import opened Common
  import opened Heap
  import opened HeapPages
  import Vmm

  /** A client's calls; each names the variable that holds the pointer. */
  datatype Op = Malloc(slot: nat, size: nat) | Zalloc(slot: nat, size: nat) | Realloc(slot: nat, size: nat) | Free(slot: nat)

  predicate OpOk(op: Op, n: nat) {
    op.slot < n && (!op.Free? ==> op.size + ALIGN + HEADER + PAGE <= WORD)
  }

  ghost predicate HeldAt(slots: seq<nat>, live: map<nat, nat>, i: nat)
    requires i < |slots|
  {
    slots[i] != 0 ==> slots[i] >= HEADER && slots[i] - HEADER in live
  }

  ghost predicate DifferAt(slots: seq<nat>, i: nat, j: nat)
    requires i < |slots| && j < |slots|
  {
    i != j && slots[i] != 0 ==> slots[i] != slots[j]
  }

  /** The variables hold NULL or pairwise different live pointers. */
  ghost predicate Held(slots: seq<nat>, live: map<nat, nat>) {
    && (forall i: nat {:trigger HeldAt(slots, live, i)} :: i < |slots| ==> HeldAt(slots, live, i))
    && (forall i: nat, j: nat {:trigger DifferAt(slots, i, j)} :: i < |slots| && j < |slots| ==> DifferAt(slots, i, j))
  }

  /** Replacing one variable's pointer by a new one, or by NULL. */
  lemma HeldChanges(slots: seq<nat>, live: map<nat, nat>, live': map<nat, nat>, i: nat, p: nat)
    requires Held(slots, live) && i < |slots|
    requires p != 0 ==> p >= HEADER && p - HEADER in live' && p - HEADER !in Without(live, slots[i])
    requires forall b :: b in Without(live, slots[i]) ==> b in live'
    ensures Held(slots[i := p], live')
  {
    var slots' := slots[i := p];
    forall j: nat | j < |slots| ensures HeldAt(slots', live', j) {
      assert HeldAt(slots, live, j) && DifferAt(slots, j, i);
    }
    forall j: nat, k: nat | j < |slots| && k < |slots| ensures DifferAt(slots', j, k) {
      assert HeldAt(slots, live, j) && HeldAt(slots, live, k) && HeldAt(slots', live', j) && HeldAt(slots', live', k);
      assert DifferAt(slots, j, k) && DifferAt(slots, j, i) && DifferAt(slots, k, i);
    }
  }

  /** The heap has room for a call, so that it returns. */
  ghost predicate Suits(heap: KernelHeap, op: Op)
    reads heap.Repr()
  {
    op.Free? || op.size == 0 || heap.Room(Round(op.size))
  }

  /** The call on pointer q, and the pointer the client holds after it. */
  method Call(heap: KernelHeap, op: Op, q: nat) returns (out: Vmm.Outcome, p: nat)
    requires heap.Valid() && OpOk(op, op.slot + 1) && (q != 0 ==> q >= HEADER && q - HEADER in LiveIn(heap))
    modifies heap.Repr()
    ensures out == Vmm.Done ==> heap.Valid() && (old(heap.Smooth()) ==> heap.Smooth())
    ensures out == Vmm.Done && p != 0 ==>
      p >= HEADER && p - HEADER in LiveIn(heap) && p - HEADER !in Without(old(LiveIn(heap)), q)
    ensures out == Vmm.Done ==> forall b :: b in Without(old(LiveIn(heap)), q) ==> b in LiveIn(heap)
    ensures old(Suits(heap, op)) ==> out == Vmm.Done
  {
    out, p := Vmm.Done, 0;
    match op
    case Malloc(_, size) =>
      ghost var oom;
      out, p, oom := heap.KMalloc(size);
    case Zalloc(_, size) =>
      ghost var oom;
      out, p, oom := heap.KZalloc(size);
    case Realloc(_, size) => out, p := Resize(heap, q, size);
    case Free(_) =>
      heap.KFree(q);
  }

  /** A client keeps its old pointer if krealloc fails. */
  method Resize(heap: KernelHeap, q: nat, size: nat) returns (out: Vmm.Outcome, p: nat)
    requires heap.Valid() && (q != 0 ==> q >= HEADER && q - HEADER in LiveIn(heap))
    requires size + ALIGN + HEADER + PAGE <= WORD
    modifies heap.Repr()
    ensures out == Vmm.Done ==> heap.Valid() && (old(heap.Smooth()) ==> heap.Smooth())
    ensures out == Vmm.Done && p != 0 ==>
      p >= HEADER && p - HEADER in LiveIn(heap) && p - HEADER !in Without(old(LiveIn(heap)), q)
    ensures out == Vmm.Done ==> forall b :: b in Without(old(LiveIn(heap)), q) ==> b in LiveIn(heap)
    ensures size == 0 || old(heap.Room(Round(size))) ==> out == Vmm.Done
  {
    ghost var oom;
    out, p, oom := heap.KRealloc(q, size);
    if p == 0 && size != 0 { p := q; }
  }

  method Do(heap: KernelHeap, op: Op, slots: seq<nat>) returns (out: Vmm.Outcome, slots': seq<nat>)
    requires heap.Valid() && OpOk(op, |slots|) && Held(slots, LiveIn(heap))
    modifies heap.Repr()
    ensures out == Vmm.Done ==> heap.Valid() && |slots'| == |slots| && Held(slots', LiveIn(heap))
    ensures old(Suits(heap, op)) ==> out == Vmm.Done
    ensures out == Vmm.Done && old(heap.Smooth()) ==> heap.Smooth()
  {
    ghost var live := LiveIn(heap);
    assert HeldAt(slots, live, op.slot);
    var p;
    out, p := Call(heap, op, slots[op.slot]);
    if out == Vmm.Done { HeldChanges(slots, live, LiveIn(heap), op.slot, p); }
    slots' := slots[op.slot := p];
  }

  /** Whatever a client calls with pointers it holds, the heap stays a tiling of free and live
      blocks on pages of its own, and the pointers it holds stay live and pairwise different, up to
      the first call, if any, that grows the heap into pages not open to it; `done` calls have
      returned then.  If nothing is in the heap's way to begin with, every call returns. */
  method Execute(heap: KernelHeap, ops: seq<Op>, n: nat) returns (out: Vmm.Outcome, done: nat, slots: seq<nat>)
    requires heap.Valid() && forall k :: 0 <= k < |ops| ==> OpOk(ops[k], n)
    modifies heap.Repr()
    ensures done <= |ops| && (out == Vmm.Done <==> done == |ops|)
    ensures out == Vmm.Done ==> heap.Valid() && |slots| == n && Held(slots, LiveIn(heap))
    ensures out == Vmm.Done ==>
      forall i, j :: 0 <= i < j < n && slots[i] != 0 && slots[j] != 0 ==> Disjoint(heap, slots[i], slots[j])
    ensures old(heap.Smooth()) ==> out == Vmm.Done && heap.Smooth()
  {
    slots, done := seq(n, i => 0), 0;
    while done < |ops|
      invariant done <= |ops| && heap.Valid() && |slots| == n && Held(slots, LiveIn(heap))
      invariant old(heap.Smooth()) ==> heap.Smooth()
    {
      if old(heap.Smooth()) && !ops[done].Free? { heap.SmoothHasRoom(Round(ops[done].size)); }
      out, slots := Do(heap, ops[done], slots);
      if out != Vmm.Done { return; }
      done := done + 1;
    }
    out := Vmm.Done;
    AllDisjoint(heap, slots);
  }

  lemma AllDisjoint(heap: KernelHeap, slots: seq<nat>)
    requires heap.Sound() && Held(slots, LiveIn(heap))
    ensures forall i, j :: 0 <= i < j < |slots| && slots[i] != 0 && slots[j] != 0 ==> Disjoint(heap, slots[i], slots[j])
  {
    forall i: nat, j: nat | i < j < |slots| && slots[i] != 0 && slots[j] != 0 ensures Disjoint(heap, slots[i], slots[j]) {
      assert HeldAt(slots, LiveIn(heap), i) && HeldAt(slots, LiveIn(heap), j) && DifferAt(slots, i, j);
      PayloadsDisjoint(heap.hdr, heap.blocks, heap.start, heap.end, slots[i] - HEADER, slots[j] - HEADER);
      PayloadsDisjoint(heap.hdr, heap.blocks, heap.start, heap.end, slots[j] - HEADER, slots[i] - HEADER);
    }
  }

  ghost function LiveIn(heap: KernelHeap): map<nat, nat>
    reads heap
  {
    Live(heap.hdr, heap.blocks)
  }

  /** The payloads at p and q are 16-aligned and do not overlap. */
  ghost predicate Disjoint(heap: KernelHeap, p: nat, q: nat)
    reads heap
  {
    var live := LiveIn(heap);
    && p >= HEADER && q >= HEADER && p - HEADER in live && q - HEADER in live && p % ALIGN == 0 && q % ALIGN == 0
    && (p + live[p - HEADER] <= q || q + live[q - HEADER] <= p)
  }
}
