/** Whole runs of a client of the page allocator (mm/pmm/pmm.c): runs of pages taken and given
    back in any order. */
module PmmRuns {
  import opened Pmm

  /** A run of pages that a client holds; none if count is 0. */
  datatype Run = Run(start: nat, count: nat)

  /** A client's calls; each names the variable that holds the run. */
  datatype Op = Take(slot: nat, count: nat) | Give(slot: nat)

  ghost predicate In(r: Run, p: nat) {
    r.start <= p < r.start + r.count
  }

  /** Page p is taken if it was at the start or if a run holds it, and no two runs hold it. */
  ghost predicate PageOwned(bits0: seq<bool>, bits: seq<bool>, runs: seq<Run>, p: nat)
    requires p < |bits0| && p < |bits|
  {
    && (bits[p] <==> bits0[p] || exists i :: 0 <= i < |runs| && In(runs[i], p))
    && (forall i :: 0 <= i < |runs| && In(runs[i], p) ==> !bits0[p])
    && (forall i, j :: 0 <= i < j < |runs| && In(runs[i], p) ==> !In(runs[j], p))
  }

  ghost predicate Owned(bits0: seq<bool>, bits: seq<bool>, runs: seq<Run>) {
    && |bits| == |bits0|
    && (forall p: nat {:trigger PageOwned(bits0, bits, runs, p)} :: p < |bits| ==> PageOwned(bits0, bits, runs, p))
    && (forall i :: 0 <= i < |runs| && runs[i].count > 0 ==>
          FIRST_PAGE <= runs[i].start && runs[i].start + runs[i].count <= END_PAGE)
  }

  ghost function Sum(runs: seq<Run>): nat {
    if runs == [] then 0 else Sum(runs[..|runs| - 1]) + runs[|runs| - 1].count
  }

  lemma {:induction false} SumUpdate(runs: seq<Run>, i: nat, r: Run)
    requires i < |runs|
    ensures Sum(runs[i := r]) + runs[i].count == Sum(runs) + r.count
  {
    var n := |runs| - 1;
    if i < n {
      SumUpdate(runs[..n], i, r);
      assert runs[i := r][..n] == runs[..n][i := r];
    } else {
      assert runs[i := r][..n] == runs[..n];
    }
  }

  /** Setting a free run takes as many pages as it has. */
  lemma {:induction false} FillTakes(bits: seq<bool>, s: nat, n: nat)
    requires |bits| == MAX_PAGES && (n > 0 ==> FIRST_PAGE <= s && s + n <= END_PAGE) && FreeRun(bits, s, n)
    ensures Taken(Fill(bits, s, n, true)) == Taken(bits) + n
  {
    if n == 0 {
      assert Fill(bits, s, 0, true) == bits;
    } else {
      FillTakes(bits, s, n - 1);
      FillOneMore(bits, s, n - 1, true);
      TakenUpdate(Fill(bits, s, n - 1, true), s + n - 1, true);
    }
  }

  lemma TakeKeeps(bits0: seq<bool>, bits: seq<bool>, runs: seq<Run>, i: nat, s: nat, n: nat)
    requires Owned(bits0, bits, runs) && i < |runs| && runs[i].count == 0 && FreeRun(bits, s, n)
    requires n > 0 ==> FIRST_PAGE <= s && s + n <= END_PAGE
    ensures Owned(bits0, Fill(bits, s, n, true), runs[i := Run(s, n)])
  {
    var bits', runs' := Fill(bits, s, n, true), runs[i := Run(s, n)];
    forall p: nat | p < |bits| ensures PageOwned(bits0, bits', runs', p) {
      assert PageOwned(bits0, bits, runs, p);
      if In(Run(s, n), p) {
        assert In(runs'[i], p);
      } else if k :| 0 <= k < |runs| && In(runs[k], p) {
        assert In(runs'[k], p);
      }
    }
  }

  lemma GiveKeeps(bits0: seq<bool>, bits: seq<bool>, runs: seq<Run>, i: nat)
    requires Owned(bits0, bits, runs) && i < |runs|
    ensures Owned(bits0, Fill(bits, runs[i].start, runs[i].count, false), runs[i := Run(0, 0)])
  {
    var bits', runs' := Fill(bits, runs[i].start, runs[i].count, false), runs[i := Run(0, 0)];
    forall p: nat | p < |bits| ensures PageOwned(bits0, bits', runs', p) {
      assert PageOwned(bits0, bits, runs, p);
      if !In(runs[i], p) {
        if k :| 0 <= k < |runs| && In(runs[k], p) { assert In(runs'[k], p); }
      }
    }
  }

  /** Giving a held run back frees all of it, and taking it again would undo that. */
  lemma HeldRun(bits0: seq<bool>, bits: seq<bool>, runs: seq<Run>, i: nat)
    requires Owned(bits0, bits, runs) && i < |runs| && runs[i].count > 0 && |bits| == MAX_PAGES
    ensures var r := runs[i]; var freed := Fill(bits, r.start, r.count, false);
            FreeRun(freed, r.start, r.count) && Fill(freed, r.start, r.count, true) == bits
  {
    forall p: nat | p < |bits| && In(runs[i], p) ensures bits[p] { assert PageOwned(bits0, bits, runs, p); }
  }

  /** pmm_alloc_pages into an empty variable. */
  method DoTake(pmm: Allocator, i: nat, count: nat, runs: seq<Run>, ghost bits0: seq<bool>) returns (runs': seq<Run>)
    requires pmm.Valid() && i < |runs| && runs[i].count == 0 && Owned(bits0, pmm.Bits(), runs)
    modifies pmm.Repr()
    ensures pmm.Valid() && |runs'| == |runs| && Owned(bits0, pmm.Bits(), runs')
    ensures pmm.used + Sum(runs) == old(pmm.used) + Sum(runs')
  {
    ghost var bits := pmm.Bits();
    var addr := pmm.AllocPages(count);
    if addr == 0 { return runs; }
    var s := addr / PAGE_SIZE;
    assert !bits[s];
    FillTakes(bits, s, count);
    TakeKeeps(bits0, bits, runs, i, s, count);
    SumUpdate(runs, i, Run(s, count));
    runs' := runs[i := Run(s, count)];
  }

  /** pmm_free_pages of a held run. */
  method DoGive(pmm: Allocator, i: nat, runs: seq<Run>, ghost bits0: seq<bool>) returns (runs': seq<Run>)
    requires pmm.Valid() && i < |runs| && runs[i].count > 0 && Owned(bits0, pmm.Bits(), runs)
    modifies pmm.Repr()
    ensures pmm.Valid() && |runs'| == |runs| && Owned(bits0, pmm.Bits(), runs')
    ensures pmm.used + Sum(runs) == old(pmm.used) + Sum(runs')
  {
    ghost var bits := pmm.Bits();
    var r := runs[i];
    HeldRun(bits0, bits, runs, i);
    pmm.FreePages(r.start * PAGE_SIZE, r.count);
    FillTakes(pmm.Bits(), r.start, r.count);
    GiveKeeps(bits0, bits, runs, i);
    SumUpdate(runs, i, Run(0, 0));
    runs' := runs[i := Run(0, 0)];
  }

  /** One call; Take leaves a variable alone that holds a run, and Give one that holds none. */
  method Do(pmm: Allocator, op: Op, runs: seq<Run>, ghost bits0: seq<bool>) returns (runs': seq<Run>)
    requires pmm.Valid() && op.slot < |runs| && Owned(bits0, pmm.Bits(), runs)
    modifies pmm.Repr()
    ensures pmm.Valid() && |runs'| == |runs| && Owned(bits0, pmm.Bits(), runs')
    ensures pmm.used + Sum(runs) == old(pmm.used) + Sum(runs')
  {
    runs' := runs;
    match op
    case Take(i, count) => if runs[i].count == 0 { runs' := DoTake(pmm, i, count, runs, bits0); }
    case Give(i) => if runs[i].count > 0 { runs' := DoGive(pmm, i, runs, bits0); }
  }

  /** Whatever a client takes and gives back, the runs it holds are disjoint and were free at the
      start, exactly they are taken besides what was, and the used counter has grown by their
      pages; once it holds nothing the bitmap is what it was. */
  method Execute(pmm: Allocator, ops: seq<Op>, n: nat) returns (runs: seq<Run>)
    requires pmm.Valid() && forall k :: 0 <= k < |ops| ==> ops[k].slot < n
    modifies pmm.Repr()
    ensures pmm.Valid() && |runs| == n && Owned(old(pmm.Bits()), pmm.Bits(), runs)
    ensures pmm.used == old(pmm.used) + Sum(runs)
    ensures (forall i :: 0 <= i < n ==> runs[i].count == 0) ==> pmm.Bits() == old(pmm.Bits()) && pmm.used == old(pmm.used)
  {
    runs := seq(n, i => Run(0, 0));
    ghost var bits0 := pmm.Bits();
    NoRuns(runs);
    forall p: nat | p < |bits0| ensures PageOwned(bits0, bits0, runs, p) {}
    for k := 0 to |ops|
      invariant pmm.Valid() && |runs| == n && Owned(bits0, pmm.Bits(), runs)
      invariant pmm.used == old(pmm.used) + Sum(runs)
    {
      runs := Do(pmm, ops[k], runs, bits0);
    }
    if forall i :: 0 <= i < n ==> runs[i].count == 0 {
      NoRuns(runs);
      forall p: nat | p < |bits0| ensures pmm.Bits()[p] == bits0[p] { assert PageOwned(bits0, pmm.Bits(), runs, p); }
    }
  }

  lemma {:induction false} NoRuns(runs: seq<Run>)
    requires forall i :: 0 <= i < |runs| ==> runs[i].count == 0
    ensures Sum(runs) == 0
  {
    if runs != [] { NoRuns(runs[..|runs| - 1]); }
  }
}
