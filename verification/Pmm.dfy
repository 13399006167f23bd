/** The physical memory manager of mm/pmm/pmm.c: one bit per 4 KiB page, a used-page counter,
    and a first-free hint.  `bits` is the bitmap unpacked: bits[p] says that page p is taken. */
module Pmm {

  const PAGE_SIZE := 4096
  const MAX_PAGES := 0x1000000
  const FIRST_PAGE := 0x100000 / PAGE_SIZE       // pages the kernel manages: [FIRST_PAGE, END_PAGE)
  const END_PAGE := 0x10000000 / PAGE_SIZE
  const TOTAL_PAGES := END_PAGE - FIRST_PAGE

  // ----- One byte of the bitmap -----

  function Mask(i: nat): bv8
    requires i < 8
  {
    1 << i
  }

  function TestMask(b: bv8, i: nat): bool
    requires i < 8
  {
    b & Mask(i) != 0
  }

  lemma MaskLiterals(i: nat)
    requires i < 8
    ensures Mask(i) == [1, 2, 4, 8, 16, 32, 64, 128][i]
  {
    if i == 0 {} else if i == 1 {} else if i == 2 {} else if i == 3 {}
    else if i == 4 {} else if i == 5 {} else if i == 6 {} else {}
  }

  lemma OneHotLaws(b: bv8, m: bv8, k: bv8)
    requires m != 0 && m & (m - 1) == 0 && k != 0 && k & (k - 1) == 0
    ensures ((b | m) & k != 0) == (m == k || b & k != 0)
    ensures ((b & !m) & k != 0) == (m != k && b & k != 0)
  {
  }

  /** Setting or clearing bit i of a byte changes bit i and no other. */
  lemma MaskLaws(b: bv8, i: nat, j: nat)
    requires i < 8 && j < 8
    ensures TestMask(b | Mask(i), j) == (i == j || TestMask(b, j))
    ensures TestMask(b & !Mask(i), j) == (i != j && TestMask(b, j))
  {
    MaskLiterals(i);
    MaskLiterals(j);
    OneHotLaws(b, Mask(i), Mask(j));
  }

  // ----- Sets of pages -----

  /** Taken pages in [lo, hi). */
  ghost function Count(bits: seq<bool>, lo: nat, hi: nat): nat
    requires lo <= hi <= |bits|
    decreases hi
  {
    if hi == lo then 0 else Count(bits, lo, hi - 1) + if bits[hi - 1] then 1 else 0
  }

  lemma {:induction false} CountUpdate(bits: seq<bool>, lo: nat, hi: nat, p: nat, b: bool)
    requires lo <= hi <= |bits| && p < |bits|
    ensures lo <= p < hi ==>
      Count(bits[p := b], lo, hi) + (if bits[p] then 1 else 0) == Count(bits, lo, hi) + (if b then 1 else 0)
    ensures !(lo <= p < hi) ==> Count(bits[p := b], lo, hi) == Count(bits, lo, hi)
    decreases hi
  {
    if lo < hi { CountUpdate(bits, lo, hi - 1, p, b); }
  }

  lemma {:induction false} CountNone(bits: seq<bool>, lo: nat, hi: nat)
    requires lo <= hi <= |bits| && forall p :: lo <= p < hi ==> !bits[p]
    ensures Count(bits, lo, hi) == 0
    decreases hi
  {
    if lo < hi { CountNone(bits, lo, hi - 1); }
  }

  /** Taken pages in the managed range. */
  ghost function Taken(bits: seq<bool>): nat
    requires |bits| == MAX_PAGES
  {
    Count(bits, FIRST_PAGE, END_PAGE)
  }

  lemma TakenUpdate(bits: seq<bool>, p: nat, b: bool)
    requires |bits| == MAX_PAGES && FIRST_PAGE <= p < END_PAGE
    ensures Taken(bits[p := b]) + (if bits[p] then 1 else 0) == Taken(bits) + (if b then 1 else 0)
  {
    CountUpdate(bits, FIRST_PAGE, END_PAGE, p, b);
  }

  /** bits with the n pages from lo on set to b. */
  function Fill(bits: seq<bool>, lo: nat, n: nat, b: bool): (r: seq<bool>)
    ensures |r| == |bits|
    ensures forall i :: 0 <= i < |bits| ==> r[i] == if lo <= i < lo + n then b else bits[i]
  {
    seq(|bits|, i requires 0 <= i < |bits| => if lo <= i < lo + n then b else bits[i])
  }

  lemma FillOneMore(bits: seq<bool>, lo: nat, n: nat, b: bool)
    requires lo + n < |bits|
    ensures Fill(bits, lo, n + 1, b) == Fill(bits, lo, n, b)[lo + n := b]
    ensures Fill(bits, lo, 0, b) == bits
    ensures bits[lo + n] == Fill(bits, lo, n, b)[lo + n]
  {
  }

  predicate FreeRun(bits: seq<bool>, s: int, n: nat) {
    0 <= s && s + n <= |bits| && forall i :: s <= i < s + n ==> !bits[i]
  }

  /** s starts the lowest free run of n pages that begins at or above the hint and ends at or
      below the limit. */
  ghost predicate LowestRun(bits: seq<bool>, hint: nat, limit: nat, n: nat, s: nat) {
    && hint <= s && s + n <= limit && FreeRun(bits, s, n)
    && (forall t :: hint <= t < s ==> !FreeRun(bits, t, n))
  }

  /** No free page hides below the hint. */
  ghost predicate HintOk(bits: seq<bool>, hint: nat) {
    forall p :: 0 <= p < hint && p < |bits| ==> bits[p]
  }

  /** Pages taken in a are still taken in b. */
  ghost predicate Grows(a: seq<bool>, b: seq<bool>) {
    |a| == |b| && forall p :: 0 <= p < |a| && a[p] ==> b[p]
  }

  /** hint' is the lowest of the hint and the taken ones among the n pages from lo on. */
  ghost predicate LowestFreed(bits: seq<bool>, lo: nat, n: nat, hint: nat, hint': nat) {
    && hint' <= hint && (hint' == hint || (lo <= hint' < lo + n && hint' < |bits| && bits[hint']))
    && (forall p :: lo <= p < lo + n && p < |bits| && bits[p] ==> hint' <= p)
  }

  /** f is the lowest free page at or above the hint. */
  ghost predicate FirstFree(bits: seq<bool>, hint: nat, f: nat) {
    && hint <= f < |bits| && !bits[f]
    && (forall p :: hint <= p < f ==> bits[p])
  }

  lemma SinglePageRun(bits: seq<bool>, hint: nat, limit: nat)
    requires limit <= |bits|
    ensures (forall s: nat :: !LowestRun(bits, hint, limit, 1, s)) <==> (forall p :: hint <= p < limit ==> bits[p])
    ensures forall f: nat :: FirstFree(bits, hint, f) && f < limit ==> LowestRun(bits, hint, limit, 1, f)
  {
    forall f: nat | FirstFree(bits, hint, f) && f < limit ensures LowestRun(bits, hint, limit, 1, f) {
      forall t | hint <= t < f ensures !FreeRun(bits, t, 1) { assert bits[t]; }
    }
    if p :| hint <= p < limit && !bits[p] {
      var f := LowestClear(bits, hint, p);
      assert LowestRun(bits, hint, limit, 1, f);
    }
    forall s: nat | LowestRun(bits, hint, limit, 1, s) ensures !bits[s] {}
  }

  lemma {:induction false} LowestClear(bits: seq<bool>, hint: nat, p: nat) returns (f: nat)
    requires hint <= p < |bits| && !bits[p]
    ensures FirstFree(bits, hint, f) && f <= p
    decreases p
  {
    if q :| hint <= q < p && !bits[q] { f := LowestClear(bits, hint, q); } else { f := p; }
  }

  /** A multi-page allocation keeps the hint honest exactly when the lowest free page at or
      above the hint begins a free run of the requested length. */
  lemma HintSurvivesRun(bits: seq<bool>, hint: nat, limit: nat, n: nat, s: nat)
    requires HintOk(bits, hint) && LowestRun(bits, hint, limit, n, s) && limit <= |bits| && n > 0
    ensures HintOk(Fill(bits, s, n, true), s + n) <==> exists f: nat :: FirstFree(bits, hint, f) && FreeRun(bits, f, n)
  {
    if HintOk(Fill(bits, s, n, true), s + n) {
      forall p | hint <= p < s ensures bits[p] { assert Fill(bits, s, n, true)[p]; }
      assert FirstFree(bits, hint, s);
    }
  }

  /** g_pmm_bitmap, with pmm_set_bit, pmm_clear_bit and pmm_test_bit. */
  class Bitmap {
    const bytes: array<bv8>
    ghost var bits: seq<bool>

    ghost predicate Agrees(p: nat)
      requires p < |bits| <= 8 * bytes.Length
      reads this, bytes
    {
      bits[p] == TestMask(bytes[p / 8], p % 8)
    }

    ghost predicate Valid()
      reads this, bytes
    {
      && bytes.Length == MAX_PAGES / 8 && |bits| == MAX_PAGES
      && (forall p: nat {:trigger Agrees(p)} :: p < MAX_PAGES ==> Agrees(p))
    }

    constructor ()
      ensures Valid() && fresh(bytes) && forall p :: 0 <= p < MAX_PAGES ==> bits[p]
    {
      bytes := new bv8[MAX_PAGES / 8](i => 0xFF);
      bits := seq(MAX_PAGES, i => true);
      new;
      forall p: nat | p < MAX_PAGES ensures Agrees(p) { MaskLiterals(p % 8); }
    }

    method SetBit(page: nat)
      requires Valid() && page < MAX_PAGES
      modifies this, bytes
      ensures Valid() && bits == old(bits)[page := true]
    {
      ghost var b := bytes[page / 8];
      bytes[page / 8] := bytes[page / 8] | Mask(page % 8);
      bits := bits[page := true];
      forall p: nat | p < MAX_PAGES ensures Agrees(p) {
        assert old(Agrees(p)) && p == 8 * (p / 8) + p % 8;
        if p / 8 == page / 8 { MaskLaws(b, page % 8, p % 8); }
      }
    }

    method ClearBit(page: nat)
      requires Valid() && page < MAX_PAGES
      modifies this, bytes
      ensures Valid() && bits == old(bits)[page := false]
    {
      ghost var b := bytes[page / 8];
      bytes[page / 8] := bytes[page / 8] & !Mask(page % 8);
      bits := bits[page := false];
      forall p: nat | p < MAX_PAGES ensures Agrees(p) {
        assert old(Agrees(p)) && p == 8 * (p / 8) + p % 8;
        if p / 8 == page / 8 { MaskLaws(b, page % 8, p % 8); }
      }
    }

    method TestBit(page: nat) returns (set_: bool)
      requires Valid() && page < MAX_PAGES
      ensures set_ == bits[page]
    {
      assert Agrees(page);
      set_ := TestMask(bytes[page / 8], page % 8);
    }
  }

  class Allocator {
    const bitmap: Bitmap
    var total: nat
    var used: nat
    var hint: nat

    ghost function Repr(): set<object> {
      {this, bitmap, bitmap.bytes}
    }

    /** Which pages are taken. */
    ghost function Bits(): seq<bool>
      reads bitmap
    {
      bitmap.bits
    }

    /** Pages outside the managed range are never free, and the counter is the number of taken
        pages inside it. */
    ghost predicate Valid()
      reads Repr()
    {
      && bitmap.Valid() && total == TOTAL_PAGES
      && (forall p :: 0 <= p < MAX_PAGES && !(FIRST_PAGE <= p < END_PAGE) ==> Bits()[p])
      && used == Taken(Bits())
    }

    // ----- pmm_init -----

    /** Everything below 1 MiB, above 256 MiB and inside the kernel image is taken; the rest is
        free. */
    constructor (kernelEnd: nat)
      requires 0x100000 <= kernelEnd <= MAX_PAGES * PAGE_SIZE
      ensures Valid() && fresh(Repr())
      ensures hint == FIRST_PAGE && HintOk(Bits(), hint)
      ensures forall p :: 0 <= p < MAX_PAGES ==>
        (Bits()[p] <==> p < FIRST_PAGE || p >= END_PAGE || p * PAGE_SIZE < kernelEnd)
    {
      bitmap := new Bitmap();
      total := TOTAL_PAGES;
      used := 0;
      hint := 0;
      new;
      ghost var all := Bits();
      var page := FIRST_PAGE;
      while page < END_PAGE
        invariant FIRST_PAGE <= page <= END_PAGE && bitmap.Valid() && total == TOTAL_PAGES && used == 0
        invariant Bits() == Fill(all, FIRST_PAGE, page - FIRST_PAGE, false)
      {
        FillOneMore(all, FIRST_PAGE, page - FIRST_PAGE, false);
        bitmap.ClearBit(page);
        page := page + 1;
      }
      CountNone(Bits(), FIRST_PAGE, END_PAGE);
      MarkUsed(0x100000, (kernelEnd - 0x100000 + PAGE_SIZE - 1) / PAGE_SIZE);
      hint := FIRST_PAGE;
    }

    // ----- pmm_mark_used, pmm_mark_free -----

    /** The body that pmm_mark_free and pmm_free_page share. */
    method Release(page: nat)
      requires Valid() && FIRST_PAGE <= page < END_PAGE
      modifies Repr()
      ensures Valid() && Bits() == old(Bits())[page := false]
      ensures hint == if old(Bits()[page]) && page < old(hint) then page else old(hint)
      ensures old(HintOk(Bits(), hint)) ==> HintOk(Bits(), hint)
    {
      var t := bitmap.TestBit(page);
      if t {
        TakenUpdate(Bits(), page, false);
        bitmap.ClearBit(page);
        used := used - 1;
        if page < hint { hint := page; }
      }
    }

    method MarkUsed(addr: nat, pages: nat)
      requires Valid() && addr / PAGE_SIZE + pages <= MAX_PAGES
      modifies Repr()
      ensures Valid() && Bits() == Fill(old(Bits()), addr / PAGE_SIZE, pages, true) && hint == old(hint)
    {
      var start := addr / PAGE_SIZE;
      var i := 0;
      while i < pages
        invariant 0 <= i <= pages && Valid() && Bits() == Fill(old(Bits()), start, i, true)
        invariant hint == old(hint)
      {
        FillOneMore(old(Bits()), start, i, true);
        var t := bitmap.TestBit(start + i);
        if !t {
          TakenUpdate(Bits(), start + i, true);
          bitmap.SetBit(start + i);
          used := used + 1;
        }
        i := i + 1;
      }
    }

    method MarkFree(addr: nat, pages: nat)
      requires Valid() && (pages > 0 ==> FIRST_PAGE <= addr / PAGE_SIZE && addr / PAGE_SIZE + pages <= END_PAGE)
      modifies Repr()
      ensures Valid() && Bits() == Fill(old(Bits()), addr / PAGE_SIZE, pages, false)
      ensures old(HintOk(Bits(), hint)) ==> HintOk(Bits(), hint)
      ensures LowestFreed(old(Bits()), addr / PAGE_SIZE, pages, old(hint), hint)
    {
      var start := addr / PAGE_SIZE;
      var i := 0;
      while i < pages
        invariant 0 <= i <= pages && Valid() && Bits() == Fill(old(Bits()), start, i, false)
        invariant old(HintOk(Bits(), hint)) ==> HintOk(Bits(), hint)
        invariant LowestFreed(old(Bits()), start, i, old(hint), hint)
      {
        FillOneMore(old(Bits()), start, i, false);
        Release(start + i);
        i := i + 1;
      }
    }
  
    // ----- Allocation -----

    /** No page from the hint to the limit is free. */
    ghost predicate Exhausted()
      requires Valid()
      reads Repr()
    {
      forall p :: hint <= p < TOTAL_PAGES ==> Bits()[p]
    }

    /** pmm_alloc_page: the lowest free page at or above the hint; NULL iff there is none below
        the limit.  While nothing free hides below the hint, that is the lowest free page. */
    method AllocPage() returns (addr: nat)
      requires Valid()
      modifies Repr()
      ensures Valid()
      ensures addr == 0 <==> old(Exhausted())
      ensures addr == 0 ==> Bits() == old(Bits()) && hint == old(hint)
      ensures addr != 0 ==> addr % PAGE_SIZE == 0 && var f := addr / PAGE_SIZE;
        && FirstFree(old(Bits()), old(hint), f) && FIRST_PAGE <= f < TOTAL_PAGES
        && Bits() == old(Bits())[f := true] && hint == f + 1
      ensures old(HintOk(Bits(), hint)) ==> HintOk(Bits(), hint) && (addr != 0 ==> FirstFree(old(Bits()), 0, addr / PAGE_SIZE))
    {
      var page := hint;
      while page < total
        invariant Valid() && Bits() == old(Bits()) && hint == old(hint) && hint <= page
        invariant forall p :: hint <= p < page && p < TOTAL_PAGES ==> Bits()[p]
        decreases total - page
      {
        var t := bitmap.TestBit(page);
        if !t {
          TakenUpdate(Bits(), page, true);
          bitmap.SetBit(page);
          used := used + 1;
          hint := page + 1;
          return page * PAGE_SIZE;
        }
        page := page + 1;
      }
      return 0;
    }

    /** pmm_alloc_page, restated for a run of one page. */
    method AllocOne() returns (addr: nat)
      requires Valid()
      modifies Repr()
      ensures Valid()
      ensures addr == 0 ==> Bits() == old(Bits()) && hint == old(hint)
      ensures addr == 0 ==> forall s: nat :: !LowestRun(old(Bits()), old(hint), TOTAL_PAGES, 1, s)
      ensures addr != 0 ==> addr % PAGE_SIZE == 0 && var s := addr / PAGE_SIZE;
        && LowestRun(old(Bits()), old(hint), TOTAL_PAGES, 1, s)
        && Bits() == Fill(old(Bits()), s, 1, true) && hint == s + 1
    {
      SinglePageRun(Bits(), hint, TOTAL_PAGES);
      addr := AllocPage();
      assert addr != 0 ==> Bits() == Fill(old(Bits()), addr / PAGE_SIZE, 1, true);
    }

    /** The inner loop of pmm_alloc_pages: stop at the first taken page of the candidate run. */
    method ScanRun(page: nat, count: nat) returns (found: bool, i: nat)
      requires Valid() && page + count <= TOTAL_PAGES
      ensures found <==> FreeRun(Bits(), page, count)
      ensures !found ==> i < count && Bits()[page + i]
    {
      found, i := true, 0;
      while i < count
        invariant 0 <= i <= count && found && FreeRun(Bits(), page, i)
      {
        var t := bitmap.TestBit(page + i);
        if t {
          return false, i;
        }
        i := i + 1;
      }
    }

    /** Setting the count Bits() of a run found free. */
    method TakeRun(page: nat, count: nat)
      requires Valid() && FreeRun(Bits(), page, count) && page + count <= TOTAL_PAGES
      modifies Repr()
      ensures Valid() && Bits() == Fill(old(Bits()), page, count, true)
    {
      var i := 0;
      while i < count
        invariant 0 <= i <= count && bitmap.Valid() && Bits() == Fill(old(Bits()), page, i, true)
        invariant used + i == Taken(Bits()) && total == TOTAL_PAGES
      {
        FillOneMore(old(Bits()), page, i, true);
        TakenUpdate(Bits(), page + i, true);
        bitmap.SetBit(page + i);
        i := i + 1;
      }
      used := used + count;
    }

    /** pmm_alloc_pages: the skip-ahead search finds the lowest run; NULL iff there is none. */
    method AllocPages(count: nat) returns (addr: nat)
      requires Valid()
      modifies Repr()
      ensures Valid()
      ensures addr == 0 ==> Bits() == old(Bits()) && hint == old(hint)
      ensures addr == 0 ==> count == 0 || forall s: nat :: !LowestRun(old(Bits()), old(hint), TOTAL_PAGES, count, s)
      ensures addr != 0 ==> count != 0 && addr % PAGE_SIZE == 0 && var s := addr / PAGE_SIZE;
        && LowestRun(old(Bits()), old(hint), TOTAL_PAGES, count, s)
        && Bits() == Fill(old(Bits()), s, count, true) && hint == s + count
      ensures addr != 0 && old(HintOk(Bits(), hint)) ==>
        (HintOk(Bits(), hint) <==> exists f: nat :: FirstFree(old(Bits()), old(hint), f) && FreeRun(old(Bits()), f, count))
    {
      if count == 0 { return 0; }
      if count == 1 {
        ghost var bits, h := Bits(), hint;
        addr := AllocOne();
        if addr != 0 && HintOk(bits, h) { HintSurvivesRun(bits, h, TOTAL_PAGES, 1, addr / PAGE_SIZE); }
        return;
      }
      var page := hint;
      while page + count <= total
        invariant Valid() && Bits() == old(Bits()) && hint == old(hint) && hint <= page
        invariant forall t :: hint <= t < page ==> !FreeRun(Bits(), t, count)
        decreases total - page
      {
        var found, i := ScanRun(page, count);
        if found {
          assert !Bits()[page];
          TakeRun(page, count);
          if old(HintOk(Bits(), hint)) { HintSurvivesRun(old(Bits()), old(hint), TOTAL_PAGES, count, page); }
          hint := page + count;
          return page * PAGE_SIZE;
        }
        forall t | page <= t <= page + i ensures !FreeRun(Bits(), t, count) { assert Bits()[page + i]; }
        page := page + i + 1;
      }
      return 0;
    }

    // ----- Freeing -----

    method FreePage(addr: nat)
      requires Valid() && (addr != 0 ==> FIRST_PAGE <= addr / PAGE_SIZE < END_PAGE)
      modifies Repr()
      ensures Valid() && Bits() == if addr == 0 then old(Bits()) else old(Bits())[addr / PAGE_SIZE := false]
      ensures hint == if addr != 0 && old(Bits()[addr / PAGE_SIZE]) && addr / PAGE_SIZE < old(hint)
                      then addr / PAGE_SIZE else old(hint)
      ensures old(HintOk(Bits(), hint)) ==> HintOk(Bits(), hint)
    {
      if addr != 0 { Release(addr / PAGE_SIZE); }
    }

    method FreePages(addr: nat, count: nat)
      requires Valid()
      requires addr != 0 && count > 0 ==> FIRST_PAGE <= addr / PAGE_SIZE && addr / PAGE_SIZE + count <= END_PAGE
      modifies Repr()
      ensures Valid() && Bits() == if addr == 0 then old(Bits()) else Fill(old(Bits()), addr / PAGE_SIZE, count, false)
      ensures old(HintOk(Bits(), hint)) ==> HintOk(Bits(), hint)
      ensures LowestFreed(old(Bits()), addr / PAGE_SIZE, if addr == 0 then 0 else count, old(hint), hint)
    {
      if addr == 0 { return; }
      ghost var start := addr / PAGE_SIZE;
      var i := 0;
      while i < count
        invariant 0 <= i <= count && Valid() && Bits() == Fill(old(Bits()), start, i, false)
        invariant old(HintOk(Bits(), hint)) ==> HintOk(Bits(), hint)
        invariant LowestFreed(old(Bits()), start, i, old(hint), hint)
      {
        FillOneMore(old(Bits()), start, i, false);
        assert (addr + i * PAGE_SIZE) / PAGE_SIZE == start + i;
        FreePage(addr + i * PAGE_SIZE);
        i := i + 1;
      }
    }
  }

  /** Where only page k + 1 is taken from k on, the lowest free pair begins at k + 2. */
  lemma PairAbove(bits: seq<bool>, k: nat, s: nat)
    requires |bits| == MAX_PAGES && k + 4 <= TOTAL_PAGES
    requires forall p :: k <= p < TOTAL_PAGES ==> (bits[p] <==> p == k + 1)
    ensures LowestRun(bits, k, TOTAL_PAGES, 2, s) <==> s == k + 2
  {
    forall t | k <= t < k + 2 ensures !FreeRun(bits, t, 2) { assert bits[k + 1]; }
    assert FreeRun(bits, k + 2, 2);
  }

  /** Of two pages allocated after boot the first is given back. */
  method LeaveHole(kernelEnd: nat) returns (pmm: Allocator, page: nat)
    requires 0x100000 <= kernelEnd && kernelEnd + 4 * PAGE_SIZE <= TOTAL_PAGES * PAGE_SIZE
    ensures pmm.Valid() && fresh(pmm.Repr()) && pmm.hint == page && page + 4 <= TOTAL_PAGES
    ensures forall p :: page <= p < TOTAL_PAGES ==> (pmm.Bits()[p] <==> p == page + 1)
  {
    pmm := new Allocator(kernelEnd);
    ghost var k, bits0 := (kernelEnd + PAGE_SIZE - 1) / PAGE_SIZE, pmm.Bits();
    assert forall p :: 0 <= p < MAX_PAGES ==> (bits0[p] <==> p < k || p >= END_PAGE);
    assert !bits0[k] && !bits0[k + 1];
    var a := pmm.AllocPage();
    assert a / PAGE_SIZE == k && pmm.Bits() == bits0[k := true];
    assert !pmm.Bits()[k + 1];
    var b := pmm.AllocPage();
    assert b / PAGE_SIZE == k + 1;
    pmm.FreePage(a);
    page := a / PAGE_SIZE;
  }

  /** A run of calls after which the hint hides a free page, whatever the kernel's size: a pair of
      pages is found above the hole. */
  method HideFreePage(kernelEnd: nat) returns (pmm: Allocator, page: nat)
    requires 0x100000 <= kernelEnd && kernelEnd + 4 * PAGE_SIZE <= TOTAL_PAGES * PAGE_SIZE
    ensures pmm.Valid() && !HintOk(pmm.Bits(), pmm.hint)
    ensures page < pmm.hint && page < MAX_PAGES && !pmm.Bits()[page]
  {
    pmm, page := LeaveHole(kernelEnd);
    ghost var bits := pmm.Bits();
    PairAbove(bits, page, page + 2);
    var c := pmm.AllocPages(2);
    PairAbove(bits, page, c / PAGE_SIZE);
    assert !bits[page] && !pmm.Bits()[page];
  }
}
