/** Where start-up puts the page tables (kernel_early_init in kernel/kmain.c: pmm_init, vmm_init,
    heap_init), and when the heap can live with that.

    Right after pmm_init frames are handed out in order from the end of the kernel image, so the
    1029 tables that vmm_init makes lie in a row, each at a known distance from the PML4. */
module Boot {
  import opened HeapPages
  import Heap
  import Pmm
  import PT = PageTables
  import Vmm

  const TABLES := 1029
  const HIGH_PD := 0x3_FFFE             // the page directory and
  const HIGH_PT := 0x7FF_FC00           // the first page table under KERNEL_VBASE

  /** The distance of a table from the PML4; TABLES for one that vmm_init does not make. */
  function Rank(c: PT.Name): nat {
    if c == (3, 0) then 0
    else if c == (2, 0) then 1
    else if c == (1, 0) then 2
    else if c.0 == 0 && c.1 < 512 then 3 + c.1
    else if c == (2, 511) then 515
    else if c == (1, HIGH_PD) then 516
    else if c.0 == 0 && HIGH_PT <= c.1 < HIGH_PT + 512 then 517 + (c.1 - HIGH_PT)
    else TABLES
  }

  /** The tables by rank, up to the next frame, exist, each in its place. */
  ghost predicate Ranked(root: nat, y: PT.Layout) {
    && root <= y.next <= root + TABLES
    && (forall c: PT.Name {:trigger Rank(c)} ::
        (c in y.at <==> root + Rank(c) < y.next) && (c in y.at ==> y.at[c] == root + Rank(c)))
  }

  lemma PlaceRanked(root: nat, y: PT.Layout, c: PT.Name)
    requires Ranked(root, y) && root + Rank(c) <= y.next && Rank(c) < TABLES
    ensures Ranked(root, PT.Place(y, c))
    ensures PT.Place(y, c).next == if root + Rank(c) < y.next then y.next else y.next + 1
  {
    if root + Rank(c) == y.next {
      var y' := PT.Place(y, c);
      forall d: PT.Name ensures (d in y'.at <==> root + Rank(d) < y'.next) && (d in y'.at ==> y'.at[d] == root + Rank(d)) {
        if root + Rank(d) == y.next { assert d == c; }
      }
    }
  }

  lemma PathRanked(root: nat, y: PT.Layout, v: nat)
    requires Ranked(root, y) && root + Rank((2, PT.Prefix(v, 2))) <= y.next
    requires Rank((1, PT.Prefix(v, 1))) <= Rank((2, PT.Prefix(v, 2))) + 1
    requires root + Rank((0, PT.Prefix(v, 0))) <= y.next || Rank((0, PT.Prefix(v, 0))) <= Rank((1, PT.Prefix(v, 1))) + 1
    requires Rank((2, PT.Prefix(v, 2))) < Rank((1, PT.Prefix(v, 1))) < Rank((0, PT.Prefix(v, 0))) < TABLES
    ensures var y', r := PT.PlacePath(y, v), Rank((0, PT.Prefix(v, 0)));
            Ranked(root, y') && y'.next == if root + r < y.next then y.next else root + r + 1
  {
    var y2 := PT.Place(y, (2, PT.Prefix(v, 2)));
    var y1 := PT.Place(y2, (1, PT.Prefix(v, 1)));
    PlaceRanked(root, y, (2, PT.Prefix(v, 2)));
    PlaceRanked(root, y2, (1, PT.Prefix(v, 1)));
    PlaceRanked(root, y1, (0, PT.Prefix(v, 0)));
    assert PT.PlaceDown(y, v, 3) == y && PT.PlaceDown(y, v, 2) == y2 && PT.PlaceDown(y, v, 1) == y1;
  }

  lemma LowPrefixes(i: nat)
    requires i < PT.DIRECT_PAGES
    ensures PT.Prefix(i, 0) == i / 512 < 512 && PT.Prefix(i, 1) == 0 && PT.Prefix(i, 2) == 0
  {
    assert PT.Prefix(i, 1) == i / 512 / 512;
  }

  lemma HighPrefixes(i: nat)
    requires i < PT.DIRECT_PAGES
    ensures PT.Prefix(PT.DIRECT + i, 0) == HIGH_PT + i / 512 && i / 512 < 512
    ensures PT.Prefix(PT.DIRECT + i, 1) == HIGH_PD && PT.Prefix(PT.DIRECT + i, 2) == 511
  {
    assert (PT.DIRECT + i) / 512 == HIGH_PT + i / 512;
    assert PT.Prefix(PT.DIRECT + i, 1) == (HIGH_PT + i / 512) / 512;
  }

  /** How many tables there are after i pages in a row, when the first page needs three and every
      512th one more. */
  function Tally(before: nat, i: nat): nat {
    if i == 0 then before else before + 3 + (i - 1) / 512
  }

  lemma LowStep(root: nat, y: PT.Layout, i: nat)
    requires Ranked(root, y) && i < PT.DIRECT_PAGES && y.next == root + Tally(1, i)
    ensures Ranked(root, PT.PlacePath(y, i)) && PT.PlacePath(y, i).next == root + Tally(1, i + 1)
  {
    LowPrefixes(i);
    PathRanked(root, y, i);
  }

  lemma HighStep(root: nat, y: PT.Layout, i: nat)
    requires Ranked(root, y) && i < PT.DIRECT_PAGES && y.next == root + Tally(515, i)
    ensures var y' := PT.PlacePath(y, PT.DIRECT + i); Ranked(root, y') && y'.next == root + Tally(515, i + 1)
  {
    HighPrefixes(i);
    PathRanked(root, y, PT.DIRECT + i);
  }

  lemma RootRanked(root: nat)
    ensures Ranked(root, PT.Layout(map[(3, 0) := root], root + 1))
  {
  }

  lemma OneMore(y0: PT.Layout, virt: nat, i: nat, y: PT.Layout, v: nat)
    requires y == PT.PlaceRange(y0, virt, i) && v == PT.Vpn(PT.Nth(virt, i))
    ensures PT.PlaceRange(y0, virt, i + 1) == PT.PlacePath(y, v)
  {
  }

  lemma LowVpn(i: nat)
    requires i < PT.PAGES
    ensures PT.Vpn(PT.Nth(0, i)) == i
  {
    PT.VpnOfNth(0, i);
  }

  lemma HighVpn(i: nat)
    requires i < PT.DIRECT_PAGES
    ensures PT.Vpn(PT.Nth(PT.KERNEL_VBASE, i)) == PT.DIRECT + i
  {
    PT.DirectPageAt(i);
  }

  lemma LowNext(root: nat, y0: PT.Layout, i: nat, y: PT.Layout) returns (y': PT.Layout)
    requires y == PT.PlaceRange(y0, 0, i) && i < PT.DIRECT_PAGES && Ranked(root, y) && y.next == root + Tally(1, i)
    ensures y' == PT.PlaceRange(y0, 0, i + 1) && Ranked(root, y') && y'.next == root + Tally(1, i + 1)
  {
    LowVpn(i);
    OneMore(y0, 0, i, y, i);
    LowStep(root, y, i);
    y' := PT.PlacePath(y, i);
  }

  lemma HighNext(root: nat, y0: PT.Layout, i: nat, y: PT.Layout) returns (y': PT.Layout)
    requires y == PT.PlaceRange(y0, PT.KERNEL_VBASE, i) && i < PT.DIRECT_PAGES
    requires Ranked(root, y) && y.next == root + Tally(515, i)
    ensures y' == PT.PlaceRange(y0, PT.KERNEL_VBASE, i + 1) && Ranked(root, y') && y'.next == root + Tally(515, i + 1)
  {
    HighVpn(i);
    OneMore(y0, PT.KERNEL_VBASE, i, y, PT.DIRECT + i);
    HighStep(root, y, i);
    y' := PT.PlacePath(y, PT.DIRECT + i);
  }

  /** The tables after the first i pages of the identity map. */
  lemma {:induction false} LowTables(root: nat, y0: PT.Layout, i: nat) returns (y: PT.Layout)
    requires y0 == PT.Layout(map[(3, 0) := root], root + 1) && i <= PT.DIRECT_PAGES
    ensures y == PT.PlaceRange(y0, 0, i) && Ranked(root, y) && y.next == root + Tally(1, i)
  {
    if i == 0 {
      RootRanked(root);
      y := y0;
    } else {
      y := LowTables(root, y0, i - 1);
      y := LowNext(root, y0, i - 1, y);
    }
  }

  /** The tables after the identity map and the first i pages at KERNEL_VBASE. */
  lemma {:induction false} HighTables(root: nat, y0: PT.Layout, i: nat) returns (y: PT.Layout)
    requires Ranked(root, y0) && y0.next == root + 515 && i <= PT.DIRECT_PAGES
    ensures y == PT.PlaceRange(y0, PT.KERNEL_VBASE, i) && Ranked(root, y) && y.next == root + Tally(515, i)
  {
    y := y0;
    if i > 0 {
      y := HighTables(root, y0, i - 1);
      y := HighNext(root, y0, i - 1, y);
    }
  }

  /** vmm_init's tables fill the TABLES frames from the PML4 on, each in its place. */
  lemma TablesInARow(root: nat, n: nat)
    requires n == PT.DIRECT_PAGES
    ensures Ranked(root, PT.BootTables(root, n)) && PT.BootTables(root, n).next == root + TABLES
  {
    var low := LowTables(root, PT.Layout(map[(3, 0) := root], root + 1), n);
    var high := HighTables(root, low, n);
  }

  // ----- What that means for the heap -----

  /** The tables on the way to heap page j. */
  lemma ServingRanks(k: PT.Name, j: nat)
    requires j < HORIZON && k.0 <= 3
    ensures Serves(k, j) <==> k == (3, 0) || k == (2, 511) || k == (1, HIGH_PD) || k == (0, HIGH_PT + (FIRST_FRAME + j) / 512)
  {
    HighPrefixes(FIRST_FRAME + j);
    PT.PrefixEnds(FIRST_VPN + j);
  }

  lemma PavedAtBoot(root: nat, at: map<PT.Name, nat>)
    requires Ranked(root, PT.Layout(at, root + TABLES))
    ensures Paved(at)
  {
    forall j: nat | j < HORIZON ensures PavedAt(at, j) {
      HighPrefixes(FIRST_FRAME + j);
      assert Rank((0, PT.Prefix(FIRST_VPN + j, 0))) < TABLES;
    }
  }

  ghost predicate BootState(root: nat, at: map<PT.Name, nat>, pages: map<nat, nat>) {
    && Ranked(root, PT.Layout(at, root + TABLES)) && Pmm.FIRST_PAGE <= root && root + TABLES <= Pmm.TOTAL_PAGES
    && PT.AllReached(true, pages, at.Values) && PT.TwiceMapped(pages, PT.DIRECT_PAGES)
  }

  /** The frames of the kernel's image, when the first frame behind it is `root`. */
  function Image(root: nat): set<nat> {
    set f: nat | f < root && Loaded(f)
  }

  /** The kernel is loaded at 1 MiB. */
  predicate Loaded(f: nat) {
    Pmm.FIRST_PAGE <= f
  }

  /** Every page that the heap could come to have leaves its tables alone, or at least those that
      later pages need, exactly if the kernel image ends below frame 0x17A. */
  lemma ClearAtBoot(root: nat, at: map<PT.Name, nat>, pages: map<nat, nat>)
    requires BootState(root, at, pages)
    ensures Clear(true, pages, at, 0) <==> root < 0x17A
    ensures Ahead(true, pages, at, 0, HORIZON) <==> root < 0x17A
  {
    var last: PT.Name := (0, HIGH_PT + 129);
    assert Rank(last) == 646;
    ServingRanks(last, HORIZON - 1);
    assert Serves(last, HORIZON - 1);
    forall k: PT.Name, j: nat | k in at && j < HORIZON && Serves(k, j)
      ensures PT.Reached(true, pages, at[k]) && at[k] <= root + 646
    {
      assert at[k] in at.Values && Rank(k) < TABLES;
      ServingRanks(k, j);
    }
  }

  ghost predicate InWindow(f: nat, n: nat) {
    FIRST_FRAME <= f < FIRST_FRAME + n
  }

  /** None of the four tables that heap_init's own 512 pages need lies in the frames they hide
      before the last of them. */
  lemma AheadAtBoot(root: nat, at: map<PT.Name, nat>, pages: map<nat, nat>)
    requires BootState(root, at, pages)
    ensures Ahead(true, pages, at, 0, 512) <==>
            && !InWindow(root, 511) && !InWindow(root + 515, 511)
            && !InWindow(root + 516, 511) && !InWindow(root + 519, 511)
  {
    forall k: PT.Name, j: nat | k in at && j < 512 && Serves(k, j)
      ensures PT.Reached(true, pages, at[k])
      ensures at[k] == root || at[k] == root + 515 || at[k] == root + 516 || at[k] == root + 519
    {
      assert at[k] in at.Values && Rank(k) < TABLES;
      ServingRanks(k, j);
    }
    ServingAt(root, at, (3, 0));
    ServingAt(root, at, (2, 511));
    ServingAt(root, at, (1, HIGH_PD));
    ServingAt(root, at, (0, HIGH_PT + 2));
  }

  lemma ServingAt(root: nat, at: map<PT.Name, nat>, k: PT.Name)
    requires Ranked(root, PT.Layout(at, root + TABLES))
    requires k == (3, 0) || k == (2, 511) || k == (1, HIGH_PD) || k == (0, HIGH_PT + 2)
    ensures k in at && at[k] == root + Rank(k) && Serves(k, 511)
  {
    assert Rank(k) < TABLES;
    ServingRanks(k, 511);
  }

  /** Where the kernel image may end, in frames, for heap_init to work. */
  predicate FitsHeapInit(root: nat) {
    root < 0x1F9 || 0x3FC <= root < 0x400
  }

  /** heap_init's 512 pages are open to it exactly then. */
  lemma OpenAtBoot(root: nat, at: map<PT.Name, nat>, pages: map<nat, nat>)
    requires BootState(root, at, pages)
    ensures Ahead(true, pages, at, 0, 512) && OutOfWindow(Image(root), 0, 512) <==> FitsHeapInit(root)
  {
    AheadAtBoot(root, at, pages);
    if root > FIRST_FRAME { assert FIRST_FRAME in Image(root); }
  }

  /** The page bitmap alone makes the kernel image 2 MiB long.  Such a kernel's heap, if heap_init
      works at all, can then grow by at most three pages before it loses sight of its tables. */
  lemma GrowthAtBoot(root: nat, at: map<PT.Name, nat>, pages: map<nat, nat>, pages': map<nat, nat>, n: nat)
    requires BootState(root, at, pages) && FitsHeapInit(root) && root >= 0x300 && 0 < n && 512 + n <= HORIZON
    requires SameOutside(pages, pages', 0, 512)
    requires OwnPages(pages', at)
    ensures Ahead(true, pages', at, 512, 512 + n) <==> n <= root - 0x3FC
  {
    var k: PT.Name := (2, 511);
    var j := 512 + (root - 0x3FC);
    assert Rank(k) == 515 && at[k] in at.Values;
    ServingRanks(k, 512);
    assert Serves(k, 512);
    if root == 0x3FC {
      HeapPageIsDirect(511);
      assert OwnPage(pages', at, 511) && !PT.Reached(true, pages', at[k]);
    } else if n > root - 0x3FC {
      ServingRanks(k, j);
      assert Serves(k, j);
    } else {
      forall c: PT.Name, i: nat | c in at && 512 <= i < 512 + n && Serves(c, i)
        ensures PT.Reached(true, pages', at[c]) && !(FIRST_FRAME + 512 <= at[c] < FIRST_FRAME + i) {
        assert Rank(c) < TABLES && at[c] in at.Values;
        ServingRanks(c, i);
        ReachedOutside(true, pages, pages', 0, 512, at[c]);
      }
    }
  }

  /** heap_init takes some table out of the direct map exactly if the PML4 lies below frame 0x600. */
  lemma HiddenAtBoot(root: nat, at: map<PT.Name, nat>, pages: map<nat, nat>)
    requires BootState(root, at, pages)
    ensures (exists f :: f in at.Values && FIRST_FRAME <= f < FIRST_FRAME + 512) <==> root < FIRST_FRAME + 512
  {
    if root < FIRST_FRAME + 512 {
      var r := if root < FIRST_FRAME then FIRST_FRAME - root else 0;
      TableAt(root, at, r);
    }
    forall f | f in at.Values ensures f >= root {
      var k :| k in at && at[k] == f;
      assert Rank(k) < TABLES;
    }
  }

  lemma TableAt(root: nat, at: map<PT.Name, nat>, r: nat)
    requires Ranked(root, PT.Layout(at, root + TABLES)) && r < TABLES
    ensures root + r in at.Values
  {
    var k := Unrank(r);
    assert k in at && at[k] == root + r;
  }

  /** The table of a rank. */
  lemma Unrank(r: nat) returns (k: PT.Name)
    requires r < TABLES
    ensures Rank(k) == r
  {
    if r == 0 { k := (3, 0); }
    else if r == 1 { k := (2, 0); }
    else if r == 2 { k := (1, 0); }
    else if r < 515 { k := (0, r - 3); }
    else if r == 515 { k := (2, 511); }
    else if r == 516 { k := (1, HIGH_PD); }
    else { k := (0, HIGH_PT + (r - 517)); }
  }

  // ----- When heap_init cannot work -----

  /** Of the four tables, the first that heap_init hides. */
  function FirstHidden(root: nat): PT.Name {
    if root == 0x400 then (3, 0)
    else if root >= 0x1FD then (2, 511)
    else if root == 0x1FC then (1, HIGH_PD)
    else (0, HIGH_PT + 2)
  }

  lemma HeapPagesTogether()
    ensures OneTable(0, 512)
  {
    forall j: nat | j < 512 ensures Together(0, j) {
      HighPrefixes(FIRST_FRAME + j);
      HighPrefixes(FIRST_FRAME);
    }
  }

  lemma HiddenFirst(root: nat, at: map<PT.Name, nat>, pages: map<nat, nat>)
    requires BootState(root, at, pages) && !FitsHeapInit(root) && root <= 0x400
    ensures var k := FirstHidden(root); var h := root + Rank(k) - FIRST_FRAME;
            && Hidden(at, 0, 512, h, k.0) && Ahead(true, pages, at, 0, h + 1) && OutOfWindow(Image(root), 0, h + 1)
            && FIRST_FRAME + (h + 1) in at.Values
  {
    var k := FirstHidden(root);
    var h := root + Rank(k) - FIRST_FRAME;
    assert Rank(k) + 1 < TABLES;
    HeapPagesTogether();
    ServingRanks(k, h);
    forall c: PT.Name, j: nat | c in at && j < 512 && Serves(c, j)
      ensures PT.Reached(true, pages, at[c])
      ensures c == (3, 0) || c == (2, 511) || c == (1, HIGH_PD) || c == (0, HIGH_PT + 2)
      ensures at[c] == root + Rank(c)
    {
      assert at[c] in at.Values && Rank(c) < TABLES;
      ServingRanks(c, j);
    }
    TableAt(root, at, Rank(k) + 1);
  }

  /** pmm_init and vmm_init.  If they return, the tables lie in a row from the first frame behind
      the kernel image on, and the free frames behind them. */
  method StartPaging(kernelEnd: nat, mem: PT.Memory) returns (out: Vmm.Outcome, mmu: Vmm.Mmu)
    requires 0x100000 <= kernelEnd <= PT.DIRECT_PAGES * PAGE && Vmm.Ram(mem)
    ensures mmu.Valid() && fresh(mmu) && fresh(mmu.pmm.Repr()) && (out == Vmm.Done || out == Vmm.Halted)
    ensures mmu.image == Image((kernelEnd + PAGE - 1) / PAGE)
    ensures forall f: nat :: f in mmu.image <==> 0x100 <= f && f * 4096 < kernelEnd
    ensures out == Vmm.Halted ==> mmu.pmm.Exhausted()
    ensures out == Vmm.Done ==> mmu.loaded && mmu.root == (kernelEnd + PAGE - 1) / PAGE
    ensures out == Vmm.Done ==> BootState(mmu.root, mmu.at, mmu.pages)
    ensures out == Vmm.Done && BlankFrom(mem, mmu.root) ==> Quiet(mmu, 0)
  {
    var root := (kernelEnd + PAGE - 1) / PAGE;
    var pmm := new Pmm.Allocator(kernelEnd);
    ghost var bits, hint := pmm.Bits(), pmm.hint;
    mmu := new Vmm.Mmu(pmm, mem, Image(root));
    ghost var blank := mmu.FreeBlank();
    out := mmu.Init();
    if out == Vmm.Done {
      FirstBehindKernel(bits, hint, kernelEnd, mmu.root);
      TablesReached(mmu);
      ReachesBootState(mmu.root, mmu.at, mmu.pages, PT.DIRECT_PAGES);
      QuietAtBoot(mmu, bits);
    }
  }

  /** No frame that pmm_init leaves free holds a present entry. */
  ghost predicate BlankFrom(mem: PT.Memory, root: nat) {
    forall f: nat {:trigger PT.Blank(mem, f)} :: root <= f < Pmm.TOTAL_PAGES ==> PT.Blank(mem, f)
  }

  lemma QuietAtBoot(mmu: Vmm.Mmu, bits: seq<bool>)
    requires mmu.Valid() && mmu.root != 0 && mmu.loaded && mmu.ZoneReached() && mmu.InOrder()
    requires BootState(mmu.root, mmu.at, mmu.pages) && mmu.pmm.hint == mmu.root + TABLES
    requires |bits| == Pmm.MAX_PAGES && Pmm.Grows(bits, mmu.pmm.Bits()) && forall p: nat :: p < mmu.root ==> bits[p]
    ensures mmu.Calm() ==> Quiet(mmu, 0)
  {
    forall p: nat | p < mmu.pmm.hint && p < |mmu.pmm.Bits()| ensures mmu.pmm.Bits()[p] {
      if p >= mmu.root {
        var k := Unrank(p - mmu.root);
        assert k in mmu.at && mmu.at[k] == p;
      }
    }
    forall f | 0 <= f < Pmm.TOTAL_PAGES && !mmu.pmm.Bits()[f] ensures PT.Reached(mmu.loaded, mmu.pages, f) {
      assert f in mmu.Zone();
    }
  }

  lemma ReachesBootState(root: nat, at: map<PT.Name, nat>, pages: map<nat, nat>, n: nat)
    requires n == PT.DIRECT_PAGES && at == PT.BootTables(root, n).at && Pmm.FIRST_PAGE <= root
    requires PT.AllReached(true, pages, at.Values) && forall k :: k in at ==> at[k] < Pmm.TOTAL_PAGES
    requires PT.TwiceMapped(pages, n)
    ensures BootState(root, at, pages) && PT.BootTables(root, n).next == root + TABLES
  {
    TablesInARow(root, n);
    assert PT.Layout(at, root + TABLES) == PT.BootTables(root, n);
    assert Rank((0, HIGH_PT + 511)) == TABLES - 1;
  }

  lemma FirstBehindKernel(bits: seq<bool>, hint: nat, kernelEnd: nat, f: nat)
    requires |bits| == Pmm.MAX_PAGES && hint == Pmm.FIRST_PAGE && 0x100000 <= kernelEnd
    requires forall p :: 0 <= p < Pmm.MAX_PAGES ==>
      (bits[p] <==> p < Pmm.FIRST_PAGE || p >= Pmm.END_PAGE || p * PAGE < kernelEnd)
    requires Pmm.FirstFree(bits, hint, f) && f < Pmm.TOTAL_PAGES
    ensures f == (kernelEnd + PAGE - 1) / PAGE && Vmm.FreeFrom(bits, f)
    ensures forall p: nat :: p < f ==> bits[p]
  {
    var k := (kernelEnd + PAGE - 1) / PAGE;
    assert k <= f;
    assert !bits[k];
    forall p: nat | f <= p < Pmm.TOTAL_PAGES ensures Vmm.Free(bits, p) {}
  }

  lemma TablesReached(mmu: Vmm.Mmu)
    requires mmu.Valid() && mmu.root != 0 && mmu.loaded && mmu.ZoneReached()
    ensures PT.AllReached(true, mmu.pages, mmu.at.Values)
  {
    forall f | f in mmu.at.Values ensures PT.Reached(true, mmu.pages, f) {
      var k :| k in mmu.at && mmu.at[k] == f;
      assert PT.TableOk(mmu.mem, mmu.at, mmu.role, k);
      assert f in mmu.Zone();
    }
  }

  /** Every page of heap_init's 2 MiB shows a frame that is not a page table. */
  ghost predicate OwnPages(pages: map<nat, nat>, at: map<PT.Name, nat>) {
    forall j: nat {:trigger OwnPage(pages, at, j)} :: j < 512 ==> OwnPage(pages, at, j)
  }

  ghost predicate OwnPage(pages: map<nat, nat>, at: map<PT.Name, nat>, j: nat) {
    FIRST_VPN + j in pages && pages[FIRST_VPN + j] / PAGE !in at.Values
  }

  lemma BackedIsOwn(heap: Heap.KernelHeap)
    requires heap.Valid() && heap.end == START + Heap.INITIAL_SIZE
    ensures OwnPages(heap.mmu.pages, heap.mmu.at)
  {
    var mmu := heap.mmu;
    forall j: nat | j < 512 ensures OwnPage(mmu.pages, mmu.at, j) {
      assert BackedPage(mmu.pages, mmu.at, mmu.pmm.Bits(), heap.frames, j);
    }
  }

  /** A page left as it was still shows the table it showed. */
  lemma LeftIsNotOwn(pages: map<nat, nat>, pages': map<nat, nat>, at: map<PT.Name, nat>, h: nat)
    requires PT.TwiceMapped(pages, PT.DIRECT_PAGES) && SameOutside(pages, pages', 0, h + 1) && h + 1 < 512
    requires FIRST_FRAME + (h + 1) in at.Values
    ensures !OwnPages(pages', at)
  {
    var v := FIRST_VPN + (h + 1);
    assert PT.TwiceAt(pages, PT.DIRECT_PAGES, v);
    assert !OwnPage(pages', at, h + 1);
  }

  lemma Trespasses(mmu: Vmm.Mmu)
    requires mmu.loaded && mmu.root > 0x400 && mmu.image == Image(mmu.root) && BootState(mmu.root, mmu.at, mmu.pages)
    ensures Trespass(mmu, 0)
  {
    forall k: PT.Name, j: nat | k in mmu.at && j < 1 && Serves(k, j) ensures PT.Reached(true, mmu.pages, mmu.at[k]) {
      assert mmu.at[k] in mmu.at.Values;
    }
  }

  /** What heap_init makes of the tables that vmm_init left, when `root` is the first frame behind the
      kernel image. */
  ghost predicate HeapStarted(out: Vmm.Outcome, heap: Heap.KernelHeap, root: nat)
    reads heap.Repr()
  {
    && (out == Vmm.Done ==> heap.free == [START] && heap.end == START + Heap.INITIAL_SIZE)
    && (out == Vmm.Done ==> (heap.Laid() <==> FitsHeapInit(root)) && (!heap.mmu.astray ==> heap.Valid()))
    && (FitsHeapInit(root) ==> !heap.mmu.astray && (out == Vmm.Done || Starved(out, heap)))
    && (root > 0x400 ==> out == Vmm.Lost || Starved(out, heap))
    && (out == Vmm.Done && root < 0x17A ==> heap.Smooth())
  }

  ghost predicate Starved(out: Vmm.Outcome, heap: Heap.KernelHeap)
    reads heap.Repr()
  {
    out == Vmm.Halted && heap.mmu.pmm.Valid() && heap.mmu.pmm.Exhausted()
  }

  method StartHeap(mmu: Vmm.Mmu, ghost quiet: bool) returns (out: Vmm.Outcome, heap: Heap.KernelHeap)
    requires mmu.Valid() && mmu.root != 0 && mmu.loaded
    requires mmu.image == Image(mmu.root) && BootState(mmu.root, mmu.at, mmu.pages)
    requires quiet ==> Quiet(mmu, 0)
    modifies mmu.Repr()
    ensures heap.mmu == mmu && HeapStarted(out, heap, old(mmu.root))
    ensures out == Vmm.Done && quiet ==> (OwnPages(mmu.pages, mmu.at) <==> FitsHeapInit(old(mmu.root)))
    ensures quiet && old(mmu.root) <= 0x400 ==> out == Vmm.Done || Starved(out, heap)
  {
    heap := new Heap.KernelHeap(mmu);
    PavedAtBoot(mmu.root, mmu.at);
    OpenAtBoot(mmu.root, mmu.at, mmu.pages);
    ghost var root, pages, k := mmu.root, mmu.pages, FirstHidden(mmu.root);
    ghost var doomed := quiet && !FitsHeapInit(root) && root <= 0x400;
    ghost var h: nat := if doomed then root + Rank(k) - FIRST_FRAME else 0;
    if doomed { HiddenFirst(root, mmu.at, pages); }
    if root > 0x400 { Trespasses(mmu); }
    if root < 0x17A { ClearAtBoot(root, mmu.at, pages); ClearIsAhead(true, pages, mmu.at, 0, HORIZON); }
    out := heap.Init(doomed, h, k.0);
    if out == Vmm.Done && !mmu.astray { BackedIsOwn(heap); }
    if out == Vmm.Done && doomed { LeftIsNotOwn(pages, mmu.pages, mmu.at, h); }
  }

  /** All of start-up, for any size of the kernel image.  heap_init lays the heap out as one free
      block of 2 MiB on pages of its own exactly if the image fits; it does not go astray then, and
      fails only for want of pages.  If the image does not fit, heap_init loses the kernel or goes
      astray; and if the free frames hold no present entries, so that its stray writes stay among
      frames that nothing else uses, it comes to its end with a page table in the middle of the
      heap. */
  method Start(kernelEnd: nat, mem: PT.Memory) returns (out: Vmm.Outcome, heap: Heap.KernelHeap)
    requires 0x100000 <= kernelEnd <= PT.DIRECT_PAGES * PAGE && Vmm.Ram(mem)
    ensures HeapStarted(out, heap, (kernelEnd + PAGE - 1) / PAGE)
    ensures var root := (kernelEnd + PAGE - 1) / PAGE; BlankFrom(mem, root) ==>
      && (out == Vmm.Done ==> (OwnPages(heap.mmu.pages, heap.mmu.at) <==> FitsHeapInit(root)))
      && (root <= 0x400 ==> out == Vmm.Done || Starved(out, heap))
  {
    var mmu;
    out, mmu := StartPaging(kernelEnd, mem);
    if out != Vmm.Done {
      heap := new Heap.KernelHeap(mmu);
      return;
    }
    out, heap := StartHeap(mmu, BlankFrom(mem, mmu.root));
  }
}
