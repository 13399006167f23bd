/** The pages under the kernel heap: heap_extend of mm/heap/heap.c, which maps fresh frames behind
    the heap's end.

    The heap begins 4 MiB above KERNEL_VBASE, inside the direct map, so heap page i is the
    direct-map page of frame FIRST_FRAME + i, and mapping it takes that frame out of the direct
    map.  If the frame holds a page table that a later heap page needs, heap_extend can no longer
    walk the tables. */
module HeapPages {
  import opened Common
  import Pmm
  import PT = PageTables
  import Vmm

  const PAGE := 4096
  const START := 0xFFFF_FFFF_8040_0000
  const MAX_SIZE := 0x400_0000
  const FIRST_VPN := 0xF_FFF8_0400
  const FIRST_FRAME := 0x400
  const HORIZON := Pmm.TOTAL_PAGES       // no more frames can be handed out than this

  /** Heap page i is the direct-map page of frame FIRST_FRAME + i. */
  lemma HeapPageIsDirect(i: nat)
    requires i <= HORIZON
    ensures PT.Vpn(START + i * PAGE) == FIRST_VPN + i == PT.DirectPage(FIRST_FRAME + i) < PT.PAGES
    ensures START + i * PAGE < WORD
  {
    assert (START + i * PAGE) / 4096 == 0xF_FFFF_FFF8_0400 + i;
  }

  // ----- Backing frames -----

  /** Heap page i is mapped to frame frames[i], present and writable; that frame is marked used and is
      not a page table. */
  ghost predicate BackedPage(pages: map<nat, nat>, at: map<PT.Name, nat>, bits: seq<bool>, frames: seq<nat>, i: int)
    requires 0 <= i < |frames|
  {
    && FIRST_VPN + i in pages && pages[FIRST_VPN + i] / PAGE == frames[i] && pages[FIRST_VPN + i] % PAGE == 3
    && frames[i] < Pmm.TOTAL_PAGES && frames[i] < |bits| && bits[frames[i]]
    && (forall n :: n in at ==> at[n] != frames[i])
  }

  /** The heap's pages are backed by pairwise distinct frames. */
  ghost predicate AllBacked(pages: map<nat, nat>, at: map<PT.Name, nat>, bits: seq<bool>, frames: seq<nat>) {
    && Distinct(frames)
    && (forall i {:trigger BackedPage(pages, at, bits, frames, i)} :: 0 <= i < |frames| ==>
          BackedPage(pages, at, bits, frames, i))
  }

  ghost predicate Backed(mmu: Vmm.Mmu, frames: seq<nat>)
    reads mmu.Repr()
  {
    mmu.Valid() && mmu.root != 0 && mmu.loaded && AllBacked(mmu.pages, mmu.at, mmu.pmm.Bits(), frames)
  }

  lemma StillBacked(pages: map<nat, nat>, at: map<PT.Name, nat>, bits: seq<bool>,
                    pages': map<nat, nat>, bits': seq<bool>, frames: seq<nat>)
    requires AllBacked(pages, at, bits, frames) && Pmm.Grows(bits, bits')
    requires forall i :: FIRST_VPN <= i < FIRST_VPN + |frames| && i in pages ==> i in pages' && pages'[i] == pages[i]
    ensures AllBacked(pages', at, bits', frames)
  {
    forall i | 0 <= i < |frames| ensures BackedPage(pages', at, bits', frames, i) {
      assert BackedPage(pages, at, bits, frames, i);
    }
  }

  lemma OneMoreBacked(pages: map<nat, nat>, at: map<PT.Name, nat>, bits: seq<bool>, frames: seq<nat>, f: nat)
    requires AllBacked(pages, at, bits, frames) && f !in frames && f < Pmm.TOTAL_PAGES && f < |bits| && bits[f]
    requires FIRST_VPN + |frames| in pages && pages[FIRST_VPN + |frames|] / PAGE == f && pages[FIRST_VPN + |frames|] % PAGE == 3
    requires forall n :: n in at ==> at[n] != f
    ensures AllBacked(pages, at, bits, frames + [f])
  {
    var frames' := frames + [f];
    forall i | 0 <= i < |frames'| ensures BackedPage(pages, at, bits, frames', i) {
      if i < |frames| { assert BackedPage(pages, at, bits, frames, i); }
    }
  }

  lemma PrefixBacked(pages: map<nat, nat>, at: map<PT.Name, nat>, bits: seq<bool>, frames: seq<nat>, fs: seq<nat>)
    requires AllBacked(pages, at, bits, fs) && frames <= fs
    ensures AllBacked(pages, at, bits, frames)
  {
    forall i | 0 <= i < |frames| ensures BackedPage(pages, at, bits, frames, i) {
      assert BackedPage(pages, at, bits, fs, i);
    }
  }

  /** The heap never has more pages than there are frames. */
  lemma BackedBound(pages: map<nat, nat>, at: map<PT.Name, nat>, bits: seq<bool>, frames: seq<nat>)
    requires AllBacked(pages, at, bits, frames)
    ensures |frames| <= HORIZON
  {
    forall i | 0 <= i < |frames| ensures frames[i] < HORIZON { assert BackedPage(pages, at, bits, frames, i); }
    Pigeonhole(frames, HORIZON);
  }

  // ----- The tables under the heap -----

  ghost predicate PavedAt(at: map<PT.Name, nat>, j: nat) {
    (0, PT.Prefix(FIRST_VPN + j, 0)) in at
  }

  /** Every page the heap could come to have lies in an existing page table. */
  ghost predicate Paved(at: map<PT.Name, nat>) {
    forall j: nat {:trigger PavedAt(at, j)} :: j < HORIZON ==> PavedAt(at, j)
  }

  /** Table k is on the way to heap page j. */
  ghost predicate Serves(k: PT.Name, j: nat) {
    PT.Under(k, FIRST_VPN + j)
  }

  /** The tables that heap pages n to m - 1 need can be reached, and none is taken out of the
      direct map by mapping the pages from n on that come before. */
  ghost predicate Ahead(loaded: bool, pages: map<nat, nat>, at: map<PT.Name, nat>, n: nat, m: nat) {
    forall k: PT.Name, j: nat {:trigger Serves(k, j)} :: k in at && n <= j < m && Serves(k, j) ==>
      PT.Reached(loaded, pages, at[k]) && !(FIRST_FRAME + n <= at[k] < FIRST_FRAME + j)
  }

  /** The tables that heap pages from n on need can be reached, and mapping any of those pages
      takes none of them out of the direct map. */
  ghost predicate Clear(loaded: bool, pages: map<nat, nat>, at: map<PT.Name, nat>, n: nat) {
    forall k: PT.Name, j: nat {:trigger Serves(k, j)} :: k in at && n <= j < HORIZON && Serves(k, j) ==>
      PT.Reached(loaded, pages, at[k]) && !(FIRST_FRAME + n <= at[k] < FIRST_FRAME + HORIZON)
  }

  lemma ClearIsAhead(loaded: bool, pages: map<nat, nat>, at: map<PT.Name, nat>, n: nat, m: nat)
    requires Clear(loaded, pages, at, n) && m <= HORIZON
    ensures Ahead(loaded, pages, at, n, m)
  {
  }

  /** Only the heap pages from lo to hi - 1 have changed. */
  ghost predicate SameOutside(pages: map<nat, nat>, pages': map<nat, nat>, lo: nat, hi: nat) {
    forall v :: !(FIRST_VPN + lo <= v < FIRST_VPN + hi) ==>
      (v in pages' <==> v in pages) && (v in pages ==> pages'[v] == pages[v])
  }

  /** A frame whose direct-map page is not among them is reached as before. */
  lemma ReachedOutside(loaded: bool, pages: map<nat, nat>, pages': map<nat, nat>, lo: nat, hi: nat, f: nat)
    requires SameOutside(pages, pages', lo, hi) && hi <= HORIZON && f < Pmm.MAX_PAGES
    requires !(FIRST_FRAME + lo <= f < FIRST_FRAME + hi)
    ensures PT.Reached(loaded, pages', f) <==> PT.Reached(loaded, pages, f)
  {
  }

  lemma AheadStays(loaded: bool, pages: map<nat, nat>, pages': map<nat, nat>, at: map<PT.Name, nat>, n: nat,
                   n': nat, m: nat)
    requires Ahead(loaded, pages, at, n, m) && SameOutside(pages, pages', n, n') && n <= n' <= HORIZON
    requires forall k :: k in at ==> at[k] < Pmm.MAX_PAGES
    ensures Ahead(loaded, pages', at, n', m)
  {
    forall k: PT.Name, j: nat | k in at && n' <= j < m && Serves(k, j)
      ensures PT.Reached(loaded, pages', at[k]) && !(FIRST_FRAME + n' <= at[k] < FIRST_FRAME + j) {
      ReachedOutside(loaded, pages, pages', n, n', at[k]);
    }
  }

  /** None of the frames lies in the window that heap pages n to m - 1 show. */
  ghost predicate OutOfWindow(z: set<nat>, n: nat, m: nat) {
    forall f :: f in z ==> !(FIRST_FRAME + n <= f < FIRST_FRAME + m)
  }

  /** Heap page n can be mapped, but shows a frame of the kernel's image. */
  ghost predicate Trespass(mmu: Vmm.Mmu, n: nat)
    reads mmu
  {
    Ahead(mmu.loaded, mmu.pages, mmu.at, n, n + 1) && FIRST_FRAME + n in mmu.image
  }

  /** What mapping heap pages n to m - 1 relies on. */
  ghost predicate Open(mmu: Vmm.Mmu, n: nat, m: nat)
    reads mmu
  {
    Ahead(mmu.loaded, mmu.pages, mmu.at, n, m) && OutOfWindow(mmu.image, n, m)
  }

  /** Mapping heap pages lo to hi - 1 to frames outside z leaves the frames of z reachable exactly
      if none of them lies in the window those pages show. */
  lemma WindowHides(pages: map<nat, nat>, pages': map<nat, nat>, lo: nat, hi: nat, z: set<nat>)
    requires PT.AllReached(true, pages, z) && SameOutside(pages, pages', lo, hi) && lo <= hi <= HORIZON
    requires forall f :: f in z ==> f < Pmm.MAX_PAGES
    requires forall i :: FIRST_VPN + lo <= i < FIRST_VPN + hi ==> i in pages' && pages'[i] / PAGE !in z
    ensures PT.AllReached(true, pages', z) <==> OutOfWindow(z, lo, hi)
  {
    forall f | f in z ensures PT.Reached(true, pages', f) <==> !(FIRST_FRAME + lo <= f < FIRST_FRAME + hi) {
      assert PT.Reached(true, pages, f);
      if FIRST_FRAME + lo <= f < FIRST_FRAME + hi {
        HeapPageIsDirect(f - FIRST_FRAME);
      } else {
        ReachedOutside(true, pages, pages', lo, hi, f);
      }
    }
    if PT.AllReached(true, pages', z) {
      forall f | f in z ensures !(FIRST_FRAME + lo <= f < FIRST_FRAME + hi) { assert PT.Reached(true, pages', f); }
    }
  }

  // ----- heap_extend -----

  /** Heap pages n to |fs| - 1 have been mapped since the translations were p.  Then no table that
      one of them needs was hidden before, nor has any of them taken the place of the kernel. */
  ghost predicate Going(mmu: Vmm.Mmu, p: map<nat, nat>, n: nat, fs: seq<nat>)
    reads mmu.Repr()
  {
    && Backed(mmu, fs) && Paved(mmu.at) && n <= |fs| <= HORIZON && SameOutside(p, mmu.pages, n, |fs|)
    && Ahead(true, p, mmu.at, n, |fs|) && OutOfWindow(mmu.image, n, |fs|)
  }

  /** A table can be reached now exactly if it could be and is not in the window. */
  lemma ReachedSince(mmu: Vmm.Mmu, p: map<nat, nat>, n: nat, fs: seq<nat>, k: PT.Name)
    requires Going(mmu, p, n, fs) && k in mmu.at
    ensures PT.Reached(true, mmu.pages, mmu.at[k]) <==>
            PT.Reached(true, p, mmu.at[k]) && !(FIRST_FRAME + n <= mmu.at[k] < FIRST_FRAME + |fs|)
  {
    var f := mmu.at[k];
    assert PT.TableOk(mmu.mem, mmu.at, mmu.role, k);
    if FIRST_FRAME + n <= f < FIRST_FRAME + |fs| {
      HeapPageIsDirect(f - FIRST_FRAME);
      assert BackedPage(mmu.pages, mmu.at, mmu.pmm.Bits(), fs, f - FIRST_FRAME);
    } else {
      ReachedOutside(true, p, mmu.pages, n, |fs|, f);
    }
  }

  /** So the next page can be mapped exactly if its tables are still there to be seen. */
  lemma NextReached(mmu: Vmm.Mmu, p: map<nat, nat>, n: nat, fs: seq<nat>)
    requires Going(mmu, p, n, fs) && |fs| < HORIZON
    ensures PT.Vpn(START + |fs| * PAGE) == FIRST_VPN + |fs| < PT.PAGES && (0, PT.Prefix(FIRST_VPN + |fs|, 0)) in mmu.at
    ensures mmu.PathReached(FIRST_VPN + |fs|) <==> Ahead(true, p, mmu.at, n, |fs| + 1)
  {
    HeapPageIsDirect(|fs|);
    assert PavedAt(mmu.at, |fs|);
    forall k | k in mmu.at && Serves(k, |fs|)
      ensures PT.Reached(true, mmu.pages, mmu.at[k]) <==>
              PT.Reached(true, p, mmu.at[k]) && !(FIRST_FRAME + n <= mmu.at[k] < FIRST_FRAME + |fs|) {
      ReachedSince(mmu, p, n, fs, k);
    }
    if Ahead(true, p, mmu.at, n, |fs| + 1) {
      forall k | k in mmu.at && PT.Under(k, FIRST_VPN + |fs|) ensures PT.Reached(true, mmu.pages, mmu.at[k]) {
        assert Serves(k, |fs|);
      }
    }
    if mmu.PathReached(FIRST_VPN + |fs|) { AheadByOne(mmu, p, n, fs); }
  }

  lemma AheadByOne(mmu: Vmm.Mmu, p: map<nat, nat>, n: nat, fs: seq<nat>)
    requires Going(mmu, p, n, fs) && mmu.PathReached(FIRST_VPN + |fs|)
    ensures Ahead(true, p, mmu.at, n, |fs| + 1)
  {
    forall k: PT.Name, j: nat | k in mmu.at && n <= j < |fs| + 1 && Serves(k, j)
      ensures PT.Reached(true, p, mmu.at[k]) && !(FIRST_FRAME + n <= mmu.at[k] < FIRST_FRAME + j) {
      if j == |fs| {
        assert PT.Under(k, FIRST_VPN + |fs|);
        ReachedSince(mmu, p, n, fs, k);
      }
    }
  }

  /** Heap page j may be mapped without losing the kernel exactly if it shows no frame of its image. */
  lemma NextSpares(image: set<nat>, j: nat, f: nat)
    requires j < HORIZON && f !in image && forall g :: g in image ==> g < PT.PAGES
    ensures PT.MapSpares(image, START + j * PAGE, f * PAGE) <==> FIRST_FRAME + j !in image
  {
    HeapPageIsDirect(j);
    forall g | g in image && PT.DirectPage(g) == PT.DirectPage(FIRST_FRAME + j) ensures g == FIRST_FRAME + j {
      PT.DirectPagesDiffer(g, FIRST_FRAME + j);
    }
    if FIRST_FRAME + j in image { assert PT.DirectPage(FIRST_FRAME + j) == PT.Vpn(START + j * PAGE); }
  }

  // ----- When a page of the run hides a table that the next one needs -----

  ghost predicate Packed(bits: seq<bool>, hint: nat) {
    forall p: nat :: p < hint && p < |bits| ==> bits[p]
  }

  /** Frames are handed out in order from behind the first j heap pages' window, can be reached, and
      hold no present entries. */
  ghost predicate Quiet(mmu: Vmm.Mmu, j: nat)
    reads mmu.Repr()
  {
    mmu.Calm() && mmu.FreeReached() && mmu.InOrder() && Packed(mmu.pmm.Bits(), mmu.pmm.hint) && FIRST_FRAME + j <= mmu.pmm.hint
  }

  /** Heap pages n to m - 1 lie in one page table. */
  ghost predicate OneTable(n: nat, m: nat) {
    forall j: nat {:trigger Together(n, j)} :: n <= j < m ==> Together(n, j)
  }

  ghost predicate Together(n: nat, j: nat) {
    PT.Prefix(FIRST_VPN + j, 0) == PT.Prefix(FIRST_VPN + n, 0)
  }

  /** Of the tables that heap pages n to m - 1 need, the one of level top is the first to be hidden,
      by page h. */
  ghost predicate Hidden(at: map<PT.Name, nat>, n: nat, m: nat, h: nat, top: nat) {
    && n <= h && h + 1 < m <= HORIZON && OneTable(n, m) && top <= 3
    && (top, PT.Prefix(FIRST_VPN + h, top)) in at && at[(top, PT.Prefix(FIRST_VPN + h, top))] == FIRST_FRAME + h
    && (forall k: PT.Name {:trigger Serves(k, h)} ::
        k in at && Serves(k, h) && k.0 != top ==> !(FIRST_FRAME + n <= at[k] <= FIRST_FRAME + h))
  }

  /** A run that begins with translations p comes to that page, and goes wrong at the next. */
  ghost predicate Doomed(image: set<nat>, at: map<PT.Name, nat>, p: map<nat, nat>, n: nat, m: nat, h: nat, top: nat) {
    Hidden(at, n, m, h, top) && Ahead(true, p, at, n, h + 1) && OutOfWindow(image, n, h + 1)
  }

  /** It has: accesses to that table are carried out on other frames, and no page has been mapped
      since. */
  ghost predicate Gone(mmu: Vmm.Mmu, p: map<nat, nat>, n: nat, h: nat, top: nat, ss: seq<nat>, j: nat)
    reads mmu.Repr()
  {
    mmu.loaded && mmu.Shadowed(FIRST_VPN + j, top, ss) && SameOutside(p, mmu.pages, n, h + 1)
  }

  lemma SameServers(n: nat, m: nat, i: nat, j: nat, k: PT.Name)
    requires OneTable(n, m) && n <= i < m && n <= j < m
    ensures Serves(k, i) <==> Serves(k, j)
    ensures PT.Prefix(FIRST_VPN + i, k.0) == PT.Prefix(FIRST_VPN + j, k.0)
  {
    assert Together(n, i) && Together(n, j);
    PT.SamePath(FIRST_VPN + i, FIRST_VPN + j, k.0);
  }

  /** Once page h is mapped to a blank frame. */
  lemma GoneStarts(mmu: Vmm.Mmu, p: map<nat, nat>, n: nat, m: nat, h: nat, top: nat, fs: seq<nat>)
    requires Going(mmu, p, n, fs) && |fs| == h + 1 && Doomed(mmu.image, mmu.at, p, n, m, h, top) && mmu.FreeReached()
    requires PT.Blank(mmu.mem, fs[h]) && fs[h] !in mmu.image
    ensures Gone(mmu, p, n, h, top, [fs[h]], h + 1)
  {
    var v, f := FIRST_VPN + (h + 1), fs[h];
    HeapPageIsDirect(h);
    HeapPageIsDirect(h + 1);
    SameServers(n, m, h, h + 1, (top, 0));
    assert BackedPage(mmu.pages, mmu.at, mmu.pmm.Bits(), fs, h) && PavedAt(mmu.at, h + 1);
    mmu.RouteIsMapped(FIRST_FRAME + h);
    forall k: PT.Name | k in mmu.at && PT.Under(k, v) && k.0 > top ensures PT.Reached(true, mmu.pages, mmu.at[k]) {
      assert Serves(k, h + 1);
      SameServers(n, m, h, h + 1, k);
      ReachedSince(mmu, p, n, fs, k);
    }
    OffChainOfOne(mmu, f, top, v);
  }

  lemma OffChainOfOne(mmu: Vmm.Mmu, f: nat, top: nat, v: nat)
    requires mmu.Valid() && mmu.Offside(f) && PT.Blank(mmu.mem, f)
    ensures mmu.OffChain([f], top, v)
  {
    assert !PT.Present(PT.Entry(mmu.mem, f, PT.Digit(v, top)));
    forall i: nat ensures PT.LeadsOn(mmu.mem, [f], top, v, i) { }
  }

  /** And so it goes on, page after page. */
  lemma GoneOn(mmu: Vmm.Mmu, p: map<nat, nat>, n: nat, m: nat, h: nat, top: nat, ss: seq<nat>, j: nat)
    requires mmu.Sane() && mmu.root != 0 && mmu.loaded && mmu.FreeReached()
    requires Paved(mmu.at) && SameOutside(p, mmu.pages, n, h + 1)
    requires Hidden(mmu.at, n, m, h, top) && h < j && j + 1 < m && mmu.OffChains(ss, top, FIRST_VPN + j)
    requires |ss| > 0 && mmu.Route(FIRST_FRAME + h) == Some(ss[0])
    requires forall k: PT.Name {:trigger PT.Reached(true, mmu.pages, mmu.at[k])} ::
      k in mmu.at && PT.Under(k, FIRST_VPN + j) && k.0 > top ==>
      PT.Reached(true, mmu.pages, mmu.at[k])
    ensures Gone(mmu, p, n, h, top, ss, j + 1)
  {
    HeapPageIsDirect(j + 1);
    SameServers(n, m, h, j + 1, (top, 0));
    SameServers(n, m, j, j + 1, (0, 0));
    assert PavedAt(mmu.at, j + 1) && mmu.OffChain(ss, top, FIRST_VPN + (j + 1));
    forall k: PT.Name | k in mmu.at && PT.Under(k, FIRST_VPN + (j + 1)) && k.0 > top ensures PT.Reached(true, mmu.pages, mmu.at[k]) {
      SameServers(n, m, j, j + 1, k);
      assert Serves(k, j);
    }
  }

  // ----- The loop of heap_extend -----

  /** What a run of heap_extend is about: the translations p, the tables, the frames taken and the
      heap's frames that it begins with; its pages n to m - 1; whether nothing is in its way, there is no frame to be
      had, or its first page shows the kernel's image; and, if it is doomed, page h and level top. */
  datatype Run = Run(p: map<nat, nat>, at: map<PT.Name, nat>, bits: seq<bool>, frames: seq<nat>, n: nat, m: nat,
                     open: bool, empty: bool, trespass: bool, doomed: bool, h: nat, top: nat)

  /** What it can rely on. */
  ghost predicate Outlook(image: set<nat>, r: Run) {
    && Paved(r.at)
    && (r.open ==> Ahead(true, r.p, r.at, r.n, r.m) && OutOfWindow(image, r.n, r.m))
    && (r.trespass ==> Ahead(true, r.p, r.at, r.n, r.n + 1) && FIRST_FRAME + r.n in image)
    && (r.doomed ==> !r.open && !r.trespass && Doomed(image, r.at, r.p, r.n, r.m, r.h, r.top))
  }

  /** The state before page j of the run. */
  ghost predicate Running(mmu: Vmm.Mmu, r: Run, fs: seq<nat>, ss: seq<nat>, j: nat)
    reads mmu.Repr()
  {
    && (!mmu.astray ==> Going(mmu, r.p, r.n, fs) && |fs| == j && r.frames <= fs)
    && (!mmu.astray || r.doomed ==> mmu.at == r.at)
    && (r.open || r.empty || r.trespass ==> !mmu.astray)
    && (r.empty || r.trespass ==> j == r.n) && (r.empty ==> mmu.pmm.Valid() && mmu.pmm.Exhausted())
    && (r.doomed && j <= r.h ==> !mmu.astray && Quiet(mmu, j))
    && (r.doomed && r.h < j < r.m ==> Gone(mmu, r.p, r.n, r.h, r.top, ss, j))
    && (r.doomed && r.m <= j ==> mmu.astray && mmu.Sane() && SameOutside(r.p, mmu.pages, r.n, r.h + 1))
  }

  /** A frame that is neither a heap page nor a page table. */
  method TakeFrame(mmu: Vmm.Mmu, ghost r: Run, ghost fs: seq<nat>, ghost ss: seq<nat>, ghost j: nat)
    returns (out: Vmm.Outcome, f: nat)
    requires mmu !in mmu.pmm.Repr() && mmu.pmm.Valid()
    requires Running(mmu, r, fs, ss, j) && (r.doomed ==> j < r.m)
    modifies mmu.pmm.Repr()
    ensures mmu.pmm.Valid()
    ensures out != Vmm.Faulted && (out == Vmm.Halted ==> mmu.pmm.Exhausted())
    ensures r.empty ==> out == Vmm.Halted
    ensures Running(mmu, r, fs, ss, j) && (!mmu.astray || r.doomed ==> out != Vmm.Lost)
    ensures !mmu.astray ==> Pmm.Grows(old(mmu.pmm.Bits()), mmu.pmm.Bits())
    ensures out != Vmm.Done ==> mmu.pmm.Bits() == old(mmu.pmm.Bits())
    ensures out == Vmm.Done ==>
      f < |old(mmu.pmm.Bits())| && !old(mmu.pmm.Bits())[f] && mmu.pmm.Bits() == old(mmu.pmm.Bits())[f := true]
    ensures !mmu.astray && out == Vmm.Done ==> Fresh(mmu, fs, f)
    ensures r.doomed && j <= r.h && out == Vmm.Done ==> PT.Blank(mmu.mem, f) && Quiet(mmu, j + 1)
  {
    ghost var bits, hint := mmu.pmm.Bits(), mmu.pmm.hint;
    out, f := mmu.NewFrame();
    if !mmu.astray {
      forall i | 0 <= i < |fs| ensures out == Vmm.Done ==> fs[i] != f { assert BackedPage(mmu.pages, mmu.at, bits, fs, i); }
      StillBacked(mmu.pages, mmu.at, bits, mmu.pages, mmu.pmm.Bits(), fs);
      if out == Vmm.Done { Vmm.FirstInOrder(bits, hint, f); }
    }
  }

  /** Since the page allocator's bits were b0 the heap has been given the frames of its pages from n
      on, which were free, and as many frames have been taken as that. */
  ghost predicate Spent(b0: seq<bool>, b: seq<bool>, fs: seq<nat>, n: nat) {
    && n <= |fs| && |b| == Pmm.MAX_PAGES && Pmm.Grows(b0, b) && Pmm.Taken(b) == Pmm.Taken(b0) + (|fs| - n)
    && (forall i :: n <= i < |fs| ==> fs[i] < |b0| && !b0[fs[i]])
  }

  lemma SpentOneMore(b0: seq<bool>, b: seq<bool>, fs: seq<nat>, n: nat, f: nat)
    requires Spent(b0, b, fs, n) && f < |b| && !b[f] && Pmm.FIRST_PAGE <= f < Pmm.END_PAGE
    ensures Spent(b0, b[f := true], fs + [f], n)
  {
    Pmm.TakenUpdate(b, f, true);
  }

  ghost predicate Fresh(mmu: Vmm.Mmu, fs: seq<nat>, f: nat)
    reads mmu.Repr()
  {
    && f < Pmm.TOTAL_PAGES && f < |mmu.pmm.Bits()| && mmu.pmm.Bits()[f] && f !in fs && f !in mmu.image
    && (forall n :: n in mmu.at ==> mmu.at[n] != f)
  }

  lemma RoomForOne(pages: map<nat, nat>, at: map<PT.Name, nat>, bits: seq<bool>, fs: seq<nat>, f: nat)
    requires AllBacked(pages, at, bits, fs) && f !in fs && f < Pmm.TOTAL_PAGES
    ensures |fs| < HORIZON
  {
    var fs' := fs + [f];
    forall i | 0 <= i < |fs'| ensures fs'[i] < HORIZON { if i < |fs| { assert BackedPage(pages, at, bits, fs, i); } }
    Pigeonhole(fs', HORIZON);
  }

  lemma GoingOn(mmu: Vmm.Mmu, p: map<nat, nat>, n: nat, fs: seq<nat>, f: nat, pages: map<nat, nat>, bits: seq<bool>)
    requires mmu.Valid() && mmu.root != 0 && mmu.loaded && Paved(mmu.at) && n <= |fs| < HORIZON && Fresh(mmu, fs, f)
    requires AllBacked(pages, mmu.at, bits, fs) && Pmm.Grows(bits, mmu.pmm.Bits()) && SameOutside(p, pages, n, |fs|)
    requires mmu.pages == pages[FIRST_VPN + |fs| := PT.LeafEntry(f * PAGE, 3)]
    requires Ahead(true, p, mmu.at, n, |fs| + 1) && OutOfWindow(mmu.image, n, |fs| + 1)
    ensures Going(mmu, p, n, fs + [f])
  {
    StillBacked(pages, mmu.at, bits, mmu.pages, mmu.pmm.Bits(), fs);
    OneMoreBacked(mmu.pages, mmu.at, mmu.pmm.Bits(), fs, f);
  }

  ghost predicate FreeShown(pages: map<nat, nat>, bits: seq<bool>) {
    forall f {:trigger PT.Reached(true, pages, f)} ::
      0 <= f < Pmm.TOTAL_PAGES && f < |bits| && !bits[f] ==> PT.Reached(true, pages, f)
  }

  /** Mapping page j hides no free frame. */
  lemma QuietOn(mmu: Vmm.Mmu, j: nat, e: nat, pages: map<nat, nat>, bits: seq<bool>)
    requires mmu.Valid() && mmu.loaded && mmu.Calm() && mmu.InOrder() && j < HORIZON && |bits| == Pmm.MAX_PAGES
    requires FreeShown(pages, bits) && Packed(bits, mmu.pmm.hint) && Pmm.Grows(bits, mmu.pmm.Bits())
    requires FIRST_FRAME + (j + 1) <= mmu.pmm.hint && mmu.pages == pages[FIRST_VPN + j := e]
    ensures Quiet(mmu, j + 1)
  {
    forall f | 0 <= f < Pmm.TOTAL_PAGES && f < |mmu.pmm.Bits()| && !mmu.pmm.Bits()[f] ensures PT.Reached(true, mmu.pages, f) {
      assert PT.Reached(true, pages, f);
    }
  }

  lemma NothingToPlace(mmu: Vmm.Mmu, v: nat)
    requires mmu.Valid() && mmu.root != 0 && v < PT.PAGES && (0, PT.Prefix(v, 0)) in mmu.at
    ensures PT.PlacePath(mmu.Now(), v) == mmu.Now()
  {
    mmu.PathClosed(v);
    var y := mmu.Now();
    assert PT.PlaceDown(y, v, 3) == y && PT.PlaceDown(y, v, 2) == y && PT.PlaceDown(y, v, 1) == y;
  }

  lemma RouteThere(mmu: Vmm.Mmu, r: Run, ss: seq<nat>, j: nat)
    requires Gone(mmu, r.p, r.n, r.h, r.top, ss, j)
    requires Doomed(mmu.image, mmu.at, r.p, r.n, r.m, r.h, r.top) && r.h < j < r.m
    ensures PT.Vpn(START + j * PAGE) == FIRST_VPN + j && !Ahead(true, r.p, mmu.at, r.n, j + 1)
    ensures PT.DirectPage(FIRST_FRAME + r.h) in mmu.pages && mmu.pages[PT.DirectPage(FIRST_FRAME + r.h)] / 4096 == ss[0]
  {
    HeapPageIsDirect(j);
    SameServers(r.n, r.m, r.h, j, (r.top, 0));
    mmu.RouteIsMapped(FIRST_FRAME + r.h);
    assert Serves((r.top, PT.Prefix(FIRST_VPN + r.h, r.top)), j);
  }

  lemma StillBlank(mmu: Vmm.Mmu, m0: PT.Memory, f: nat)
    requires mmu.SameElsewhere(m0) && f !in mmu.role && PT.Blank(m0, f) && Vmm.Ram(m0) && f < Pmm.MAX_PAGES
    ensures PT.Blank(mmu.mem, f)
  {
    assert Vmm.RamAt(m0, f);
    forall i: nat | i < 512 ensures !PT.Present(PT.Entry(mmu.mem, f, i)) { assert !PT.Present(PT.Entry(m0, f, i)); }
  }

  /** A page has been mapped, without going astray. */
  lemma RunningOn(mmu: Vmm.Mmu, r: Run, fs: seq<nat>, f: nat, pages: map<nat, nat>, bits: seq<bool>, m0: PT.Memory)
    requires mmu.Valid() && mmu.root != 0 && mmu.loaded && Paved(mmu.at) && r.n <= |fs| < HORIZON && Fresh(mmu, fs, f)
    requires AllBacked(pages, mmu.at, bits, fs) && Pmm.Grows(bits, mmu.pmm.Bits()) && SameOutside(r.p, pages, r.n, |fs|)
    requires mmu.pages == pages[FIRST_VPN + |fs| := PT.LeafEntry(f * PAGE, 3)] && mmu.SameElsewhere(m0)
    requires Ahead(true, r.p, mmu.at, r.n, |fs| + 1) && OutOfWindow(mmu.image, r.n, |fs| + 1)
    requires r.doomed ==>
      Doomed(mmu.image, mmu.at, r.p, r.n, r.m, r.h, r.top) && |fs| <= r.h && mmu.Calm() && mmu.InOrder()
    requires r.doomed ==> |bits| == Pmm.MAX_PAGES && FreeShown(pages, bits) && Packed(bits, mmu.pmm.hint)
    requires r.doomed ==> FIRST_FRAME + (|fs| + 1) <= mmu.pmm.hint && PT.Blank(m0, f) && Vmm.Ram(m0)
    requires mmu.at == r.at && !r.empty && !r.trespass && r.frames <= fs
    ensures Running(mmu, r, fs + [f], [f], |fs| + 1)
  {
    GoingOn(mmu, r.p, r.n, fs, f, pages, bits);
    if r.doomed {
      QuietOn(mmu, |fs|, PT.LeafEntry(f * PAGE, 3), pages, bits);
      if |fs| == r.h {
        StillBlank(mmu, m0, f);
        GoneStarts(mmu, r.p, r.n, r.m, r.h, r.top, fs + [f]);
      }
    }
  }

  lemma OpenUpTo(p: map<nat, nat>, at: map<PT.Name, nat>, image: set<nat>, n: nat, j: nat, m: nat)
    requires Ahead(true, p, at, n, m) && OutOfWindow(image, n, m) && j <= m
    ensures Ahead(true, p, at, n, j) && OutOfWindow(image, n, j)
  {
  }

  /** A page has been mapped somewhere else. */
  lemma StillGone(mmu: Vmm.Mmu, r: Run, fs: seq<nat>, ss: seq<nat>, j: nat)
    requires mmu.Sane() && mmu.root != 0 && mmu.loaded && mmu.astray
    requires mmu.FreeReached() && Paved(mmu.at) && mmu.at == r.at
    requires r.doomed && !r.open && !r.empty && !r.trespass && Doomed(mmu.image, mmu.at, r.p, r.n, r.m, r.h, r.top)
    requires r.h < j < r.m && SameOutside(r.p, mmu.pages, r.n, r.h + 1)
    requires |ss| > 0 && mmu.OffChains(ss, r.top, FIRST_VPN + j)
    requires PT.DirectPage(FIRST_FRAME + r.h) in mmu.pages
    requires mmu.pages[PT.DirectPage(FIRST_FRAME + r.h)] / 4096 == ss[0]
    requires forall k: PT.Name {:trigger PT.Reached(true, mmu.pages, mmu.at[k])} ::
      k in mmu.at && PT.Under(k, FIRST_VPN + j) && k.0 > r.top ==>
      PT.Reached(true, mmu.pages, mmu.at[k])
    ensures Running(mmu, r, fs, ss, j + 1)
  {
    mmu.RouteIsMapped(FIRST_FRAME + r.h);
    if j + 1 < r.m { GoneOn(mmu, r.p, r.n, r.m, r.h, r.top, ss, j); }
  }

  /** vmm_map_page of heap page j, whose tables exist. */
  method MapOne(mmu: Vmm.Mmu, addr: nat, f: nat, ghost j: nat, ghost calm: bool, ghost shadow: bool,
                ghost top: nat, ghost ss: seq<nat>)
    returns (out: Vmm.Outcome, ghost ss': seq<nat>)
    requires mmu !in mmu.pmm.Repr() && mmu.pmm.Valid() && !(calm && shadow)
    requires calm || shadow ==> mmu.loaded && j < HORIZON && addr == START + j * PAGE
    requires calm ==> mmu.Valid() && mmu.root != 0 && (0, PT.Prefix(FIRST_VPN + j, 0)) in mmu.at && f !in mmu.image
    requires shadow ==> mmu.Shadowed(FIRST_VPN + j, top, ss)
    modifies mmu.Repr()
    ensures mmu.pmm.Valid() && mmu.loaded == old(mmu.loaded) && mmu.root == old(mmu.root) && (old(mmu.astray) ==> mmu.astray)
    ensures calm && !mmu.astray ==> out != Vmm.Halted
    ensures calm && !mmu.astray && out == Vmm.Done ==>
      && mmu.Valid() && mmu.at == old(mmu.at) && mmu.pages == old(mmu.pages)[FIRST_VPN + j := PT.LeafEntry(f * PAGE, 3)]
      && mmu.pmm.Bits() == old(mmu.pmm.Bits()) && mmu.SameElsewhere(old(mmu.mem))
      && old(mmu.PathReached(FIRST_VPN + j)) && FIRST_FRAME + j !in mmu.image
    ensures calm && !mmu.astray && out == Vmm.Done && old(mmu.Calm() && mmu.InOrder()) ==>
      mmu.Calm() && mmu.InOrder() && mmu.pmm.hint == old(mmu.pmm.hint)
    ensures calm && old(mmu.PathReached(FIRST_VPN + j)) ==>
      !mmu.astray && out == if FIRST_FRAME + j in mmu.image then Vmm.Lost else Vmm.Done
    ensures shadow ==> mmu.Sane() && mmu.astray && mmu.at == old(mmu.at) && mmu.pages == old(mmu.pages)
    ensures shadow ==> (out == Vmm.Halted && mmu.pmm.Exhausted())
                       || (out == Vmm.Done && ss <= ss' && mmu.OffChains(ss', top, FIRST_VPN + j) && mmu.FreeReached())
  {
    if calm || shadow { HeapPageIsDirect(j); }
    if calm {
      NextSpares(mmu.image, j, f);
      NothingToPlace(mmu, FIRST_VPN + j);
    }
    out, ss' := mmu.MapAlong(addr, f * PAGE, 3, calm, false, shadow, top, ss);
  }

  /** Mapping one page of the run. */
  method MapFrame(mmu: Vmm.Mmu, addr: nat, f: nat, ghost r: Run, ghost fs: seq<nat>, ghost ss: seq<nat>, ghost j: nat)
    returns (out: Vmm.Outcome, ghost ss': seq<nat>)
    requires mmu !in mmu.pmm.Repr() && mmu.pmm.Valid()
    requires Outlook(mmu.image, r) && Running(mmu, r, fs, ss, j)
    requires (!mmu.astray || r.doomed) ==> j < HORIZON && addr == START + j * PAGE
    requires !mmu.astray ==> Fresh(mmu, fs, f) && (r.open ==> j < r.m) && !r.empty
    requires r.doomed ==> j < r.m && (j <= r.h ==> PT.Blank(mmu.mem, f) && Quiet(mmu, j + 1))
    modifies mmu.Repr()
    ensures mmu.pmm.Valid() && mmu.loaded == old(mmu.loaded) && (old(mmu.astray) ==> mmu.astray)
    ensures out == Vmm.Done ==> Running(mmu, r, fs + [f], ss', j + 1)
    ensures !mmu.astray ==> out != Vmm.Halted
    ensures !mmu.astray && out == Vmm.Done ==> mmu.pmm.Bits() == old(mmu.pmm.Bits())
    ensures r.open ==> out == Vmm.Done
    ensures r.trespass ==> out == Vmm.Lost
    ensures r.doomed ==>
      if j <= r.h then out == Vmm.Done else mmu.astray && (out == Vmm.Done || (out == Vmm.Halted && mmu.pmm.Exhausted()))
  {
    ghost var shadow := r.doomed && j > r.h;
    ghost var calm := !mmu.astray && !shadow;
    ghost var pages, bits, m0 := mmu.pages, mmu.pmm.Bits(), mmu.mem;
    if calm {
      NextReached(mmu, r.p, r.n, fs);
      if r.open { OpenUpTo(r.p, r.at, mmu.image, r.n, j + 1, r.m); }
    }
    if shadow { RouteThere(mmu, r, ss, j); }
    out, ss' := MapOne(mmu, addr, f, j, calm, shadow, r.top, ss);
    if calm && !mmu.astray && out == Vmm.Done {
      ss' := [f];
      RunningOn(mmu, r, fs, f, pages, bits, m0);
    }
    if shadow && out == Vmm.Done { StillGone(mmu, r, fs + [f], ss', j); }
  }

  /** One round of the loop. */
  method MapNext(mmu: Vmm.Mmu, from: nat, i: nat, ghost r: Run, ghost fs: seq<nat>, ghost ss: seq<nat>, ghost j: nat)
    returns (out: Vmm.Outcome, ok: bool, ghost fs': seq<nat>, ghost ss': seq<nat>)
    requires mmu !in mmu.pmm.Repr() && mmu.pmm.Valid()
    requires Outlook(mmu.image, r) && Running(mmu, r, fs, ss, j) && (r.doomed ==> j < r.m <= HORIZON)
    requires from == START + r.n * PAGE && j == r.n + i && (r.open && j < HORIZON ==> j < r.m)
    requires !mmu.astray ==> Spent(r.bits, mmu.pmm.Bits(), fs, r.n)
    modifies mmu.Repr()
    ensures mmu.pmm.Valid() && (old(mmu.astray) ==> mmu.astray)
    ensures out == Vmm.Done ==> Running(mmu, r, fs', ss', if ok then j + 1 else j)
    ensures out == Vmm.Done && !mmu.astray ==> Spent(r.bits, mmu.pmm.Bits(), fs', r.n)
    ensures out == Vmm.Done && !ok ==> mmu.pmm.Exhausted()
    ensures r.open || r.empty ==> out == Vmm.Done
    ensures r.trespass && out != Vmm.Done ==> out == Vmm.Lost
    ensures r.doomed && out != Vmm.Done ==> out == Vmm.Halted && mmu.pmm.Exhausted()
  {
    var f;
    ss', fs' := ss, fs;
    out, f := TakeFrame(mmu, r, fs, ss, j);
    if out == Vmm.Halted { return Vmm.Done, false, fs, ss; }
    if out != Vmm.Done { return out, false, fs, ss; }
    if !mmu.astray { RoomForOne(mmu.pages, mmu.at, mmu.pmm.Bits(), fs, f); }
    if j < HORIZON { StartPlus(r.n, i); }
    if !mmu.astray { SpentOneMore(r.bits, old(mmu.pmm.Bits()), fs, r.n, f); }
    out, ss' := MapFrame(mmu, PT.Nth(from, i), f, r, fs, ss, j);
    ok, fs' := out == Vmm.Done, fs + [f];
  }

  /** The loop of heap_extend: `ok` unless the page allocator ran out.  If it comes to its end
      without going astray, every page is mapped to a frame of its own, none of them was hidden from
      its tables, and none took the place of the kernel; and it does so whenever that is the case,
      without needing a table or taking any other frame.  A doomed run goes astray and leaves all pages behind h as they
      were. */
  method MapPages(mmu: Vmm.Mmu, from: nat, pages: nat, ghost frames: seq<nat>, ghost r: Run)
    returns (out: Vmm.Outcome, ok: bool, ghost fs: seq<nat>)
    requires mmu !in mmu.pmm.Repr() && mmu.pmm.Valid()
    requires Backed(mmu, frames) && from == START + |frames| * PAGE
    requires r.p == mmu.pages && r.at == mmu.at && r.bits == mmu.pmm.Bits()
    requires r.frames == frames && r.n == |frames| && r.m == Last(r.n, pages)
    requires Outlook(mmu.image, r) && (r.empty ==> mmu.pmm.Exhausted())
    requires r.doomed ==> Quiet(mmu, r.n) && r.n + pages <= HORIZON && !r.empty
    modifies mmu.Repr()
    ensures mmu.pmm.Valid()
    ensures !mmu.astray && out == Vmm.Done ==> Going(mmu, r.p, r.n, fs) && frames <= fs && |fs| <= |frames| + pages
    ensures !mmu.astray && out == Vmm.Done ==> if ok then |fs| == |frames| + pages else mmu.pmm.Exhausted()
    ensures !mmu.astray && out == Vmm.Done ==> Spent(old(mmu.pmm.Bits()), mmu.pmm.Bits(), fs, |frames|)
    ensures out == Vmm.Done && (!mmu.astray || r.doomed) ==> mmu.at == r.at
    ensures r.open || r.empty ==> !mmu.astray && out == Vmm.Done
    ensures (r.empty || r.trespass) && pages > 0 ==> !(out == Vmm.Done && ok)
    ensures r.trespass && pages > 0 ==> out == Vmm.Lost || (out == Vmm.Done && mmu.pmm.Exhausted())
    ensures r.doomed && !(out == Vmm.Done && ok) ==> (out == Vmm.Done || out == Vmm.Halted) && mmu.pmm.Exhausted()
    ensures r.doomed && out == Vmm.Done && ok ==> mmu.astray && mmu.Sane() && SameOutside(r.p, mmu.pages, r.n, r.h + 1)
  {
    RunStarts(mmu, frames, r, pages);
    ghost var ss, j;
    out, ok, fs, ss, j := MapEach(mmu, from, pages, r);
  }

  method MapEach(mmu: Vmm.Mmu, from: nat, pages: nat, ghost r: Run)
    returns (out: Vmm.Outcome, ok: bool, ghost fs: seq<nat>, ghost ss: seq<nat>, ghost j: nat)
    requires mmu !in mmu.pmm.Repr() && mmu.pmm.Valid()
    requires Outlook(mmu.image, r) && Running(mmu, r, r.frames, [], r.n) && from == START + r.n * PAGE
    requires r.m == Last(r.n, pages) && (r.doomed ==> r.n + pages <= HORIZON)
    requires !mmu.astray && Spent(r.bits, mmu.pmm.Bits(), r.frames, r.n)
    modifies mmu.Repr()
    ensures mmu.pmm.Valid() && r.n <= j <= r.n + pages && (ok ==> j == r.n + pages)
    ensures out == Vmm.Done ==> Running(mmu, r, fs, ss, j) && (ok || mmu.pmm.Exhausted())
    ensures out == Vmm.Done && !mmu.astray ==> Spent(r.bits, mmu.pmm.Bits(), fs, r.n)
    ensures r.open || r.empty ==> out == Vmm.Done
    ensures r.trespass && out != Vmm.Done ==> out == Vmm.Lost
    ensures r.doomed && out != Vmm.Done ==> out == Vmm.Halted && mmu.pmm.Exhausted()
  {
    fs, ok, out, ss, j := r.frames, true, Vmm.Done, [], r.n;
    for i := 0 to pages
      invariant mmu.pmm.Valid() && out == Vmm.Done && ok && j == r.n + i
      invariant Running(mmu, r, fs, ss, j)
      invariant !mmu.astray ==> Spent(r.bits, mmu.pmm.Bits(), fs, r.n)
    {
      out, ok, fs, ss := MapNext(mmu, from, i, r, fs, ss, j);
      if out != Vmm.Done || !ok { return out, false, fs, ss, j; }
      j := j + 1;
    }
  }

  lemma RunStarts(mmu: Vmm.Mmu, frames: seq<nat>, r: Run, pages: nat)
    requires Backed(mmu, frames)
    requires r.p == mmu.pages && r.at == mmu.at && r.frames == frames && r.n == |frames| && r.m == Last(r.n, pages)
    requires Outlook(mmu.image, r) && (r.doomed ==> Quiet(mmu, r.n)) && (r.empty ==> mmu.pmm.Exhausted())
    ensures Running(mmu, r, frames, [], |frames|)
  {
    BackedBound(mmu.pages, mmu.at, mmu.pmm.Bits(), frames);
  }

  ghost function Last(n: nat, pages: nat): nat {
    if n + pages <= HORIZON then n + pages else HORIZON
  }

  lemma StartPlus(n: nat, i: nat)
    requires n + i < HORIZON
    ensures PT.Nth(START + n * PAGE, i) == START + (n + i) * PAGE
  {
    HeapPageIsDirect(n + i);
  }

  lemma EndMoves(n: nat, pages: nat)
    requires n + pages <= HORIZON
    ensures (START + n * PAGE + pages * PAGE) % WORD == START + n * PAGE + pages * PAGE == START + (n + pages) * PAGE < WORD
  {
    HeapPageIsDirect(n + pages);
  }

  /** Once every table can be reached, heap_extend keeps it so exactly if no table lies in the
      window that the new pages show. */
  lemma ExtendHides(mmu: Vmm.Mmu, pages: map<nat, nat>, n: nat, fs: seq<nat>)
    requires Backed(mmu, fs) && n <= |fs| <= HORIZON && SameOutside(pages, mmu.pages, n, |fs|)
    requires PT.AllReached(true, pages, mmu.at.Values)
    ensures PT.AllReached(true, mmu.pages, mmu.at.Values) <==>
            OutOfWindow(mmu.at.Values, n, |fs|)
  {
    forall i | FIRST_VPN + n <= i < FIRST_VPN + |fs| ensures i in mmu.pages && mmu.pages[i] / PAGE !in mmu.at.Values {
      assert BackedPage(mmu.pages, mmu.at, mmu.pmm.Bits(), fs, i - FIRST_VPN);
    }
    WindowHides(pages, mmu.pages, n, |fs|, mmu.at.Values);
  }
}
