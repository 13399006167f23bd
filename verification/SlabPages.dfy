/** Slabs under a growing heap: lib/slab.c addresses its pages through the direct map, of which
    heap_extend in mm/heap/heap.c takes pages over. */
module SlabPages {
  import opened HeapPages
  import PT = PageTables
  import Slab
  import Vmm

  /** The frame that the direct map shows at an address. */
  function FrameAt(a: nat): nat
    requires a >= Slab.VBASE
  {
    (a - Slab.VBASE) / PAGE
  }

  ghost function Frames(slabs: Slab.Slabs): set<nat> {
    set a | a in slabs && a >= Slab.VBASE :: FrameAt(a)
  }

  /** The heap has grown from n pages to |fs| since the translations were p and the frames taken were
      those of `bits`. */
  ghost predicate Grown(mmu: Vmm.Mmu, p: map<nat, nat>, bits: seq<bool>, n: nat, fs: seq<nat>)
    reads mmu.Repr()
  {
    Going(mmu, p, n, fs) && Spent(bits, mmu.pmm.Bits(), fs, n)
  }

  /** Then a slab's page that showed the slab still does exactly if it is not one of those pages. */
  lemma SlabStays(s: Slab.State, bits: seq<bool>, size: nat, mmu: Vmm.Mmu, p: map<nat, nat>, n: nat, fs: seq<nat>, a: nat)
    requires size > 0 && Slab.Content(s, bits, size) && Grown(mmu, p, bits, n, fs) && a in s.slabs
    requires PT.AllReached(true, p, Frames(s.slabs))
    ensures a >= Slab.VBASE
    ensures PT.Reached(true, mmu.pages, FrameAt(a)) <==> !(START + n * PAGE <= a < START + |fs| * PAGE)
  {
    assert Slab.SlabOk(s.slabs, s.word, s.stack, bits, size, a);
    var f := FrameAt(a);
    assert f in Frames(s.slabs) && a == Slab.VBASE + f * PAGE;
    assert PT.Reached(true, p, f);
    forall i | FIRST_VPN + n <= i < FIRST_VPN + |fs| ensures i in mmu.pages && mmu.pages[i] / PAGE !in {f} {
      assert BackedPage(mmu.pages, mmu.at, mmu.pmm.Bits(), fs, i - FIRST_VPN);
    }
    WindowHides(p, mmu.pages, n, |fs|, {f});
    assert PT.AllReached(true, mmu.pages, {f}) <==> PT.Reached(true, mmu.pages, f);
  }

  /** And so with every live object: the heap has taken its place exactly if its address lies in the
      pages the heap has grown by. */
  lemma ObjectStays(s: Slab.State, bits: seq<bool>, size: nat, mmu: Vmm.Mmu, p: map<nat, nat>, n: nat,
                    fs: seq<nat>, o: nat)
    requires Slab.SizeOk(size) && Slab.Content(s, bits, size) && Grown(mmu, p, bits, n, fs) && o in s.live
    requires PT.AllReached(true, p, Frames(s.slabs))
    ensures o >= Slab.VBASE
    ensures PT.Reached(true, mmu.pages, FrameAt(o)) <==> !(START + n * PAGE <= o < START + |fs| * PAGE)
  {
    assert Slab.ObjectOk(s.slabs, s.stack, size, s.live, o);
    var (a, k) := s.live[o];
    assert Slab.SlabOk(s.slabs, s.word, s.stack, bits, size, a);
    Slab.SlotInPage(a, size, k);
    SlabStays(s, bits, size, mmu, p, n, fs, a);
    SamePage(a, o - a, n);
    SamePage(a, o - a, |fs|);
  }

  /** An address in a page lies on the same side of the heap's pages as the page does. */
  lemma SamePage(a: nat, d: nat, n: nat)
    requires Slab.PageStart(a) && d < PAGE
    ensures FrameAt(a + d) == FrameAt(a) && (a + d < START + n * PAGE <==> a < START + n * PAGE)
  {
    var f := FrameAt(a);
    assert a == Slab.VBASE + f * PAGE;
    assert START + n * PAGE == Slab.VBASE + (FIRST_FRAME + n) * PAGE;
    if f < FIRST_FRAME + n { assert (f + 1) * PAGE <= (FIRST_FRAME + n) * PAGE; }
  }
}
