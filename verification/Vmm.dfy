/** The virtual memory manager of mm/vmm/vmm.c and mm/vmm/vmm_map.c.

    The kernel edits its page tables through the direct map: it adds KERNEL_VBASE to a table's
    physical address and lets the processor translate the sum, with these same tables once they
    are loaded.  Every read and write below goes through that translation and is carried out on
    whatever frame it leads to.  The field `astray` records whether that has ever been another
    frame than the one meant.  The contracts say what a call does that does not go astray, and
    exactly when it does not.

    The kernel's own code and data lie in the direct map too.  A call that takes one of their
    frames out of it, or writes to one by mistake, is lost: what runs from then on is not this
    code. */
module Vmm {
  import Pmm
  import opened Common
  import opened PageTables

  /** How a call ends: it returns; it stops the machine for want of a frame; it touches an address
      that nothing backs; or the kernel's image is no longer in its place. */
  datatype Outcome = Done | Halted | Faulted | Lost

  ghost predicate RamAt(mem: Memory, f: nat) {
    f in mem && |mem[f]| == 512
  }

  /** Every frame the bitmap covers can be read and written. */
  ghost predicate Ram(mem: Memory) {
    forall f: nat {:trigger RamAt(mem, f)} :: f < Pmm.MAX_PAGES ==> RamAt(mem, f)
  }

  lemma StoreKeepsRam(mem: Memory, f: nat, i: nat, e: nat)
    requires Ram(mem) && f in mem && i < |mem[f]|
    ensures Ram(Store(mem, f, i, e))
  {
    forall g: nat | g < Pmm.MAX_PAGES ensures RamAt(Store(mem, f, i, e), g) { assert RamAt(mem, g); }
  }

  lemma HangKeepsRam(mem: Memory, at: map<Name, nat>, k: Name, i: nat, f: nat)
    requires Ram(mem) && k in at && at[k] in mem && i < |mem[at[k]]|
    ensures Ram(Hang(mem, at, k, i, f))
  {
    forall g: nat | g < Pmm.MAX_PAGES ensures RamAt(Hang(mem, at, k, i, f), g) { assert RamAt(mem, g); }
  }

  ghost predicate Free(bits: seq<bool>, p: nat) {
    p < |bits| && !bits[p]
  }

  /** Every frame from the hint up to the limit is free. */
  ghost predicate FreeFrom(bits: seq<bool>, hint: nat) {
    forall p: nat {:trigger Free(bits, p)} :: hint <= p < Pmm.TOTAL_PAGES ==> Free(bits, p)
  }

  /** Then the next one handed out is the hint. */
  lemma FirstInOrder(bits: seq<bool>, hint: nat, f: nat)
    requires Pmm.FirstFree(bits, hint, f) && f < Pmm.TOTAL_PAGES <= |bits|
    ensures FreeFrom(bits, hint) ==> f == hint && FreeFrom(bits[f := true], f + 1)
  {
    if FreeFrom(bits, hint) {
      assert Free(bits, hint);
      var bits' := bits[f := true];
      forall p: nat | f < p < Pmm.TOTAL_PAGES ensures Free(bits', p) { assert Free(bits, p); }
    }
  }

  /** Tables were only added, in frames that were free, and the frames that are or may become
      tables are the same.  If free frames held no present entries and nothing stale was cached,
      both still hold. */
  ghost predicate Grown(at: map<Name, nat>, bits: seq<bool>, zone: set<nat>, calm: bool,
                        at': map<Name, nat>, bits': seq<bool>, zone': set<nat>, calm': bool) {
    && (forall n :: n in at ==> n in at' && at'[n] == at[n])
    && (forall n :: n in at' && n !in at ==> at'[n] < Pmm.TOTAL_PAGES && at'[n] < |bits| && !bits[at'[n]])
    && Pmm.Grows(bits, bits') && zone == zone' && (calm ==> calm')
  }

  lemma GrownTwice(at: map<Name, nat>, bits: seq<bool>, zone: set<nat>, calm: bool,
                   at': map<Name, nat>, bits': seq<bool>, zone': set<nat>, calm': bool,
                   at'': map<Name, nat>, bits'': seq<bool>, zone'': set<nat>, calm'': bool)
    requires Grown(at, bits, zone, calm, at', bits', zone', calm')
    requires Grown(at', bits', zone', calm', at'', bits'', zone'', calm'')
    ensures Grown(at, bits, zone, calm, at'', bits'', zone'', calm'')
  {
  }

  /** A memory with the same words in all table frames holds the same tables. */
  lemma SameTables(root: nat, mem: Memory, mem': Memory, at: map<Name, nat>, role: map<nat, Name>, pages: map<nat, nat>)
    requires Tables(root, mem, at, role) && Implements(mem, at, pages)
    requires forall f :: f in role ==> f in mem && f in mem' && mem'[f] == mem[f]
    ensures Tables(root, mem', at, role) && Implements(mem', at, pages)
  {
    forall k | k in at ensures TableOk(mem', at, role, k) {
      assert TableOk(mem, at, role, k);
      if k.0 > 0 {
        forall i: nat | i < 512 ensures EntryOk(mem', at, k, i) { assert EntryOk(mem, at, k, i); }
      }
    }
    forall v: nat ensures PageOk(mem', at, pages, v) {
      assert PageOk(mem, at, pages, v);
      if (0, v / 512) in at { assert TableOk(mem, at, role, (0, v / 512)); }
    }
  }

  ghost function ZoneOf(role: map<nat, Name>, image: set<nat>, bits: seq<bool>): set<nat> {
    set f: nat | f < Pmm.MAX_PAGES && (f in role || f in image || (f < Pmm.TOTAL_PAGES && f < |bits| && !bits[f]))
  }

  /** The tables, frames and translations a descent begins with; whether frames are handed out in
      order, and where that would put the tables by level; and whether the call is ready, or bound to
      fault. */
  datatype Start = Start(mem: Memory, at: map<Name, nat>, bits: seq<bool>, zone: set<nat>, calm: bool,
                         pages: map<nat, nat>, order: bool, plan: seq<Layout>, ready: bool, dark: bool)

  ghost predicate PlannedAt(w: Start, v: nat, l: nat) {
    0 < l < |w.plan| ==> w.plan[l - 1] == Place(w.plan[l], (l - 1, Prefix(v, l - 1)))
  }

  ghost predicate Planned(w: Start, v: nat) {
    |w.plan| == 4 && forall l: nat {:trigger PlannedAt(w, v, l)} :: PlannedAt(w, v, l)
  }

  ghost function Plan(y: Layout, v: nat): seq<Layout> {
    [PlaceDown(y, v, 0), PlaceDown(y, v, 1), PlaceDown(y, v, 2), y]
  }

  class Mmu {
    const pmm: Pmm.Allocator
    const image: set<nat>    // the frames of the kernel's code and data
    var root: nat            // frame of the PML4; 0 while g_vmm_kernel_pml4 is NULL
    var loaded: bool         // CR3 holds root, not the boot tables
    var mem: Memory          // physical memory, frame by frame
    var astray: bool         // some access has gone to another frame than the one meant
    ghost var at: map<Name, nat>
    ghost var role: map<nat, Name>
    ghost var pages: map<nat, nat>
    ghost var tlb: map<nat, nat>

    ghost function Repr(): set<object> {
      {this} + pmm.Repr()
    }

    /** Table frames are pairwise distinct, marked used, and implement `pages`. */
    ghost predicate Walkable()
      reads `root, `loaded, `mem, `at, `role, `pages, pmm.Repr()
    {
      && this !in pmm.Repr() && pmm.Valid() && Ram(mem)
      && (root == 0 ==> !loaded && at == map[] && role == map[] && pages == map[])
      && (root != 0 ==> Tables(root, mem, at, role))
      && Implements(mem, at, pages)
      && (forall k :: k in at ==> at[k] < |pmm.Bits()| && pmm.Bits()[at[k]])
      && (forall f :: f in image ==> f < |pmm.Bits()| && pmm.Bits()[f] && f !in role)
    }

    /** Every cached translation of a mapped page is the current one, except perhaps that of one
        page. */
    ghost predicate CacheRight(but: int)
      reads `loaded, `tlb, `pages
    {
      && (!loaded ==> tlb == map[])
      && (forall v :: v in tlb && v in pages && v != but ==> tlb[v] == pages[v])
    }

    /** Nothing but mapped pages is cached, except perhaps one page. */
    ghost predicate CacheTight(but: int)
      reads `tlb, `pages
    {
      forall v :: v in tlb && v != but ==> v in pages
    }

    /** The tables are in order and the kernel's image is in its place. */
    ghost predicate Sane()
      reads `root, `loaded, `mem, `at, `role, `pages, `tlb, pmm.Repr()
    {
      Walkable() && CacheRight(-1) && AllReached(loaded, pages, image)
    }

    ghost predicate Valid()
      reads Repr()
    {
      Sane() && !astray
    }

    /** No cached translation is stale. */
    ghost predicate Coherent()
      reads `loaded, `tlb, `pages
    {
      CacheRight(-1) && CacheTight(-1)
    }

    /** No frame that the page allocator can hand out holds a present entry. */
    ghost predicate FreeBlank()
      reads `mem, pmm.Repr()
    {
      forall f {:trigger Blank(mem, f)} ::
        0 <= f < Pmm.TOTAL_PAGES && f < |pmm.Bits()| && !pmm.Bits()[f] ==> Blank(mem, f)
    }

    ghost predicate FreeReached()
      reads `loaded, `pages, pmm.Repr()
    {
      forall f {:trigger Reached(loaded, pages, f)} ::
        0 <= f < Pmm.TOTAL_PAGES && f < |pmm.Bits()| && !pmm.Bits()[f] ==> Reached(loaded, pages, f)
    }

    /** The tables on the way to page v are where the direct map shows them. */
    ghost predicate PathReached(v: nat)
      reads `loaded, `pages, `at
    {
      forall k {:trigger Reached(loaded, pages, at[k])} :: k in at && Under(k, v) ==> Reached(loaded, pages, at[k])
    }

    /** What a call that maps page v relies on: the tables it walks can be reached, and if it may
        have to make one, so can the frames it may be given. */
    ghost predicate Ready(v: nat)
      reads Repr()
    {
      Valid() && (root == 0 || (PathReached(v) && ((0, Prefix(v, 0)) in at || FreeReached())))
    }

    /** The frames that are tables or may become tables, and those of the kernel's image. */
    ghost function Zone(): set<nat>
      reads `role, pmm.Repr()
    {
      ZoneOf(role, image, pmm.Bits())
    }

    /** Everything in the zone can be reached, so a call on any page is ready. */
    ghost predicate ZoneReached()
      reads `loaded, `pages, `role, pmm.Repr()
    {
      AllReached(loaded, pages, Zone())
    }

    lemma ZoneReady(v: nat)
      requires Valid() && ZoneReached()
      ensures Ready(v) && PathReached(v)
    {
      forall k | k in at ensures Reached(loaded, pages, at[k]) {
        assert TableOk(mem, at, role, k);
        assert at[k] in Zone();
      }
      forall f | 0 <= f < Pmm.TOTAL_PAGES && f < |pmm.Bits()| && !pmm.Bits()[f] ensures Reached(loaded, pages, f) {
        assert f in Zone();
      }
    }

    constructor (pmm: Pmm.Allocator, mem: Memory, image: set<nat>)
      requires pmm.Valid() && Ram(mem)
      requires forall f :: f in image ==> f < DIRECT_PAGES && f < |pmm.Bits()| && pmm.Bits()[f]
      ensures Valid() && this.pmm == pmm && this.mem == mem
      ensures this.image == image && root == 0 && !loaded && pages == map[]
    {
      this.pmm, this.mem, this.image := pmm, mem, image;
      root, loaded, astray, at, role, pages, tlb := 0, false, false, map[], map[], map[], map[];
    }

    // ----- The hardware -----

    /** The processor may at any time cache what it finds in the loaded tables. */
    ghost method HardwareFill()
      modifies `tlb
      ensures !loaded ==> tlb == old(tlb)
      ensures forall v :: v in tlb ==> (v in old(tlb) && tlb[v] == old(tlb)[v])
                                       || (v < PAGES && Walk(mem, root, v) != 0 && tlb[v] == Walk(mem, root, v))
      ensures forall but: int {:trigger CacheRight(but)} ::
        (loaded ==> Translates(mem, root, pages)) && old(CacheRight(but)) ==> CacheRight(but)
      ensures forall but: int {:trigger CacheTight(but)} ::
        (loaded ==> Sealed(mem, root, pages)) && old(CacheTight(but)) ==> CacheTight(but)
    {
      if loaded {
        var s: set<nat> :| true;
        tlb := tlb + map v | v in s && v < PAGES && Walk(mem, root, v) != 0 :: Walk(mem, root, v);
        assert forall v :: v in s ==> (Translates(mem, root, pages) ==> Translated(mem, root, pages, v))
                                      && (Sealed(mem, root, pages) ==> Unexposed(mem, root, pages, v));
      }
    }

    /** invlpg. */
    ghost method Invalidate(virt: nat)
      modifies `tlb
      ensures tlb == old(tlb) - {Vpn(virt)}
    {
      tlb := tlb - {Vpn(virt)};
    }

    /** The frame that the direct-map page of frame f leads to, if any. */
    function Route(f: nat): Option<nat>
      reads `root, `loaded, `mem
    {
      if !loaded then if f < DIRECT_PAGES then Some(f) else None
      else var e := Walk(mem, root, DirectPage(f)); if Present(e) then Some(e / 4096) else None
    }

    /** The kernel's code and data are where the kernel addresses them. */
    predicate InPlace()
      reads `root, `loaded, `mem
    {
      forall f :: f in image ==> Route(f) == Some(f)
    }

    /** Memory backs word i of what the direct map shows for frame f. */
    predicate Shown(f: nat, i: nat)
      reads `root, `loaded, `mem
    {
      Route(f).Some? && Route(f).value in mem && i < |mem[Route(f).value]|
    }

    /** The direct map leads to frame f itself exactly if `pages` maps its page there. */
    lemma RouteIsMapped(f: nat)
      requires Walkable()
      ensures Route(f) == Some(f) <==> Reached(loaded, pages, f)
      ensures loaded ==> Route(f) == if DirectPage(f) in pages then Some(pages[DirectPage(f)] / 4096) else None
    {
      var v := DirectPage(f);
      assert PageOk(mem, at, pages, v);
      if loaded {
        TablesTranslate(root, mem, at, role, pages);
        assert Translated(mem, root, pages, v) && Unexposed(mem, root, pages, v);
      }
    }

    lemma ImageIsMapped()
      requires Walkable()
      ensures InPlace() <==> AllReached(loaded, pages, image)
    {
      forall f | f in image ensures Route(f) == Some(f) <==> Reached(loaded, pages, f) { RouteIsMapped(f); }
      if AllReached(loaded, pages, image) {
        forall f | f in image ensures Route(f) == Some(f) { assert Reached(loaded, pages, f); }
      }
    }

    /** The processor finds every mapped page, the kernel's image among them. */
    ghost predicate Steady()
      reads `root, `loaded, `mem, `pages
    {
      && (loaded ==> Translates(mem, root, pages)) && (forall v :: v in pages ==> Present(pages[v]))
      && AllReached(loaded, pages, image)
    }

    lemma RouteReached(f: nat)
      requires Steady() && Reached(loaded, pages, f)
      ensures Route(f) == Some(f)
    {
      assert loaded ==> Translated(mem, root, pages, DirectPage(f));
    }

    lemma SteadyInPlace()
      requires Steady()
      ensures InPlace()
    {
      forall f | f in image ensures Route(f) == Some(f) { assert Reached(loaded, pages, f); RouteReached(f); }
    }

    /** What the manager knows while it is walkable. */
    lemma Settled()
      requires Walkable() && root != 0
      ensures Translates(mem, root, pages) && Sealed(mem, root, pages)
      ensures forall v :: v in pages ==> Present(pages[v])
    {
      TablesTranslate(root, mem, at, role, pages);
      forall v | v in pages ensures Present(pages[v]) { assert PageOk(mem, at, pages, v); }
    }

    /** Reading word i of the table in frame f, by way of the direct map. */
    method Load(f: nat, i: nat) returns (out: Outcome, e: nat)
      modifies `astray
      ensures out == if !InPlace() then Lost else if Shown(f, i) then Done else Faulted
      ensures out == Done ==> e == mem[Route(f).value][i]
      ensures astray == (old(astray) || (InPlace() && Shown(f, i) && Route(f) != Some(f)))
    {
      if !InPlace() { return Lost, 0; }
      if !Shown(f, i) { return Faulted, 0; }
      if Route(f) != Some(f) { astray := true; }
      return Done, mem[Route(f).value][i];
    }

    /** Writing it.  A write that lands in the kernel's image is the end of the kernel. */
    method Write(f: nat, i: nat, e: nat) returns (out: Outcome)
      modifies `mem, `astray
      ensures out == if !old(InPlace()) then Lost else if !old(Shown(f, i)) then Faulted
                     else if old(Route(f)).value in image then Lost else Done
      ensures mem == if out == Done then Store(old(mem), old(Route(f)).value, i, e) else old(mem)
      ensures astray == (old(astray) || old(InPlace() && Shown(f, i) && Route(f) != Some(f)))
    {
      if !InPlace() { return Lost; }
      if !Shown(f, i) { return Faulted; }
      var g := Route(f).value;
      if g != f { astray := true; }
      if g in image { return Lost; }
      var table: seq<nat> := mem[g][i := e];
      mem := mem[g := table];
      return Done;
    }

    // ----- vmm_get_pte, vmm_is_mapped, vmm_get_phys -----

    /** One step of the walk, through the table on the way to page v at level l. */
    lemma StepDown(v: nat, l: nat)
      requires Walkable() && root != 0 && 0 < l <= 3 && (l, Prefix(v, l)) in at
      ensures var f := at[(l, Prefix(v, l))];
              && f in mem && |mem[f]| == 512
              && (Present(mem[f][Digit(v, l)]) <==> (l - 1, Prefix(v, l - 1)) in at)
              && (Present(mem[f][Digit(v, l)]) ==> mem[f][Digit(v, l)] / 4096 == at[(l - 1, Prefix(v, l - 1))])
    {
      assert TableOk(mem, at, role, (l, Prefix(v, l)));
      assert EntryOk(mem, at, (l, Prefix(v, l)), Digit(v, l));
      PrefixSplit(v, l);
    }

    lemma PathClosed(v: nat)
      requires Walkable() && root != 0 && v < PAGES
      ensures (3, Prefix(v, 3)) in at && at[(3, Prefix(v, 3))] == root
      ensures (0, Prefix(v, 0)) in at ==> (1, Prefix(v, 1)) in at
      ensures (1, Prefix(v, 1)) in at ==> (2, Prefix(v, 2)) in at
    {
      PrefixEnds(v);
      if (0, Prefix(v, 0)) in at { Ancestor(root, mem, at, role, v, 0, 1); }
      if (1, Prefix(v, 1)) in at { Ancestor(root, mem, at, role, v, 1, 2); }
    }

    /** In a sane state an access to frame f is carried out on f, and so not astray, exactly if f
        can be reached. */
    lemma Hits(f: nat)
      requires Sane() && f < Pmm.MAX_PAGES
      ensures InPlace() && (Route(f) == Some(f) <==> Reached(loaded, pages, f))
      ensures RamAt(mem, f) && forall i: nat :: i < 512 && Reached(loaded, pages, f) ==> Shown(f, i)
    {
      ImageIsMapped();
      RouteIsMapped(f);
      assert RamAt(mem, f);
    }

    /** One indexing step of vmm_get_pte: the child of the level-l table on the way to page v. */
    method Child(frame: nat, virt: nat, l: nat, ghost good: bool) returns (out: Outcome, r: Option<nat>)
      requires 0 < l <= 3
      requires good ==> Valid() && root != 0
      requires good ==> (l, Prefix(Vpn(virt), l)) in at && frame == at[(l, Prefix(Vpn(virt), l))]
      modifies `astray
      ensures (old(astray) ==> astray) && out != Halted && (old(Sane()) ==> out != Lost)
      ensures good && out == Done && !astray ==> var c := (l - 1, Prefix(Vpn(virt), l - 1));
        r == (if c in at then Some(at[c]) else None) && Reached(loaded, pages, frame)
      ensures good && Reached(loaded, pages, frame) ==> out == Done && !astray
    {
      IndexAt(virt, l);
      if Sane() { ImageIsMapped(); }
      if good { StepDown(Vpn(virt), l); Hits(frame); }
      var e;
      out, e := Load(frame, Index(virt, l));
      r := if out == Done && Present(e) then Some(e / 4096) else None;
    }

    /** The walk that does not go astray ends at the page's slot in the page table named by the page
        number, and fails exactly when that table does not exist.  It does not go astray, nor
        fault, if the path can be reached. */
    method GetPte(virt: nat) returns (out: Outcome, r: Option<Pte>)
      modifies `astray
      ensures (old(astray) ==> astray) && out != Halted && (old(Sane()) ==> out != Lost)
      ensures old(Valid()) && out == Done && !astray ==> var k := (0, Prefix(Vpn(virt), 0));
        r == if k in at then Some(Pte(at[k], Vpn(virt) % 512)) else None
      ensures old(Valid() && PathReached(Vpn(virt))) ==> out == Done && !astray
    {
      if root == 0 { return Done, None; }
      ghost var good, v := Valid(), Vpn(virt);
      if good { PathClosed(v); OnPath(v); }
      var pdpt, pd, pt;
      out, pdpt := Child(root, virt, 3, good);
      if out != Done || pdpt.None? { return out, None; }
      out, pd := Child(pdpt.value, virt, 2, good && !astray);
      if out != Done || pd.None? { return out, None; }
      out, pt := Child(pd.value, virt, 1, good && !astray);
      if out != Done || pt.None? { return out, None; }
      IndexAt(virt, 0);
      return Done, Some(Pte(pt.value, Index(virt, 0)));
    }

    lemma OnPath(v: nat)
      ensures Under((3, Prefix(v, 3)), v) && Under((2, Prefix(v, 2)), v)
      ensures Under((1, Prefix(v, 1)), v) && Under((0, Prefix(v, 0)), v)
    {
    }

    /** The page's leaf entry, or 0 where there is no page table for it. */
    method ReadLeaf(virt: nat) returns (out: Outcome, e: nat, pte: Option<Pte>)
      modifies `astray
      ensures (old(astray) ==> astray) && out != Halted && (old(Sane()) ==> out != Lost)
      ensures old(Valid()) && out == Done && !astray ==> e == Leaf(mem, at, Vpn(virt))
      ensures out == Done && Present(e) ==> pte.Some?
      ensures old(Valid()) && out == Done && !astray && pte.Some? ==> var k := (0, Prefix(Vpn(virt), 0));
        k in at && pte.value == Pte(at[k], Vpn(virt) % 512) && Reached(loaded, pages, at[k])
      ensures old(Valid() && PathReached(Vpn(virt))) ==> out == Done && !astray
    {
      e := 0;
      out, pte := GetPte(virt);
      if out != Done || pte.None? { return; }
      ghost var good, k := Valid(), (0, Prefix(Vpn(virt), 0));
      if Sane() { ImageIsMapped(); }
      if good { assert TableOk(mem, at, role, k); OnPath(Vpn(virt)); Hits(at[k]); }
      out, e := Load(pte.value.frame, pte.value.index);
    }

    method IsMapped(virt: nat) returns (out: Outcome, b: bool)
      modifies `astray
      ensures old(Valid()) && out == Done && !astray ==> (b <==> Vpn(virt) in pages)
      ensures old(Valid() && PathReached(Vpn(virt))) ==> out == Done && !astray
    {
      var e, pte;
      out, e, pte := ReadLeaf(virt);
      assert old(Valid()) ==> PageOk(mem, at, pages, Vpn(virt));
      b := Present(e);
    }

    /** The physical address: the mapped frame with the page offset; 0 when unmapped. */
    method GetPhys(virt: nat) returns (out: Outcome, phys: nat)
      modifies `astray
      ensures (old(astray) ==> astray) && out != Halted && (old(Sane()) ==> out != Lost)
      ensures old(Valid()) && out == Done && !astray ==>
        phys == if Vpn(virt) in pages then pages[Vpn(virt)] / 4096 * 4096 + virt % 4096 else 0
      ensures old(Valid() && PathReached(Vpn(virt))) ==> out == Done && !astray
    {
      var e, pte;
      out, e, pte := ReadLeaf(virt);
      assert old(Valid()) ==> PageOk(mem, at, pages, Vpn(virt));
      phys := if Present(e) then e / 4096 * 4096 + virt % 4096 else 0;
    }

    // ----- vmm_get_or_create_table -----

    ghost predicate Calm()
      reads `loaded, `tlb, `pages, `mem, pmm.Repr()
    {
      Coherent() && FreeBlank()
    }

    twostate predicate Grew()
      reads Repr()
    {
      && root == old(root) && loaded == old(loaded)
      && Grown(old(at), old(pmm.Bits()), old(Zone()), old(Calm()), at, pmm.Bits(), Zone(), Calm())
    }

    /** Every frame from the hint on is free, so the next table goes there. */
    ghost predicate InOrder()
      reads pmm.Repr()
    {
      FreeFrom(pmm.Bits(), pmm.hint)
    }

    ghost function Now(): Layout
      reads `at, pmm.Repr()
    {
      Layout(at, pmm.hint)
    }

    ghost predicate Placed(y: Layout)
      reads `at, pmm.Repr()
    {
      InOrder() && Now() == y
    }

    /** A frame in use that is neither a table nor part of the kernel's image. */
    ghost predicate Offside(f: nat)
      reads `role, pmm.Repr()
    {
      f !in role && f !in image && f < Pmm.MAX_PAGES && f < |pmm.Bits()| && pmm.Bits()[f]
    }

    /** Accesses to `frame` are carried out on frame s, which is offside. */
    ghost predicate OffAt(frame: nat, s: nat)
      reads `root, `loaded, `mem, `at, `role, `pages, `tlb, pmm.Repr()
    {
      Sane() && root != 0 && Route(frame) == Some(s) && Offside(s)
    }

    /** Writing offside changes no table. */
    lemma OffsideKeeps(m0: Memory, s: nat)
      requires root != 0 && s !in role && Ram(m0) && Ram(mem)
      requires Tables(root, m0, at, role) && Implements(m0, at, pages)
      requires forall f :: f in m0 && f != s ==> f in mem && mem[f] == m0[f]
      ensures Tables(root, mem, at, role) && Implements(mem, at, pages)
    {
      forall f | f in role ensures f in m0 && f in mem && mem[f] == m0[f] {
        assert TableOk(m0, at, role, role[f]);
      }
      SameTables(root, m0, mem, at, role, pages);
    }

    lemma EntryMeans(k: Name, i: nat)
      requires Sane() && root != 0 && k in at && k.0 > 0 && i < 512
      ensures InPlace() && (Route(at[k]) == Some(at[k]) <==> Reached(loaded, pages, at[k]))
      ensures at[k] in mem && |mem[at[k]]| == 512 && (Reached(loaded, pages, at[k]) ==> Shown(at[k], i))
      ensures var c := (k.0 - 1, k.1 * 512 + i);
              (Present(mem[at[k]][i]) <==> c in at) && (c in at ==> mem[at[k]][i] / 4096 == at[c])
    {
      Hits(at[k]);
      assert TableOk(mem, at, role, k) && EntryOk(mem, at, k, i);
    }

    /** Reading entry i of table k.  In a sane state it gives what the entry means if it does not
        go astray, and it does not, nor fault, if the table can be reached. */
    method ReadEntry(frame: nat, index: nat, ghost k: Name) returns (out: Outcome, e: nat)
      requires index < 512
      modifies `astray
      ensures (old(astray) ==> astray) && out != Halted
      ensures Sane() && root != 0 ==> out != Lost
      ensures Sane() && Names(k, frame) && out == Done && (!astray || Reached(loaded, pages, frame)) ==>
        Means(e, (k.0 - 1, k.1 * 512 + index))
      ensures Sane() && Names(k, frame) && Reached(loaded, pages, frame) ==> out == Done && astray == old(astray)
      ensures Sane() && Names(k, frame) && out == Done && !astray ==> Reached(loaded, pages, frame)
      ensures Sane() && Route(frame) == None ==> out == Faulted && astray == old(astray)
      ensures forall s :: OffAt(frame, s) ==> out == Done && e == Entry(mem, s, index) && (s != frame ==> astray)
    {
      if Sane() {
        ImageIsMapped();
        if Names(k, frame) { EntryMeans(k, index); }
        forall s | OffAt(frame, s) ensures Shown(frame, index) { Hits(s); }
      }
      out, e := Load(frame, index);
    }

    /** Table k lies in `frame` and has tables below it. */
    ghost predicate Names(k: Name, frame: nat)
      reads `root, `at
    {
      root != 0 && k in at && at[k] == frame && k.0 > 0
    }

    /** Entry e is present exactly if table c exists, and then leads to it. */
    ghost predicate Means(e: nat, c: Name)
      reads `at
    {
      (Present(e) <==> c in at) && (c in at ==> e / 4096 == at[c])
    }

    /** The child table at an index, created empty if absent; c is its name.  While it does not go
        astray it only ever adds that table, in a free frame; it does not, nor fault, if the
        table and, for a new child, the free frames can be reached.  Carried out on an offside
        frame s, it reads and links there and leaves the tables alone. */
    method GetOrCreate(frame: nat, index: nat, ghost good: bool, ghost k: Name, ghost c: Name, ghost off: bool,
                       ghost s: nat)
      returns (out: Outcome, child: nat)
      requires this !in pmm.Repr() && pmm.Valid() && index < 512
      requires !(good && off) && k.0 > 0 && c == (k.0 - 1, k.1 * 512 + index)
      requires good ==> Valid() && Names(k, frame)
      requires off ==> OffAt(frame, s) && (Present(Entry(mem, s, index)) || FreeReached())
      modifies Repr()
      ensures pmm.Valid() && root == old(root) && loaded == old(loaded) && (old(astray) ==> astray)
      ensures good && !astray ==> out != Lost
      ensures good && !astray && out != Faulted ==> Valid() && Grew() && pages == old(pages)
      ensures good && !astray && out == Done ==> c in at && at[c] == child && Reached(loaded, pages, frame)
      ensures good && !astray && old(c in at) ==>
        out != Halted && (out == Done ==> at == old(at) && mem == old(mem) && pmm.Bits() == old(pmm.Bits()))
      ensures good && !astray && out == Done && old(InOrder()) ==> Placed(Place(old(Now()), c))
      ensures good && !astray && out == Halted ==> pmm.Exhausted() && at == old(at)
      ensures good && old(Reached(loaded, pages, frame) && (c in at || FreeReached())) ==> !astray && out != Faulted
      ensures old(Sane() && Route(frame) == None) ==> out == Faulted && astray == old(astray)
      ensures old(Through(k, frame, c)) ==> Passed(child, c) && out == Done
      ensures off ==> Sane() && at == old(at) && role == old(role) && pages == old(pages)
      ensures off ==> (out == Done || (out == Halted && pmm.Exhausted())) && (s != frame ==> astray)
      ensures off && old(Present(Entry(mem, s, index))) ==>
        out == Done && child == old(Entry(mem, s, index)) / 4096 && mem == old(mem) && pmm.Bits() == old(pmm.Bits())
      ensures off && !old(Present(Entry(mem, s, index))) && out == Done ==> HungOff(s, index, child)
    {
      var e;
      out, e := ReadEntry(frame, index, k);
      if out != Done { return out, 0; }
      if Present(e) { return Done, e / 4096; }
      out, child := Create(frame, index, good && !astray, k, c, off, s);
    }

    /** The child exists and its parent can be reached, */
    ghost predicate Through(k: Name, frame: nat, c: Name)
      reads `root, `loaded, `mem, `at, `role, `pages, `tlb, pmm.Repr()
    {
      Sane() && Names(k, frame) && Reached(loaded, pages, frame) && c in at
    }

    /** so the descent passes through and changes nothing. */
    twostate predicate Passed(child: nat, c: Name)
      reads Repr()
    {
      && Sane() && c in at && child == at[c] && mem == old(mem) && astray == old(astray) && at == old(at) && role == old(role)
      && pages == old(pages) && pmm.Bits() == old(pmm.Bits()) && pmm.hint == old(pmm.hint)
    }

    /** A free frame was taken, linked from entry i of frame s, and cleared. */
    twostate predicate HungOff(s: nat, index: nat, child: nat)
      reads Repr()
    {
      && child < Pmm.TOTAL_PAGES && child < |old(pmm.Bits())| && !old(pmm.Bits())[child]
      && pmm.Bits() == old(pmm.Bits())[child := true] && Offside(child) && s != child
      && s in old(mem) && index < |old(mem)[s]| && mem == HangAt(old(mem), s, index, child)
    }

    /** The part that runs when the child is absent. */
    method Create(frame: nat, index: nat, ghost good: bool, ghost k: Name, ghost c: Name, ghost off: bool, ghost s: nat)
      returns (out: Outcome, child: nat)
      requires this !in pmm.Repr() && pmm.Valid() && index < 512 && !(good && off)
      requires good ==> Valid() && Names(k, frame) && c == (k.0 - 1, k.1 * 512 + index)
      requires good ==> c !in at && Reached(loaded, pages, frame)
      requires off ==> OffAt(frame, s) && FreeReached()
      modifies Repr()
      ensures pmm.Valid() && root == old(root) && loaded == old(loaded) && (old(astray) ==> astray)
      ensures good && !astray ==> out != Lost
      ensures good && !astray && out != Faulted ==> Valid() && Grew() && pages == old(pages)
      ensures good && !astray && out == Done ==> at == old(at)[c := child]
      ensures good && !astray && out == Done && old(InOrder()) ==> Placed(Place(old(Now()), c))
      ensures good && !astray && out == Halted ==> pmm.Exhausted() && at == old(at)
      ensures good && old(FreeReached()) ==> !astray && out != Faulted
      ensures off ==> Sane() && at == old(at) && role == old(role) && pages == old(pages)
      ensures off ==> out == Done || (out == Halted && pmm.Exhausted())
      ensures off && out == Done ==> HungOff(s, index, child)
    {
      out, child := NewFrame();
      if out != Done { return; }
      out := NewTable(frame, index, child, good, k, c, off, s);
      if good && out == Done && !astray {
        GrewByOne(child);
        FirstInOrder(old(pmm.Bits()), old(pmm.hint), child);
      }
    }

    /** pmm_alloc_page: a free frame, which no table occupies. */
    method NewFrame() returns (out: Outcome, f: nat)
      requires this !in pmm.Repr() && pmm.Valid()
      modifies pmm.Repr()
      ensures pmm.Valid() && InPlace() == old(InPlace())
      ensures out == if !InPlace() then Lost else if old(pmm.Exhausted()) then Halted else Done
      ensures out != Done ==> pmm.Bits() == old(pmm.Bits()) && pmm.hint == old(pmm.hint)
      ensures out == Halted ==> pmm.Exhausted()
      ensures out == Done ==> f < Pmm.TOTAL_PAGES && Pmm.FirstFree(old(pmm.Bits()), old(pmm.hint), f)
      ensures out == Done ==> pmm.Bits() == old(pmm.Bits())[f := true] && pmm.hint == f + 1
      ensures old(Sane()) ==>
        Sane() && out != Lost && (out == Done ==> f !in role && f !in image && forall n :: n in at ==> at[n] != f)
    {
      if old(Sane()) { ImageIsMapped(); TablesTaken(); }
      if !InPlace() { return Lost, 0; }
      var page := pmm.AllocPage();
      return if page == 0 then Halted else Done, page / Pmm.PAGE_SIZE;
    }

    lemma TablesTaken()
      requires Walkable()
      ensures forall f :: f in role ==> f < |pmm.Bits()| && pmm.Bits()[f]
    {
      forall f | f in role ensures f < |pmm.Bits()| && pmm.Bits()[f] { assert role[f] in at && at[role[f]] == f; }
    }

    /** Taking a free frame for a table is growth. */
    twostate lemma GrewByOne(child: nat)
      requires old(Valid()) && Valid() && root == old(root) && loaded == old(loaded)
      requires child in role && role[child] !in old(at)
      requires at == old(at)[role[child] := child] && role == old(role)[child := role[child]]
      requires child < Pmm.TOTAL_PAGES && !old(pmm.Bits())[child] && pmm.Bits() == old(pmm.Bits())[child := true]
      requires forall f :: f in old(mem) && f !in role ==> f in mem && mem[f] == old(mem)[f]
      requires old(Coherent() && Blank(mem, child)) ==> Coherent()
      ensures Grew()
    {
      ZoneMoves(old(role), old(pmm.Bits()), child, role[child]);
      if old(Coherent() && FreeBlank()) { StillBlank(old(mem), old(pmm.Bits())); }
    }

    lemma ZoneMoves(role0: map<nat, Name>, bits: seq<bool>, child: nat, c: Name)
      requires role == role0[child := c] && child < |bits| && child < Pmm.TOTAL_PAGES && !bits[child]
      requires pmm.Bits() == bits[child := true]
      ensures Zone() == ZoneOf(role0, image, bits)
    {
    }

    /** Frames still free were free before, and only table frames were written. */
    lemma StillBlank(m0: Memory, bits: seq<bool>)
      requires Walkable() && Pmm.Grows(bits, pmm.Bits()) && |bits| == Pmm.MAX_PAGES && Ram(m0)
      requires forall f :: f in m0 && f !in role ==> f in mem && mem[f] == m0[f]
      requires forall f :: 0 <= f < Pmm.TOTAL_PAGES && !bits[f] ==> Blank(m0, f)
      ensures FreeBlank()
    {
      TablesTaken();
      forall f | 0 <= f < Pmm.TOTAL_PAGES && !pmm.Bits()[f] ensures Blank(mem, f) {
        assert RamAt(m0, f) && Blank(m0, f);
        forall i: nat | i < 512 ensures !Present(Entry(mem, f, i)) { assert !Present(Entry(m0, f, i)); }
      }
    }

    /** Linking a frame just allocated and then clearing it, with the processor free to read the
        tables after every write. */
    method NewTable(frame: nat, index: nat, child: nat, ghost good: bool, ghost k: Name, ghost c: Name,
                    ghost off: bool, ghost s: nat)
      returns (out: Outcome)
      requires index < 512 && !(good && off)
      requires good ==> Valid() && root != 0 && k in at && at[k] == frame && k.0 > 0 && Reached(loaded, pages, frame)
      requires good ==> c == (k.0 - 1, k.1 * 512 + index) && c !in at
      requires good || off ==> Offside(child) && forall n :: n in at ==> at[n] != child
      requires off ==> OffAt(frame, s) && s != child && Reached(loaded, pages, child)
      modifies `mem, `tlb, `at, `role, `astray
      ensures (old(astray) ==> astray) && out != Halted
      ensures good && !astray ==> out != Lost
      ensures good && !astray && out == Done ==> Valid() && at == old(at)[c := child] && role == old(role)[child := c]
      ensures good && !astray && out == Done ==>
        forall f :: f in old(mem) && f !in role ==> f in mem && mem[f] == old(mem)[f]
      ensures good && !astray && out == Done && old(Coherent() && Blank(mem, child)) ==> Coherent()
      ensures good && old(Reached(loaded, pages, child)) ==> out == Done && !astray
      ensures off ==> out == Done && Sane() && at == old(at) && role == old(role)
      ensures off ==> s in old(mem) && index < |old(mem)[s]| && mem == HangAt(old(mem), s, index, child)
    {
      ghost var m0 := mem;
      out := Link(frame, index, child, good, k, off, s);
      if out != Done { return; }
      ghost var m1 := mem;
      out := ClearTable(child, good || off, good && old(Coherent() && Blank(mem, child)));
      if out != Done { return; }
      if good && !astray { Adopt(m0, m1, index, child, k, c); }
      if off { OffCleared(m0, m1, s, index, child); }
    }

    method Link(frame: nat, index: nat, child: nat, ghost good: bool, ghost k: Name, ghost off: bool, ghost s: nat)
      returns (out: Outcome)
      requires index < 512 && !(good && off)
      requires good ==> Valid() && root != 0 && k in at && at[k] == frame && k.0 > 0 && Reached(loaded, pages, frame)
      requires good ==> (k.0 - 1, k.1 * 512 + index) !in at
      requires good || off ==> Offside(child) && forall n :: n in at ==> at[n] != child
      requires off ==> OffAt(frame, s) && s != child
      modifies `mem, `tlb, `astray
      ensures (old(astray) ==> astray) && out != Halted
      ensures good || off ==>
        out == Done && CacheRight(-1) && StaysSteady(child) && forall v :: v in pages ==> Present(pages[v])
      ensures good ==>
        !astray && Clearing(old(mem), index, child, k, 0) && mem == Store(old(mem), at[k], index, child * 4096 + 3)
      ensures good && old(Coherent() && Blank(mem, child)) ==> Coherent() && StaysSealed(child)
      ensures off ==> s in old(mem) && index < |old(mem)[s]| && mem == Store(old(mem), s, index, child * 4096 + 3)
    {
      ghost var m0 := mem;
      if good { EntryMeans(k, index); BeforeLinking(index, child, k); assert RamAt(mem, child); }
      if off { Hits(s); }
      out := Write(frame, index, child * 4096 + 3);   // present and writable
      if out != Done { return; }
      if good { WhileClearing(m0, index, child, k, 0); ClearingSteady(m0, index, child, k); }
      if off { OffStored(m0, s, index, child * 4096 + 3); OffSteady(child); }
      HardwareFill();
    }

    lemma BeforeLinking(index: nat, child: nat, k: Name)
      requires Sane() && root != 0 && k in at && k.0 > 0 && index < 512 && (k.0 - 1, k.1 * 512 + index) !in at
      requires forall n :: n in at ==> at[n] != child
      ensures Hangable(root, mem, at, role, k, index, child) && at[k] !in image
    {
      assert TableOk(mem, at, role, k) && EntryOk(mem, at, k, index);
    }

    /** One store offside. */
    lemma OffStored(m0: Memory, s: nat, i: nat, e: nat)
      requires root != 0 && s !in role && Ram(m0) && Tables(root, m0, at, role) && Implements(m0, at, pages)
      requires s in m0 && i < |m0[s]| && mem == Store(m0, s, i, e)
      ensures Ram(mem) && Tables(root, mem, at, role) && Implements(mem, at, pages)
      ensures Translates(mem, root, pages) && Sealed(mem, root, pages)
    {
      StoreKeepsRam(m0, s, i, e);
      OffsideKeeps(m0, s);
      TablesTranslate(root, mem, at, role, pages);
    }

    /** The memory with the child linked and its first n entries cleared. */
    ghost predicate Clearing(m0: Memory, index: nat, child: nat, k: Name, n: nat)
      reads this
    {
      && Hangable(root, m0, at, role, k, index, child) && Implements(m0, at, pages)
      && child in m0 && |m0[child]| == 512 && at[k] != child && n <= 512
      && mem == Cleared(Store(m0, at[k], index, child * 4096 + 3), child, n)
    }

    lemma WhileClearing(m0: Memory, index: nat, child: nat, k: Name, n: nat)
      requires Hangable(root, m0, at, role, k, index, child) && Implements(m0, at, pages)
      requires child in m0 && |m0[child]| == 512 && n <= 512
      requires mem == Store(m0, at[k], index, child * 4096 + 3)
      ensures Clearing(m0, index, child, k, 0) && child in mem && |mem[child]| == 512
      ensures Translates(Cleared(mem, child, n), root, pages)
      ensures forall v :: v in pages ==> Present(pages[v])
      ensures Blank(m0, child) ==> Sealed(Cleared(mem, child, n), root, pages)
      ensures Cleared(mem, child, 0) == mem
    {
      ClearedOneMore(mem, child, 0);
      LinkedByStore(root, m0, at, role, k, index, child);
      ClearedLinked(mem, m0, at, k, index, child, n);
      LinkedTranslates(root, Cleared(mem, child, n), m0, at, role, k, index, child, pages);
      LinkedSealed(root, Cleared(mem, child, n), m0, at, role, k, index, child, pages);
      forall v | v in pages ensures Present(pages[v]) { assert PageOk(m0, at, pages, v); }
      if Blank(m0, child) {
        forall j: nat | j < 512 ensures !Present(Entry(mem, child, j)) { assert !Present(Entry(m0, child, j)); }
      }
    }

    /** Clearing frame `child` word by word never hides a mapped page from the processor. */
    ghost predicate StaysSteady(child: nat)
      reads `root, `loaded, `mem, `pages
    {
      && child in mem && |mem[child]| == 512
      && (forall n: nat {:trigger Cleared(mem, child, n)} ::
          n <= 512 && loaded ==> Translates(Cleared(mem, child, n), root, pages))
    }

    /** Nor ever shows it an unmapped one. */
    ghost predicate StaysSealed(child: nat)
      reads `root, `loaded, `mem, `pages
    {
      && child in mem && |mem[child]| == 512
      && (forall n: nat {:trigger Cleared(mem, child, n)} ::
          n <= 512 && loaded ==> Sealed(Cleared(mem, child, n), root, pages))
    }

    lemma ClearingSteady(m0: Memory, index: nat, child: nat, k: Name)
      requires Clearing(m0, index, child, k, 0)
      ensures StaysSteady(child) && (Blank(m0, child) ==> StaysSealed(child))
      ensures mem == Store(m0, at[k], index, child * 4096 + 3)
      ensures forall v :: v in pages ==> Present(pages[v])
    {
      var m1 := Store(m0, at[k], index, child * 4096 + 3);
      ClearedOneMore(m1, child, 0);
      forall n: nat | n <= 512
        ensures Translates(Cleared(mem, child, n), root, pages) && (Blank(m0, child) ==> Sealed(Cleared(mem, child, n), root, pages)) {
        WhileClearing(m0, index, child, k, n);
      }
      WhileClearing(m0, index, child, k, 0);
    }

    lemma OffSteady(child: nat)
      requires Walkable() && root != 0 && Offside(child)
      ensures StaysSteady(child) && forall v :: v in pages ==> Present(pages[v])
    {
      Settled();
      assert RamAt(mem, child);
      forall n: nat | n <= 512 ensures Translates(Cleared(mem, child, n), root, pages) {
        var m := Cleared(mem, child, n);
        forall f | f in role ensures f in mem && f in m && m[f] == mem[f] { assert TableOk(mem, at, role, role[f]); }
        SameTables(root, mem, m, at, role, pages);
        TablesTranslate(root, m, at, role, pages);
      }
    }

    /** The clearing loop. */
    method ClearTable(child: nat, ghost steady: bool, ghost tight: bool) returns (out: Outcome)
      requires steady ==> StaysSteady(child) && CacheRight(-1) && AllReached(loaded, pages, image) && child !in image
      requires steady ==> forall v :: v in pages ==> Present(pages[v])
      requires tight ==> steady && StaysSealed(child) && CacheTight(-1)
      modifies `mem, `tlb, `astray
      ensures (old(astray) ==> astray) && out != Halted
      ensures steady && !astray ==> out != Lost
      ensures steady && out == Done && (!astray || Reached(loaded, pages, child)) ==>
        mem == Cleared(old(mem), child, 512) && CacheRight(-1) && (tight ==> CacheTight(-1))
      ensures steady && Reached(loaded, pages, child) ==> out == Done && astray == old(astray)
    {
      ghost var m1, hits := mem, Reached(loaded, pages, child);
      if steady { ClearedOneMore(m1, child, 0); }
      for i := 0 to 512
        invariant old(astray) ==> astray
        invariant steady && (!astray || hits) ==>
          mem == Cleared(m1, child, i) && CacheRight(-1) && (tight ==> CacheTight(-1))
        invariant steady && hits ==> astray == old(astray)
      {
        if steady && (!astray || hits) {
          ClearedOneMore(m1, child, i);
          assert Steady();
          SteadyInPlace();
          if hits { RouteReached(child); }
        }
        out := Write(child, i, 0);
        if out != Done { return; }
        HardwareFill();
      }
      out := Done;
    }

    /** The cleared frame is a table from now on. */
    ghost method Adopt(m0: Memory, m1: Memory, index: nat, child: nat, k: Name, c: Name)
      requires this !in pmm.Repr() && pmm.Valid() && root != 0 && !astray && AllReached(loaded, pages, image)
      requires Ram(m0) && Hangable(root, m0, at, role, k, index, child) && Implements(m0, at, pages)
      requires m1 == Store(m0, at[k], index, child * 4096 + 3) && child in m1 && |m1[child]| == 512
      requires mem == Cleared(m1, child, 512) && CacheRight(-1) && Offside(child)
      requires forall n :: n in at ==> at[n] < |pmm.Bits()| && pmm.Bits()[at[n]]
      requires forall f :: f in image ==> f < |pmm.Bits()| && pmm.Bits()[f] && f !in role
      requires c == (k.0 - 1, k.1 * 512 + index)
      modifies `at, `role
      ensures Valid() && at == old(at)[c := child] && role == old(role)[child := c]
      ensures forall f :: f in m0 && f !in role ==> f in mem && mem[f] == m0[f]
    {
      assert RamAt(m0, child);
      AfterClearing(m0, index, child, k);
      assert TableOk(m0, at, role, k);
      at, role := at[c := child], role[child := c];
    }

    lemma AfterClearing(m0: Memory, index: nat, child: nat, k: Name)
      requires Clearing(m0, index, child, k, 512) && Ram(m0)
      ensures var c := (k.0 - 1, k.1 * 512 + index);
              && c !in at && Tables(root, mem, at[c := child], role[child := c]) && Implements(mem, at[c := child], pages)
              && Ram(mem) && forall f :: f in m0 && f != at[k] && f != child ==> f in mem && mem[f] == m0[f]
    {
      ClearedIsHung(m0, at[k], index, child);
      HangKeepsTables(root, m0, at, role, k, index, child);
      HangKeepsPages(root, m0, at, role, k, index, child, pages);
      HangKeepsRam(m0, at, k, index, child);
    }

    /** What linking and clearing offside comes to. */
    lemma OffCleared(m0: Memory, m1: Memory, s: nat, index: nat, child: nat)
      requires root != 0 && s !in role && child !in role && s != child && Ram(m0) && child < Pmm.MAX_PAGES
      requires Tables(root, m0, at, role) && Implements(m0, at, pages) && s in m0 && index < |m0[s]|
      requires m1 == Store(m0, s, index, child * 4096 + 3) && child in m1 && |m1[child]| == 512
      requires mem == Cleared(m1, child, 512)
      ensures mem == HangAt(m0, s, index, child) && Ram(mem)
      ensures Tables(root, mem, at, role) && Implements(mem, at, pages)
    {
      assert RamAt(m0, child);
      ClearedIsHung(m0, s, index, child);
      forall g: nat | g < Pmm.MAX_PAGES ensures RamAt(mem, g) { assert RamAt(m0, g); }
      forall f | f in role ensures f in m0 && f in mem && mem[f] == m0[f] { assert TableOk(m0, at, role, role[f]); }
      SameTables(root, m0, mem, at, role, pages);
    }

    // ----- The descent of vmm_map_page -----

    /** Offside frames that a walk of page v is carried out on, once in ss[0] as a level-top table. */
    ghost predicate OffChain(ss: seq<nat>, top: nat, v: nat)
      reads `loaded, `pages, `mem, `role, pmm.Repr()
    {
      && Chain(mem, ss, top, v) && (forall f :: f in ss ==> Offside(f))
      && (forall i: nat {:trigger Reached(loaded, pages, ss[i])} :: 1 <= i < |ss| ==> Reached(loaded, pages, ss[i]))
    }

    /** The walk of page v has come to level l in `frame`, along such a chain. */
    ghost predicate OnChain(ss: seq<nat>, top: nat, v: nat, l: nat, frame: nat)
      reads `root, `loaded, `mem, `at, `role, `pages, `tlb, pmm.Repr()
    {
      && Sane() && root != 0 && OffChain(ss, top, v) && FreeReached() && l <= top <= 3 && top - l < |ss|
      && Route(frame) == Some(ss[top - l])
    }

    lemma ChainEntry(ss: seq<nat>, top: nat, v: nat, l: nat, frame: nat)
      requires OnChain(ss, top, v, l, frame) && l > 0
      ensures var s := ss[top - l]; var e := Entry(mem, s, Digit(v, l));
        && OffAt(frame, s) && (Present(e) <==> top - l + 1 < |ss|)
        && (Present(e) ==> e / 4096 == ss[top - l + 1] && OnChain(ss, top, v, l - 1, e / 4096))
    {
      assert ss[top - l] in ss && LeadsOn(mem, ss, top, v, top - l);
      if top - l + 1 < |ss| {
        assert ss[top - l + 1] in ss && Reached(loaded, pages, ss[top - l + 1]);
        Hits(ss[top - l + 1]);
      }
    }

    /** A frame hung at the end makes the chain longer. */
    lemma ChainLonger(m0: Memory, bits: seq<bool>, ss: seq<nat>, top: nat, v: nat, l: nat, child: nat)
      requires Sane() && root != 0 && FreeReached() && 0 < l <= top <= 3 && |ss| == top - l + 1 && Ram(m0)
      requires Chain(m0, ss, top, v) && Pmm.Grows(bits, pmm.Bits())
      requires forall f :: f in ss ==> f !in role && f !in image && f < Pmm.MAX_PAGES && f < |bits| && bits[f]
      requires forall i: nat {:trigger Reached(loaded, pages, ss[i])} :: 1 <= i < |ss| ==> Reached(loaded, pages, ss[i])
      requires Offside(child) && child < |bits| && !bits[child] && Reached(loaded, pages, child)
      requires ss[top - l] in m0 && Digit(v, l) < |m0[ss[top - l]]|
      requires mem == HangAt(m0, ss[top - l], Digit(v, l), child)
      ensures OnChain(ss + [child], top, v, l - 1, child)
    {
      ChainGrows(m0, ss, top, v, child);
      Hits(child);
      var ss' := ss + [child];
      forall i: nat | 1 <= i < |ss'| ensures Reached(loaded, pages, ss'[i]) {
        if i < |ss| { assert Reached(loaded, pages, ss[i]); }
      }
    }

    /** The tables on the way to page v exist.  Those above level top can be reached; accesses to
        the one at level top are carried out on ss[0], and so on along the chain. */
    ghost predicate Shadowed(v: nat, top: nat, ss: seq<nat>)
      reads `root, `loaded, `mem, `at, `role, `pages, `tlb, pmm.Repr()
    {
      && Sane() && root != 0 && v < PAGES && (0, Prefix(v, 0)) in at && FreeReached() && OffChain(ss, top, v) && top <= 3
      && (top, Prefix(v, top)) in at && Route(at[(top, Prefix(v, top))]) == Some(ss[0])
      && (forall k: Name {:trigger Reached(loaded, pages, at[k])} :: k in at && Under(k, v) && k.0 > top ==>
            Reached(loaded, pages, at[k]))
    }

    lemma ShadowTurns(w: Start, v: nat, top: nat, ss: seq<nat>, l: nat, frame: nat)
      requires Strayed(w, v, top, ss, l, frame) && l <= top
      ensures OnChain(ss, top, v, l, frame) && (l == top ==> ss[0] != frame)
    {
      if l == top { assert TableOk(mem, at, role, (l, Prefix(v, l))); assert ss[0] in ss; }
    }

    /** A shadowed descent, begun in w, has come to level l in `frame`. */
    ghost predicate Strayed(w: Start, v: nat, top: nat, ss: seq<nat>, l: nat, frame: nat)
      reads `astray, `root, `loaded, `mem, `at, `role, `pages, `tlb, pmm.Repr()
    {
      && at == w.at && pages == w.pages
      && (l < top ==> astray)
      && if l < top then OnChain(ss, top, v, l, frame)
         else Shadowed(v, top, ss) && l <= 3 && (l, Prefix(v, l)) in at && at[(l, Prefix(v, l))] == frame
    }

    /** A descent of page v, begun in w, has come to level l in `frame` without going astray. */
    ghost predicate Came(w: Start, v: nat, l: nat, frame: nat)
      reads Repr()
    {
      && Valid() && root != 0 && l <= 3 && (l, Prefix(v, l)) in at && at[(l, Prefix(v, l))] == frame && Since(w)
      && ((0, Prefix(v, 0)) in w.at ==> Untouched(w) && ReachedAbove(v, l))
      && (w.order ==> Planned(w, v) && Placed(w.plan[l]))
      && (w.ready ==> Ready(v)) && (w.dark ==> Dark(v))
    }

    ghost predicate Untouched(w: Start)
      reads `at, `mem, pmm.Repr()
    {
      at == w.at && mem == w.mem && pmm.Bits() == w.bits
    }

    ghost predicate ReachedAbove(v: nat, l: nat)
      reads `loaded, `pages, `at
    {
      forall k: Name {:trigger Reached(loaded, pages, at[k])} ::
        k in at && Under(k, v) && k.0 > l ==> Reached(loaded, pages, at[k])
    }

    ghost predicate Since(w: Start)
      reads Repr()
    {
      pages == w.pages && Grown(w.at, w.bits, w.zone, w.calm, at, pmm.Bits(), Zone(), Calm())
    }

    /** Every table on the way to page v exists and can be reached, or its direct-map page is not
        mapped. */
    ghost predicate Dark(v: nat)
      reads Repr()
    {
      && Valid() && root != 0 && loaded && v < PAGES && (0, Prefix(v, 0)) in at
      && (forall k {:trigger Reached(loaded, pages, at[k])} :: k in at && Under(k, v) ==>
            Reached(loaded, pages, at[k]) || DirectPage(at[k]) !in pages)
    }

    lemma DarkAt(v: nat, l: nat)
      requires Dark(v) && l <= 3
      ensures var k: Name := (l, Prefix(v, l));
        && k in at && (l > 0 ==> (l - 1, Prefix(v, l - 1)) in at)
        && (Reached(loaded, pages, at[k]) || Route(at[k]) == None)
    {
      Ancestor(root, mem, at, role, v, 0, l);
      if l > 0 { Ancestor(root, mem, at, role, v, 0, l - 1); }
      assert Under((l, Prefix(v, l)), v);
      RouteIsMapped(at[(l, Prefix(v, l))]);
    }

    lemma ShadowAt(w: Start, v: nat, top: nat, ss: seq<nat>, l: nat, frame: nat)
      requires Strayed(w, v, top, ss, l, frame) && top < l
      ensures Through((l, Prefix(v, l)), frame, (l - 1, Prefix(v, l - 1)))
      ensures Strayed(w, v, top, ss, l - 1, at[(l - 1, Prefix(v, l - 1))])
    {
      assert Under((l, Prefix(v, l)), v);
      Ancestor(root, mem, at, role, v, 0, l - 1);
    }

    /** Growth leaves a ready call ready. */
    twostate lemma StillReady(v: nat)
      requires old(Ready(v)) && Valid() && root != 0 && Grew() && pages == old(pages)
      ensures Ready(v) && PathReached(v)
    {
      forall k | k in at && Under(k, v) ensures Reached(loaded, pages, at[k]) {
        assert TableOk(mem, at, role, k);
        if k !in old(at) && (0, Prefix(v, 0)) in old(at) {
          Ancestor(root, old(mem), old(at), old(role), v, 0, k.0);
        }
      }
    }

    /** One level of a descent that is ready. */
    lemma ReadyAt(v: nat, l: nat)
      requires Ready(v) && root != 0 && 0 < l <= 3 && (l, Prefix(v, l)) in at
      ensures Reached(loaded, pages, at[(l, Prefix(v, l))]) && ((l - 1, Prefix(v, l - 1)) in at || FreeReached())
    {
      assert Under((l, Prefix(v, l)), v);
      if (0, Prefix(v, 0)) in at { Ancestor(root, mem, at, role, v, 0, l - 1); }
    }

    /** One level of the descent, from the table on page v's path or along a chain. */
    method Level(frame: nat, virt: nat, l: nat, ghost w: Start, ghost good: bool,
                 ghost shadow: bool, ghost top: nat, ghost ss: seq<nat>)
      returns (out: Outcome, child: nat, ghost ss': seq<nat>)
      requires this !in pmm.Repr() && pmm.Valid() && 0 < l <= 3 && !(good && shadow)
      requires good ==> Came(w, Vpn(virt), l, frame)
      requires shadow ==> Strayed(w, Vpn(virt), top, ss, l, frame)
      modifies Repr()
      ensures pmm.Valid() && root == old(root) && loaded == old(loaded) && (old(astray) ==> astray)
      ensures good && !astray ==> out != Lost && (out == Done ==> Came(w, Vpn(virt), l - 1, child))
      ensures good && !astray && out == Halted ==>
        Valid() && Since(w) && pmm.Exhausted() && (0, Prefix(Vpn(virt), 0)) !in w.at
      ensures good && w.ready ==> !astray && out != Faulted
      ensures good && w.dark ==> !astray && (out == Faulted || out == Done)
      ensures shadow ==> (out == Halted && astray && Sane() && at == w.at && pages == w.pages && pmm.Exhausted())
                         || (out == Done && ss <= ss' && Strayed(w, Vpn(virt), top, ss', l - 1, child))
    {
      ghost var v := Vpn(virt);
      if good { CameAt(w, v, l, frame); }
      if good && w.dark { DarkAt(v, l); }
      ghost var at1, bits1, zone1, calm1 := at, pmm.Bits(), Zone(), Calm();
      out, child, ss' := Next(frame, virt, l, w, good, shadow, top, ss);
      if good && w.ready { StillReady(v); }
      if good && !astray && out != Faulted {
        GrownTwice(w.at, w.bits, w.zone, w.calm, at1, bits1, zone1, calm1, at, pmm.Bits(), Zone(), Calm());
        if out == Done { CameOn(w, v, l, frame, child); }
      }
    }

    /** The child of a table on page v's path, or the next frame of a chain. */
    method Next(frame: nat, virt: nat, l: nat, ghost w: Start, ghost good: bool, ghost shadow: bool,
                ghost top: nat, ghost ss: seq<nat>)
      returns (out: Outcome, child: nat, ghost ss': seq<nat>)
      requires this !in pmm.Repr() && pmm.Valid() && 0 < l <= 3 && !(good && shadow)
      requires good ==> Valid() && Names((l, Prefix(Vpn(virt), l)), frame)
      requires shadow ==> Strayed(w, Vpn(virt), top, ss, l, frame)
      modifies Repr()
      ensures pmm.Valid() && root == old(root) && loaded == old(loaded) && (old(astray) ==> astray)
      ensures var c := (l - 1, Prefix(Vpn(virt), l - 1));
        && (good && !astray ==> out != Lost)
        && (good && !astray && out != Faulted ==> Valid() && Grew() && pages == old(pages))
        && (good && !astray && out == Done ==> c in at && at[c] == child && Reached(loaded, pages, frame))
        && (good && !astray && old(c in at) ==>
              out != Halted && (out == Done ==> at == old(at) && mem == old(mem) && pmm.Bits() == old(pmm.Bits())))
        && (good && !astray && out == Done && old(InOrder()) ==> Placed(Place(old(Now()), c)))
        && (good && !astray && out == Halted ==> pmm.Exhausted() && at == old(at))
        && (good && old(Reached(loaded, pages, frame) && (c in at || FreeReached())) ==> !astray && out != Faulted)
        && (good && old(Through((l, Prefix(Vpn(virt), l)), frame, c)) ==> Passed(child, c) && out == Done)
      ensures old(Sane() && Route(frame) == None) ==> out == Faulted && astray == old(astray)
      ensures shadow ==> (out == Halted && astray && Sane() && at == w.at && pages == w.pages && pmm.Exhausted())
                         || (out == Done && ss <= ss' && Strayed(w, Vpn(virt), top, ss', l - 1, child))
    {
      ghost var v := Vpn(virt);
      ghost var off := shadow && l <= top;
      IndexAt(virt, l);
      PrefixSplit(v, l);
      if off { ShadowTurns(w, v, top, ss, l, frame); ChainEntry(ss, top, v, l, frame); }
      if shadow && !off { ShadowAt(w, v, top, ss, l, frame); }
      ghost var s := if off then ss[top - l] else 0;
      out, child := GetOrCreate(frame, Index(virt, l), good, (l, Prefix(v, l)), (l - 1, Prefix(v, l - 1)), off, s);
      ss' := if off && out == Done && |ss| == top - l + 1 then ss + [child] else ss;
      if off && out == Done { StrayedOn(w, old(mem), old(pmm.Bits()), ss, top, v, l, child); }
    }

    /** One level further along the chain, which a new table makes longer. */
    lemma StrayedOn(w: Start, m0: Memory, bits: seq<bool>, ss: seq<nat>, top: nat, v: nat, l: nat, child: nat)
      requires Sane() && astray && root != 0 && at == w.at && pages == w.pages
      requires 0 < l <= top <= 3 && top - l < |ss| && Ram(m0)
      requires Chain(m0, ss, top, v) && Pmm.Grows(bits, pmm.Bits()) && |bits| == Pmm.MAX_PAGES
      requires forall f :: f in ss ==> f !in role && f !in image && f < Pmm.MAX_PAGES && bits[f]
      requires forall i: nat {:trigger Reached(loaded, pages, ss[i])} :: 1 <= i < |ss| ==> Reached(loaded, pages, ss[i])
      requires forall f {:trigger Reached(loaded, pages, f)} :: 0 <= f < Pmm.TOTAL_PAGES && !bits[f] ==>
        Reached(loaded, pages, f)
      requires |ss| > top - l + 1 ==> mem == m0 && child == ss[top - l + 1]
      requires |ss| == top - l + 1 ==> child < Pmm.TOTAL_PAGES && !bits[child] && Offside(child)
      requires |ss| == top - l + 1 ==>
        ss[top - l] in m0 && Digit(v, l) < |m0[ss[top - l]]| && mem == HangAt(m0, ss[top - l], Digit(v, l), child)
      ensures Strayed(w, v, top, if |ss| == top - l + 1 then ss + [child] else ss, l - 1, child)
    {
      if |ss| == top - l + 1 {
        ChainLonger(m0, bits, ss, top, v, l, child);
      } else {
        assert ss[top - l + 1] in ss;
        Hits(child);
      }
    }

    lemma CameAt(w: Start, v: nat, l: nat, frame: nat)
      requires Came(w, v, l, frame) && 0 < l
      ensures w.ready ==> Reached(loaded, pages, frame) && ((l - 1, Prefix(v, l - 1)) in at || FreeReached())
      ensures (0, Prefix(v, 0)) in w.at ==> (l - 1, Prefix(v, l - 1)) in at
    {
      if w.ready { ReadyAt(v, l); }
      if (0, Prefix(v, 0)) in w.at { Ancestor(root, mem, at, role, v, 0, l - 1); }
    }

    lemma CameOn(w: Start, v: nat, l: nat, frame: nat, child: nat)
      requires Valid() && root != 0 && 0 < l <= 3 && Since(w)
      requires (l, Prefix(v, l)) in at && at[(l, Prefix(v, l))] == frame && Reached(loaded, pages, frame)
      requires (l - 1, Prefix(v, l - 1)) in at && at[(l - 1, Prefix(v, l - 1))] == child
      requires (0, Prefix(v, 0)) in w.at ==> Untouched(w) && ReachedAbove(v, l)
      requires w.order ==> Planned(w, v) && Placed(Place(w.plan[l], (l - 1, Prefix(v, l - 1))))
      requires (w.ready ==> Ready(v)) && (w.dark ==> Dark(v))
      ensures Came(w, v, l - 1, child)
    {
      assert w.order ==> PlannedAt(w, v, l);
    }

    /** The three-level descent of vmm_map_page. */
    method Descend(virt: nat, ghost w: Start, ghost good: bool, ghost shadow: bool,
                   ghost top: nat, ghost ss: seq<nat>)
      returns (out: Outcome, pt: nat, ghost ss': seq<nat>)
      requires this !in pmm.Repr() && pmm.Valid() && !(good && shadow)
      requires good ==> Came(w, Vpn(virt), 3, root)
      requires shadow ==> Strayed(w, Vpn(virt), top, ss, 3, root)
      modifies Repr()
      ensures pmm.Valid() && root == old(root) && loaded == old(loaded) && (old(astray) ==> astray)
      ensures good && !astray ==> out != Lost && (out == Done ==> Came(w, Vpn(virt), 0, pt))
      ensures good && !astray && out == Halted ==>
        Valid() && Since(w) && pmm.Exhausted() && (0, Prefix(Vpn(virt), 0)) !in w.at
      ensures good && w.ready ==> !astray && out != Faulted
      ensures good && w.dark ==> !astray && (out == Faulted || out == Done)
      ensures shadow ==> (out == Halted && astray && Sane() && at == w.at && pages == w.pages && pmm.Exhausted())
                         || (out == Done && ss <= ss' && Strayed(w, Vpn(virt), top, ss', 0, pt))
    {
      var pd;
      out, pd, ss' := Upper(virt, w, good, shadow, top, ss);
      if out != Done { return out, 0, ss'; }
      out, pt, ss' := Level(pd, virt, 1, w, good && !astray, shadow, top, ss');
    }

    /** Its first two levels. */
    method Upper(virt: nat, ghost w: Start, ghost good: bool, ghost shadow: bool,
                 ghost top: nat, ghost ss: seq<nat>)
      returns (out: Outcome, pd: nat, ghost ss': seq<nat>)
      requires this !in pmm.Repr() && pmm.Valid() && !(good && shadow)
      requires good ==> Came(w, Vpn(virt), 3, root)
      requires shadow ==> Strayed(w, Vpn(virt), top, ss, 3, root)
      modifies Repr()
      ensures pmm.Valid() && root == old(root) && loaded == old(loaded) && (old(astray) ==> astray)
      ensures good && !astray ==> out != Lost && (out == Done ==> Came(w, Vpn(virt), 1, pd))
      ensures good && !astray && out == Halted ==>
        Valid() && Since(w) && pmm.Exhausted() && (0, Prefix(Vpn(virt), 0)) !in w.at
      ensures good && w.ready ==> !astray && out != Faulted
      ensures good && w.dark ==> !astray && (out == Faulted || out == Done)
      ensures shadow ==> (out == Halted && astray && Sane() && at == w.at && pages == w.pages && pmm.Exhausted())
                         || (out == Done && ss <= ss' && Strayed(w, Vpn(virt), top, ss', 1, pd))
    {
      var pdpt;
      out, pdpt, ss' := Level(root, virt, 3, w, good, shadow, top, ss);
      if out != Done { return out, 0, ss'; }
      out, pd, ss' := Level(pdpt, virt, 2, w, good && !astray, shadow, top, ss');
    }

    // ----- The leaf -----

    /** Writing a leaf entry and invalidating the page, with hardware fills in between.  If that
        takes the kernel's image out of its place, the kernel is lost. */
    method WriteLeaf(virt: nat, pt: nat, index: nat, e: nat, ghost good: bool, ghost shadow: bool,
                     ghost top: nat, ghost ss: seq<nat>)
      returns (out: Outcome)
      requires !(good && shadow) && (good || shadow ==> index == Vpn(virt) % 512)
      requires good ==> Valid() && root != 0 && (0, Prefix(Vpn(virt), 0)) in at && at[(0, Prefix(Vpn(virt), 0))] == pt
      requires shadow ==> OnChain(ss, top, Vpn(virt), 0, pt)
      modifies `mem, `tlb, `pages, `astray
      ensures (old(astray) ==> astray) && out != Halted
      ensures good && !astray && out != Faulted ==> Walkable() && CacheRight(-1) && old(Reached(loaded, pages, pt))
      ensures good && !astray && out != Faulted ==>
        pages == if Present(e) then old(pages)[Vpn(virt) := e] else old(pages) - {Vpn(virt)}
      ensures good && !astray && out != Faulted ==>
        (out == Done <==> Valid()) && (out == Done <==> AllReached(loaded, pages, image))
      ensures good && !astray && out != Faulted ==>
        (old(Coherent()) ==> Coherent()) && (old(FreeBlank()) ==> FreeBlank()) && SameElsewhere(old(mem))
      ensures good && old(Reached(loaded, pages, pt)) ==> !astray && out != Faulted
      ensures good && old(Route(pt)) == None ==> out == Faulted && !astray
      ensures shadow ==>
        out == Done && Sane() && pages == old(pages) && OffChains(ss, top, Vpn(virt)) && (ss[top] != pt ==> astray)
    {
      ghost var v := Vpn(virt);
      out := StoreLeaf(v, pt, index, e, good, shadow, top, ss);
      if out != Done { return; }
      ghost var fine := (good && !astray) || shadow;
      Flush(virt, fine);
      if good && !astray && old(FreeBlank()) { StillBlank(old(mem), pmm.Bits()); }
      if fine { ImageIsMapped(); }
      if !InPlace() { return Lost; }
    }

    /** Nothing but tables has been written since. */
    ghost predicate SameElsewhere(m0: Memory)
      reads `mem, `role
    {
      forall f :: f in m0 && f !in role ==> f in mem && mem[f] == m0[f]
    }

    /** The chain serves every page of v's page table. */
    ghost predicate OffChains(ss: seq<nat>, top: nat, v: nat)
      reads `loaded, `pages, `mem, `role, pmm.Repr()
    {
      forall w: nat {:trigger OffChain(ss, top, w)} :: Prefix(w, 0) == Prefix(v, 0) ==> OffChain(ss, top, w)
    }

    method StoreLeaf(ghost v: nat, pt: nat, index: nat, e: nat, ghost good: bool, ghost shadow: bool,
                     ghost top: nat, ghost ss: seq<nat>)
      returns (out: Outcome)
      requires !(good && shadow) && v < PAGES && (good || shadow ==> index == v % 512)
      requires good ==> Valid() && root != 0 && (0, v / 512) in at && at[(0, v / 512)] == pt
      requires shadow ==> OnChain(ss, top, v, 0, pt)
      modifies `mem, `tlb, `pages, `astray
      ensures (old(astray) ==> astray) && out != Halted
      ensures good && !astray ==> out != Lost
      ensures good && !astray && out == Done ==> Walkable() && CacheRight(v) && old(Reached(loaded, pages, pt))
      ensures good && !astray && out == Done ==> pages == if Present(e) then old(pages)[v := e] else old(pages) - {v}
      ensures good && !astray && out == Done ==> SameElsewhere(old(mem))
      ensures good && !astray && out == Done && old(Coherent()) ==> CacheTight(v)
      ensures good && old(Reached(loaded, pages, pt)) ==> !astray && out == Done
      ensures good && old(Route(pt)) == None ==> out == Faulted && !astray
      ensures shadow ==>
        out == Done && Sane() && pages == old(pages) && OffChains(ss, top, v) && (ss[top] != pt ==> astray)
    {
      if good { LeafWritable(v); }
      if shadow { ChainEnd(ss, top, v, pt); }
      Refill(good || shadow);
      out := Write(pt, index, e);
      if out != Done { return; }
      if good && !astray {
        pages := if Present(e) then pages[v := e] else pages - {v};
        LeafWritten(old(mem), old(pages), v, e);
        LeafCached(old(pages), v, e);
      }
      if shadow { ChainWritten(old(mem), ss, top, v, index, e); }
    }

    lemma ChainEnd(ss: seq<nat>, top: nat, v: nat, pt: nat)
      requires OnChain(ss, top, v, 0, pt)
      ensures |ss| == top + 1 && OffAt(pt, ss[top]) && InPlace() && RamAt(mem, ss[top])
    {
      assert ss[top] in ss;
      Hits(ss[top]);
    }

    lemma ChainWritten(m0: Memory, ss: seq<nat>, top: nat, v: nat, i: nat, e: nat)
      requires this !in pmm.Repr() && pmm.Valid() && root != 0 && Chain(m0, ss, top, v) && |ss| == top + 1 && Ram(m0)
      requires Tables(root, m0, at, role) && Implements(m0, at, pages)
      requires forall f :: f in ss ==> Offside(f)
      requires forall j: nat {:trigger Reached(loaded, pages, ss[j])} :: 1 <= j < |ss| ==> Reached(loaded, pages, ss[j])
      requires ss[top] in m0 && i < |m0[ss[top]]| && mem == Store(m0, ss[top], i, e)
      ensures Ram(mem) && Tables(root, mem, at, role) && Implements(mem, at, pages) && OffChains(ss, top, v)
    {
      assert ss[top] in ss;
      OffStored(m0, ss[top], i, e);
      forall w: nat | Prefix(w, 0) == Prefix(v, 0) ensures OffChain(ss, top, w) { ChainStays(m0, ss, top, v, w, i, e); }
    }

    /** The processor reading tables that are in order. */
    ghost method Refill(good: bool)
      requires good ==> Walkable() && root != 0 && CacheRight(-1)
      modifies `tlb
      ensures good ==> CacheRight(-1)
      ensures good && old(CacheTight(-1)) ==> CacheTight(-1)
    {
      if good { Settled(); }
      HardwareFill();
      assert good ==> CacheRight(-1) && (old(CacheTight(-1)) ==> CacheTight(-1));
    }

    /** invlpg after the entry is written, the processor reading the tables before and after. */
    ghost method Flush(virt: nat, good: bool)
      requires good ==> Walkable() && root != 0 && CacheRight(Vpn(virt))
      modifies `tlb
      ensures good ==> CacheRight(-1)
      ensures good && old(CacheTight(Vpn(virt))) ==> CacheTight(-1)
    {
      if good { Settled(); }
      HardwareFill();
      assert good ==> CacheRight(Vpn(virt)) && (old(CacheTight(Vpn(virt))) ==> CacheTight(Vpn(virt)));
      Invalidate(virt);
      assert good ==> CacheRight(-1) && (old(CacheTight(Vpn(virt))) ==> CacheTight(-1));
      HardwareFill();
    }

    /** Where the leaf of page v is written. */
    lemma LeafWritable(v: nat)
      requires Sane() && root != 0 && v < PAGES && (0, v / 512) in at
      ensures var pt := at[(0, v / 512)];
        && InPlace() && pt in mem && |mem[pt]| == 512 && pt !in image
        && (Route(pt) == Some(pt) <==> Reached(loaded, pages, pt)) && (Reached(loaded, pages, pt) ==> Shown(pt, v % 512))
    {
      assert TableOk(mem, at, role, (0, v / 512));
      Hits(at[(0, v / 512)]);
    }

    /** The cache is right and tight but for the page whose leaf has changed. */
    lemma LeafCached(p0: map<nat, nat>, v: nat, e: nat)
      requires !loaded ==> tlb == map[]
      requires forall u :: u in tlb && u in p0 ==> tlb[u] == p0[u]
      requires pages == if Present(e) then p0[v := e] else p0 - {v}
      ensures CacheRight(v) && ((forall u :: u in tlb ==> u in p0) ==> CacheTight(v))
    {
    }

    /** And what that makes of the tables. */
    lemma LeafWritten(m0: Memory, p0: map<nat, nat>, v: nat, e: nat)
      requires root != 0 && v < PAGES && (0, v / 512) in at && Ram(m0)
      requires Tables(root, m0, at, role) && Implements(m0, at, p0)
      requires at[(0, v / 512)] in m0 && |m0[at[(0, v / 512)]]| == 512 && mem == Store(m0, at[(0, v / 512)], v % 512, e)
      requires pages == if Present(e) then p0[v := e] else p0 - {v}
      ensures Tables(root, mem, at, role) && Ram(mem) && Implements(mem, at, pages) && SameElsewhere(m0)
    {
      assert TableOk(m0, at, role, (0, v / 512));
      StoreKeepsTables(root, m0, at, role, v, e);
      StoreUpdatesPages(root, m0, at, role, v, e, p0);
      StoreKeepsRam(m0, at[(0, v / 512)], v % 512, e);
    }

    lemma PathOfFour(v: nat)
      requires Walkable() && root != 0 && ReachedAbove(v, 0)
      requires (0, Prefix(v, 0)) in at ==> Reached(loaded, pages, at[(0, Prefix(v, 0))])
      ensures PathReached(v)
    {
      forall k | k in at && Under(k, v) ensures Reached(loaded, pages, at[k]) { assert TableOk(mem, at, role, k); }
    }

    lemma DarkLeaf(v: nat)
      requires Dark(v) && ReachedAbove(v, 0) && !PathReached(v)
      ensures Route(at[(0, Prefix(v, 0))]) == None
    {
      DarkAt(v, 0);
      if Reached(loaded, pages, at[(0, Prefix(v, 0))]) { PathOfFour(v); }
    }

    static lemma MapKeepsZone(l: bool, p: map<nat, nat>, z: set<nat>, virt: nat, phys: nat, flags: nat)
      requires AllReached(l, p, z)
      ensures AllReached(l, p[Vpn(virt) := LeafEntry(phys, flags)], z) <==> (l ==> MapSpares(z, virt, phys))
    {
      if l { SparedExactly(p, z, virt, phys, flags); }
      forall f | f in z && !l ensures Reached(l, p[Vpn(virt) := LeafEntry(phys, flags)], f) { assert Reached(l, p, f); }
    }

    static lemma UnmapKeepsZone(l: bool, p: map<nat, nat>, z: set<nat>, virt: nat)
      requires AllReached(l, p, z)
      ensures AllReached(l, p - {Vpn(virt)}, z) <==> (l ==> UnmapSpares(z, virt))
    {
      if l { SparedExactly(p, z, virt, 0, 0); }
      forall f | f in z && !l ensures Reached(l, p - {Vpn(virt)}, f) { assert Reached(l, p, f); }
    }

    /** vmm_map_page, from a valid state or, once astray, along a chain. */
    method MapAlong(virt: nat, phys: nat, flags: nat, ghost good: bool, ghost dark: bool, ghost shadow: bool,
                    ghost top: nat, ghost ss: seq<nat>)
      returns (out: Outcome, ghost ss': seq<nat>)
      requires this !in pmm.Repr() && pmm.Valid() && !(good && shadow)
      requires good ==> Valid()
      requires dark ==> good && Dark(Vpn(virt)) && !PathReached(Vpn(virt))
      requires shadow ==> Shadowed(Vpn(virt), top, ss)
      modifies Repr()
      ensures pmm.Valid() && root == old(root) && loaded == old(loaded) && (old(astray) ==> astray)
      ensures good && !astray && out != Faulted ==> Grew() && Walkable() && CacheRight(-1)
      ensures good && !astray && out != Faulted ==>
        pages == if root != 0 && out != Halted then old(pages)[Vpn(virt) := LeafEntry(phys, flags)] else old(pages)
      ensures good && !astray && out != Faulted ==>
        (Valid() <==> out != Lost) && (out == Lost <==> root != 0 && loaded && out != Halted && !MapSpares(image, virt, phys))
      ensures good && !astray && out == Halted ==> pmm.Exhausted()
      ensures good && old(Ready(Vpn(virt))) ==> !astray && out != Faulted
      ensures good && old((0, Prefix(Vpn(virt), 0)) in at) && !astray && out != Faulted ==>
        && out != Halted && at == old(at) && old(PathReached(Vpn(virt))) && SameElsewhere(old(mem))
        && pmm.Bits() == old(pmm.Bits())
      ensures good && old(InOrder()) && !astray && out == Done && root != 0 ==>
        Placed(PlacePath(old(Now()), Vpn(virt)))
      ensures dark ==> out == Faulted && !astray
      ensures shadow ==> Sane() && at == old(at) && pages == old(pages) && astray
      ensures shadow ==>
        (out == Halted && pmm.Exhausted()) || (out == Done && ss <= ss' && OffChains(ss', top, Vpn(virt)) && FreeReached())
    {
      ss' := ss;
      if root == 0 { return Done, ss; }
      ghost var v := Vpn(virt);
      ghost var w := Start(mem, at, pmm.Bits(), Zone(), Calm(), pages, InOrder(), Plan(Now(), v), Ready(v), dark);
      if good { CameStarts(w, v); }
      if shadow { StrayedStarts(w, v, top, ss); }
      out, ss' := MapDown(virt, phys, flags, w, good, shadow, top, ss);
    }

    /** The same once there are tables, in terms of the state w it begins in. */
    method MapDown(virt: nat, phys: nat, flags: nat, ghost w: Start, ghost good: bool,
                   ghost shadow: bool, ghost top: nat, ghost ss: seq<nat>)
      returns (out: Outcome, ghost ss': seq<nat>)
      requires this !in pmm.Repr() && pmm.Valid() && !(good && shadow)
      requires good ==> Came(w, Vpn(virt), 3, root)
      requires good && w.dark ==> (0, Prefix(Vpn(virt), 0)) in w.at && !WasReached(w, Vpn(virt))
      requires shadow ==> Strayed(w, Vpn(virt), top, ss, 3, root)
      modifies Repr()
      ensures pmm.Valid() && root == old(root) && loaded == old(loaded) && (old(astray) ==> astray)
      ensures good && !astray && out == Halted ==>
        Valid() && Since(w) && pmm.Exhausted() && (0, Prefix(Vpn(virt), 0)) !in w.at
      ensures good && !astray && out != Faulted && out != Halted ==> Landed(w, virt, phys, flags, out)
      ensures good && w.ready ==> !astray && out != Faulted
      ensures good && w.dark ==> out == Faulted && !astray
      ensures shadow ==> Sane() && at == w.at && pages == w.pages && astray
      ensures shadow ==>
        (out == Halted && pmm.Exhausted()) || (out == Done && ss <= ss' && OffChains(ss', top, Vpn(virt)) && FreeReached())
    {
      var pt;
      out, pt, ss' := Descend(virt, w, good, shadow, top, ss);
      if out != Done { return; }
      out := PutLeaf(virt, pt, phys, flags, w, good && !astray, shadow, top, ss');
    }

    ghost predicate WasReached(w: Start, v: nat)
      reads `loaded
    {
      forall k {:trigger Reached(loaded, w.pages, w.at[k])} ::
        k in w.at && Under(k, v) ==> Reached(loaded, w.pages, w.at[k])
    }

    lemma CameStarts(w: Start, v: nat)
      requires Valid() && root != 0 && v < PAGES
      requires w == Start(mem, at, pmm.Bits(), Zone(), Calm(), pages, InOrder(), Plan(Now(), v), Ready(v), w.dark)
      requires w.dark ==> Dark(v)
      ensures Came(w, v, 3, root)
    {
      PrefixEnds(v);
      var y := Now();
      assert PlaceDown(y, v, 3) == y && PlaceDown(y, v, 2) == Place(y, (2, Prefix(v, 2)));
      assert PlaceDown(y, v, 1) == Place(PlaceDown(y, v, 2), (1, Prefix(v, 1)));
      assert PlaceDown(y, v, 0) == Place(PlaceDown(y, v, 1), (0, Prefix(v, 0)));
      forall l: nat ensures PlannedAt(w, v, l) { if 0 < l < 4 { assert l == 1 || l == 2 || l == 3; } }
      forall k | k in at ensures k.0 <= 3 { assert TableOk(mem, at, role, k); }
    }

    lemma StrayedStarts(w: Start, v: nat, top: nat, ss: seq<nat>)
      requires Shadowed(v, top, ss) && w.at == at && w.pages == pages
      ensures Strayed(w, v, top, ss, 3, root)
    {
      PrefixEnds(v);
    }

    lemma AfterDescent(w: Start, v: nat, pt: nat)
      requires Came(w, v, 0, pt)
      ensures (0, Prefix(v, 0)) in w.at && Dark(v) && !PathReached(v) ==> Route(pt) == None
      ensures (0, Prefix(v, 0)) in w.at && Reached(loaded, pages, pt) ==> PathReached(v)
      ensures w.ready ==> Reached(loaded, pages, pt)
    {
      assert Under((0, Prefix(v, 0)), v);
      if (0, Prefix(v, 0)) in w.at {
        if Dark(v) && !PathReached(v) { DarkLeaf(v); }
        if Reached(loaded, pages, pt) { PathOfFour(v); }
      }
    }

    /** The page has been mapped, since w, and the kernel is lost if it was one of its own. */
    ghost predicate Landed(w: Start, virt: nat, phys: nat, flags: nat, out: Outcome)
      reads Repr()
    {
      && Walkable() && CacheRight(-1) && Grown(w.at, w.bits, w.zone, w.calm, at, pmm.Bits(), Zone(), Calm())
      && pages == w.pages[Vpn(virt) := LeafEntry(phys, flags)]
      && (Valid() <==> out != Lost) && (out == Lost <==> loaded && !MapSpares(image, virt, phys))
      && ((0, Prefix(Vpn(virt), 0)) in w.at ==>
            at == w.at && pmm.Bits() == w.bits && WasReached(w, Vpn(virt)) && SameElsewhere(w.mem))
      && (w.order ==> |w.plan| == 4 && Placed(w.plan[0]))
    }

    /** The last two lines of vmm_map_page. */
    method PutLeaf(virt: nat, pt: nat, phys: nat, flags: nat, ghost w: Start, ghost good: bool,
                   ghost shadow: bool, ghost top: nat, ghost ss: seq<nat>)
      returns (out: Outcome)
      requires !(good && shadow)
      requires good ==> Came(w, Vpn(virt), 0, pt)
      requires good && w.dark ==> (0, Prefix(Vpn(virt), 0)) in w.at && !WasReached(w, Vpn(virt))
      requires shadow ==> Strayed(w, Vpn(virt), top, ss, 0, pt)
      modifies `mem, `tlb, `pages, `astray
      ensures (old(astray) ==> astray) && out != Halted
      ensures good && !astray && out != Faulted ==> Landed(w, virt, phys, flags, out)
      ensures good && w.ready ==> !astray && out != Faulted
      ensures good && w.dark ==> out == Faulted && !astray
      ensures shadow ==> out == Done && astray && Sane() && at == w.at && pages == w.pages
      ensures shadow ==> OffChains(ss, top, Vpn(virt)) && FreeReached()
    {
      IndexAt(virt, 0);
      if shadow { ShadowTurns(w, Vpn(virt), top, ss, 0, pt); }
      if good {
        MapKeepsZone(loaded, pages, image, virt, phys, flags);
        AfterDescent(w, Vpn(virt), pt);
      }
      out := WriteLeaf(virt, pt, Index(virt, 0), LeafEntry(phys, flags), good, shadow, top, ss);
    }

    /** vmm_map_page.  If it neither goes astray nor faults, it changes the translation of exactly
        its own page; it halts only for want of a table frame; and it loses the kernel exactly if
        its page is the direct-map page of the kernel's image and is mapped elsewhere.  It does not
        go astray if the call is ready; on a page whose table exists, only then. */
    method MapPage(virt: nat, phys: nat, flags: nat) returns (out: Outcome)
      requires Valid()
      modifies Repr()
      ensures pmm.Valid() && root == old(root) && loaded == old(loaded)
      ensures !astray && out != Faulted ==> Grew() && Walkable() && CacheRight(-1)
      ensures !astray && out != Faulted ==>
        pages == if root != 0 && out != Halted then old(pages)[Vpn(virt) := LeafEntry(phys, flags)] else old(pages)
      ensures !astray && out != Faulted ==>
        (Valid() <==> out != Lost) && (out == Lost <==> root != 0 && loaded && out != Halted && !MapSpares(image, virt, phys))
      ensures !astray && out == Halted ==> pmm.Exhausted()
      ensures old(Ready(Vpn(virt))) ==> !astray && out != Faulted
      ensures old((0, Prefix(Vpn(virt), 0)) in at) && !astray && out != Faulted ==>
        out != Halted && at == old(at) && old(PathReached(Vpn(virt)))
      ensures old(InOrder()) && !astray && out == Done && root != 0 ==> Placed(PlacePath(old(Now()), Vpn(virt)))
      ensures old(Dark(Vpn(virt)) && !PathReached(Vpn(virt))) ==> out == Faulted && !astray
    {
      ghost var ss;
      out, ss := MapAlong(virt, phys, flags, true, Dark(Vpn(virt)) && !PathReached(Vpn(virt)), false, 0, []);
    }

    /** vmm_unmap_page.  If it neither goes astray nor faults, it removes exactly its own page, and
        loses the kernel exactly if that is the direct-map page of the kernel's image.  It does
        neither if the path can be reached. */
    method UnmapPage(virt: nat) returns (out: Outcome)
      requires Valid()
      modifies `mem, `tlb, `pages, `astray
      ensures out != Halted
      ensures !astray && out != Faulted ==> Grew() && Walkable() && CacheRight(-1) && pages == old(pages) - {Vpn(virt)}
      ensures !astray && out != Faulted ==>
        (Valid() <==> out != Lost) && (out == Lost <==> loaded && !UnmapSpares(image, virt))
      ensures old(PathReached(Vpn(virt))) ==> !astray && out != Faulted
    {
      out := UnmapAlong(virt, true);
    }

    /** The same from any state, promising nothing once it is astray. */
    method UnmapAlong(virt: nat, ghost good: bool) returns (out: Outcome)
      requires good ==> Valid()
      modifies `mem, `tlb, `pages, `astray
      ensures (old(astray) ==> astray) && out != Halted
      ensures good && !astray && out != Faulted ==>
        Grew() && Walkable() && CacheRight(-1) && pages == old(pages) - {Vpn(virt)}
      ensures good && !astray && out != Faulted ==>
        (Valid() <==> out != Lost) && (out == Lost <==> loaded && !UnmapSpares(image, virt))
      ensures good && old(PathReached(Vpn(virt))) ==> !astray && out != Faulted
    {
      if root == 0 { return Done; }
      if good {
        assert PageOk(mem, at, pages, Vpn(virt));
        UnmapKeepsZone(loaded, pages, image, virt);
      }
      var e, pte;
      out, e, pte := ReadLeaf(virt);
      if out != Done || !Present(e) { return; }
      out := WriteLeaf(virt, pte.value.frame, pte.value.index, 0, good && !astray, false, 0, []);
    }

    // ----- What a call spares -----

    /** No page of a call is the direct-map page of a table, of a frame that may become one, or of
        the kernel's image, unless it is mapped to it.  Before the tables are loaded any call will
        do. */
    ghost predicate Safe(op: Op)
      reads Repr()
    {
      Valid() && ZoneReached() && (loaded ==> Spares(Zone(), op))
    }

    lemma ImageInZone(virt: nat, phys: nat)
      requires Walkable()
      ensures MapSpares(Zone(), virt, phys) ==> MapSpares(image, virt, phys)
      ensures UnmapSpares(Zone(), virt) ==> UnmapSpares(image, virt)
    {
      forall f | f in image ensures f in Zone() { }
    }

    /** The kernel is still in its place, and only tables have been added. */
    twostate predicate Whole(out: Outcome)
      reads Repr()
    {
      out != Faulted && out != Lost ==> Valid() && Grew()
    }

    /** vmm_map_page again.  While everything in the zone is within reach it leaves it so exactly
        if its page is the direct-map page of none of it, or is mapped to that very frame. */
    method MapWatched(virt: nat, phys: nat, flags: nat, ghost good: bool, ghost watch: bool) returns (out: Outcome)
      requires this !in pmm.Repr() && pmm.Valid()
      requires good ==> Valid()
      requires watch ==> good && ZoneReached()
      modifies Repr()
      ensures pmm.Valid() && root == old(root) && loaded == old(loaded) && (old(astray) ==> astray)
      ensures good && !astray ==> Whole(out)
      ensures good && !astray && out == Done && root != 0 ==> pages == old(pages)[Vpn(virt) := LeafEntry(phys, flags)]
      ensures good && !astray && out == Halted ==> pmm.Exhausted()
      ensures good && !astray && out == Done && root != 0 && old(InOrder()) ==> Placed(PlacePath(old(Now()), Vpn(virt)))
      ensures good && old(Ready(Vpn(virt))) ==>
        !astray && out != Faulted && (out == Lost ==> loaded && !MapSpares(image, virt, phys))
      ensures watch ==> !astray && out != Faulted && Grew()
      ensures watch ==>
        (ZoneReached() <==> (out != Halted && loaded ==> MapSpares(Zone(), virt, phys))) && (out == Lost ==> !ZoneReached())
    {
      if watch {
        ZoneReady(Vpn(virt));
        MapKeepsZone(loaded, pages, Zone(), virt, phys, flags);
      }
      ghost var ss;
      out, ss := MapAlong(virt, phys, flags, good, false, false, 0, []);
      if watch { ImageInZone(virt, phys); }
    }

    /** vmm_unmap_page likewise. */
    method UnmapWatched(virt: nat, ghost good: bool, ghost watch: bool) returns (out: Outcome)
      requires good ==> Valid()
      requires watch ==> good && ZoneReached()
      modifies `mem, `tlb, `pages, `astray
      ensures (old(astray) ==> astray) && out != Halted
      ensures good && !astray ==> Whole(out) && (out == Done ==> pages == old(pages) - {Vpn(virt)})
      ensures good && old(PathReached(Vpn(virt))) ==>
        !astray && out != Faulted && (out == Lost ==> loaded && !UnmapSpares(image, virt))
      ensures watch ==> !astray && out != Faulted && Grew()
      ensures watch ==> (ZoneReached() <==> (loaded ==> UnmapSpares(Zone(), virt))) && (out == Lost ==> !ZoneReached())
    {
      if watch {
        ZoneReady(Vpn(virt));
        UnmapKeepsZone(loaded, pages, Zone(), virt);
      }
      out := UnmapAlong(virt, good);
      if watch { ImageInZone(virt, 0); }
    }

    /** vmm_map_range.  If it comes to its end without going astray, it has mapped its pages one by
        one; and so it does, frames permitting, if it spares the zone. */
    method MapRange(virt: nat, phys: nat, count: nat, flags: nat) returns (out: Outcome)
      requires this !in pmm.Repr() && pmm.Valid() && (!astray ==> Valid())
      modifies Repr()
      ensures pmm.Valid() && root == old(root) && loaded == old(loaded) && (old(astray) ==> astray)
      ensures !astray ==> Whole(out)
      ensures !astray && out == Done && root != 0 ==> pages == Mapped(old(pages), virt, phys, count, flags)
      ensures !astray && out == Halted ==> pmm.Exhausted()
      ensures !astray && out == Done && root != 0 && old(InOrder()) ==> Placed(PlaceRange(old(Now()), virt, count))
      ensures old(Safe(Op.MapRange(virt, phys, count, flags))) ==>
        !astray && (out == Done || out == Halted) && ZoneReached()
    {
      ghost var order, y := InOrder(), Now();
      ghost var safe, z := Safe(Op.MapRange(virt, phys, count, flags)), Zone();
      for i := 0 to count
        invariant pmm.Valid() && root == old(root) && loaded == old(loaded) && (old(astray) ==> astray)
        invariant !astray ==> Valid() && Grew() && (root != 0 ==> pages == Mapped(old(pages), virt, phys, i, flags))
        invariant !astray && order && root != 0 ==> Placed(PlaceRange(y, virt, i))
        invariant safe ==> !astray && ZoneReached() && Zone() == z
      {
        if safe && loaded { SparesEach(z, virt, phys, count, flags, i); }
        ghost var at1, bits1, zone1, calm1 := at, pmm.Bits(), Zone(), Calm();
        out := MapWatched(Nth(virt, i), Nth(phys, i), flags, !astray, safe);
        if !astray && (out == Done || out == Halted) {
          GrownTwice(old(at), old(pmm.Bits()), old(Zone()), old(Calm()), at1, bits1, zone1, calm1,
                     at, pmm.Bits(), Zone(), Calm());
        }
        if out != Done { return; }
      }
      out := Done;
    }

    /** vmm_unmap_range likewise. */
    method UnmapRange(virt: nat, count: nat) returns (out: Outcome)
      requires !astray ==> Valid()
      modifies `mem, `tlb, `pages, `astray
      ensures (old(astray) ==> astray) && out != Halted
      ensures !astray ==> Whole(out) && (out == Done ==> pages == Unmapped(old(pages), virt, count))
      ensures old(Safe(Op.UnmapRange(virt, count))) ==> !astray && out == Done && ZoneReached()
    {
      ghost var safe, z := Safe(Op.UnmapRange(virt, count)), Zone();
      for i := 0 to count
        invariant old(astray) ==> astray
        invariant !astray ==> Valid() && Grew() && pages == Unmapped(old(pages), virt, i)
        invariant safe ==> !astray && ZoneReached() && Zone() == z
      {
        if safe && loaded { assert UnmapSpares(z, Nth(virt, i)); }
        ghost var at1, bits1, zone1, calm1 := at, pmm.Bits(), Zone(), Calm();
        out := UnmapWatched(Nth(virt, i), !astray, safe);
        if !astray && out == Done {
          GrownTwice(old(at), old(pmm.Bits()), old(Zone()), old(Calm()), at1, bits1, zone1, calm1,
                     at, pmm.Bits(), Zone(), Calm());
        }
        if out != Done { return; }
      }
      out := Done;
    }

    /** Page v is the direct-map page of a table on the way to v. */
    ghost predicate MapsOwnPath(v: nat)
      reads `loaded, `at
    {
      loaded && exists k :: k in at && Under(k, v) && DirectPage(at[k]) == v
    }

    /** Without page v its path can still be reached, exactly if v does not map its own path. */
    lemma PathWithout(v: nat, p: map<nat, nat>)
      requires PathReached(v) && p == pages - {v}
      ensures (forall k :: k in at && Under(k, v) ==> Reached(loaded, p, at[k])) <==> !MapsOwnPath(v)
    {
      forall k | k in at && Under(k, v) ensures Reached(loaded, p, at[k]) <==> !loaded || DirectPage(at[k]) != v {
        assert Reached(loaded, pages, at[k]);
      }
    }

    /** What becomes of vmm_protect_page, which unmaps the page before it maps it again: the page
        must not be the kernel's own, nor map its own path. */
    ghost function Protecting(virt: nat): Outcome
      reads `loaded, `at, `pages
    {
      if !Protectable(pages, virt) then Done
      else if loaded && !UnmapSpares(image, virt) then Lost
      else if MapsOwnPath(Vpn(virt)) then Faulted
      else Done
    }

    /** vmm_protect_page.  If it comes to its end without going astray, it has failed exactly on a
        page that is not protectable, and otherwise replaced the flags and kept the frame, without
        a new table.  On a path within reach it does not go astray, and its outcome is known
        beforehand. */
    method ProtectPage(virt: nat, flags: nat) returns (out: Outcome, done: bool)
      requires this !in pmm.Repr() && pmm.Valid() && (!astray ==> Valid())
      modifies Repr()
      ensures pmm.Valid() && root == old(root) && loaded == old(loaded) && (old(astray) ==> astray)
      ensures !astray ==> Whole(out) && out != Halted
      ensures !astray && out == Done ==>
        at == old(at) && pages == Effect(old(pages), Protect(virt, flags)) && (done <==> old(Protectable(pages, virt)))
      ensures !astray && out == Done && done ==>
        Vpn(virt) in old(pages) && pages == old(pages)[Vpn(virt) := LeafEntry(old(pages)[Vpn(virt)], flags)]
      ensures !astray && out == Done && !done ==> pages == old(pages)
      ensures old(Valid() && PathReached(Vpn(virt))) ==> !astray && out == old(Protecting(virt))
    {
      ghost var v, p0 := Vpn(virt), pages;
      ghost var good, near := Valid(), Valid() && PathReached(v);
      var phys;
      out, phys := GetPhys(virt);
      if out != Done { return out, false; }
      if phys == 0 { return Done, false; }
      out := Remap(virt, phys, flags, good && !astray, near);
      assert good && v in p0 && !astray ==> phys / 4096 == p0[v] / 4096;
      done := true;
    }

    /** vmm_unmap_page and then vmm_map_page. */
    method Remap(virt: nat, phys: nat, flags: nat, ghost good: bool, ghost near: bool) returns (out: Outcome)
      requires this !in pmm.Repr() && pmm.Valid()
      requires good ==> Valid() && Vpn(virt) in pages
      requires near ==> good && PathReached(Vpn(virt))
      modifies Repr()
      ensures pmm.Valid() && root == old(root) && loaded == old(loaded) && (old(astray) ==> astray)
      ensures good && !astray ==> Whole(out) && out != Halted
      ensures good && !astray && out == Done ==>
        at == old(at) && pages == old(pages)[Vpn(virt) := LeafEntry(phys, flags)]
      ensures near ==> !astray
      ensures near ==>
        out == if loaded && !UnmapSpares(image, virt) then Lost else if old(MapsOwnPath(Vpn(virt))) then Faulted else Done
    {
      ghost var v := Vpn(virt);
      if good { TableOfMappedPage(v); }
      if near { PathWithout(v, pages - {v}); }
      out := UnmapAlong(virt, good);
      if out != Done { return; }
      assert near && !MapsOwnPath(v) ==> PathReached(v);
      ghost var dark := near && MapsOwnPath(v);
      if dark { NowDark(v, old(pages)); }
      ghost var at1, bits1, zone1, calm1 := at, pmm.Bits(), Zone(), Calm();
      out := MapBack(virt, phys, flags, good && !astray, near, dark);
      if good && !astray && out == Done {
        GrownTwice(old(at), old(pmm.Bits()), old(Zone()), old(Calm()), at1, bits1, zone1, calm1,
                   at, pmm.Bits(), Zone(), Calm());
      }
    }

    /** The second half, when the page's table exists. */
    method MapBack(virt: nat, phys: nat, flags: nat, ghost good: bool, ghost near: bool,
                   ghost dark: bool) returns (out: Outcome)
      requires this !in pmm.Repr() && pmm.Valid()
      requires good ==> Valid() && root != 0 && (0, Prefix(Vpn(virt), 0)) in at
      requires near ==> good && (dark || PathReached(Vpn(virt)))
      requires dark ==> good && Dark(Vpn(virt)) && !PathReached(Vpn(virt))
      modifies Repr()
      ensures pmm.Valid() && root == old(root) && loaded == old(loaded) && (old(astray) ==> astray)
      ensures good && !astray ==> Whole(out) && out != Halted
      ensures good && !astray && out == Done ==>
        at == old(at) && pages == old(pages)[Vpn(virt) := LeafEntry(phys, flags)]
      ensures near ==> !astray && (UnmapSpares(image, virt) || !loaded ==> out == if dark then Faulted else Done)
    {
      ghost var ss;
      out, ss := MapAlong(virt, phys, flags, good, dark, false, 0, []);
    }

    /** Unmapping a page that maps its own path leaves part of the path unmapped. */
    lemma NowDark(v: nat, p: map<nat, nat>)
      requires Valid() && root != 0 && loaded && v < PAGES && (0, Prefix(v, 0)) in at && MapsOwnPath(v)
      requires pages == p - {v} && forall k :: k in at && Under(k, v) ==> Reached(loaded, p, at[k])
      ensures Dark(v) && !PathReached(v)
    {
      var k :| k in at && Under(k, v) && DirectPage(at[k]) == v;
      assert !Reached(loaded, pages, at[k]);
      forall k | k in at && Under(k, v) ensures Reached(loaded, pages, at[k]) || DirectPage(at[k]) !in pages {
        assert Reached(loaded, p, at[k]);
      }
    }

    lemma TableOfMappedPage(v: nat)
      requires Walkable() && v in pages
      ensures (0, Prefix(v, 0)) in at && root != 0 && v < PAGES
    {
      assert PageOk(mem, at, pages, v);
    }

    // ----- Runs of calls -----

    /** The tables a call walks are within reach when it is made, and it leaves the kernel alone. */
    ghost predicate OpReady(op: Op)
      reads Repr()
    {
      Valid() &&
      match op
      case Map(virt, phys, _) => Ready(Vpn(virt)) && (loaded ==> MapSpares(image, virt, phys))
      case Unmap(virt) => PathReached(Vpn(virt)) && (loaded ==> UnmapSpares(image, virt))
      case Protect(virt, _) => PathReached(Vpn(virt)) && Protecting(virt) == Done
      case _ => Safe(op)
    }

    /** One call.  If it ends without going astray, it has done what the finite map does; it does not
        go astray if it is ready when it is made. */
    method Perform(op: Op) returns (out: Outcome)
      requires this !in pmm.Repr() && pmm.Valid() && (!astray ==> Valid())
      modifies Repr()
      ensures pmm.Valid() && root == old(root) && loaded == old(loaded) && (old(astray) ==> astray)
      ensures !astray ==> Whole(out)
      ensures !astray && out == Done && root != 0 ==> pages == Effect(old(pages), op)
      ensures !astray && out == Halted ==> pmm.Exhausted()
      ensures old(OpReady(op)) ==> !astray && (out == Done || out == Halted)
      ensures old(Safe(op)) ==> !astray && (out == Done || out == Halted) && ZoneReached()
    {
      match op {
        case Map(virt, phys, flags) => out := MapWatched(virt, phys, flags, !astray, Safe(op));
        case Unmap(virt) => out := UnmapWatched(virt, !astray, Safe(op));
        case MapRange(virt, phys, count, flags) => out := MapRange(virt, phys, count, flags);
        case UnmapRange(virt, count) => out := UnmapRange(virt, count);
        case Protect(virt, flags) =>
          if Safe(op) {
            ZoneReady(Vpn(virt));
            SafeProtect(virt, flags);
          }
          var done;
          out, done := ProtectPage(virt, flags);
      }
    }

    lemma SafeProtect(virt: nat, flags: nat)
      requires Safe(Protect(virt, flags))
      ensures Protecting(virt) == Done && AllReached(loaded, Effect(pages, Protect(virt, flags)), Zone())
    {
      var v := Vpn(virt);
      ImageInZone(virt, 0);
      if v in pages { MapKeepsZone(loaded, pages, Zone(), virt, pages[v], flags); }
      forall k | k in at ensures at[k] in Zone() { assert TableOk(mem, at, role, k); }
    }

    /** Every run of calls that comes to its end without going astray computes page by page what
        the finite map does.  The tables stay a tree of distinct used frames, the kernel stays in
        its place, every cached translation of a mapped page stays current, and if free frames hold
        no present entries nothing else is cached either.  A run whose calls spare the direct map of
        the tables, of the frames that may become tables and of the kernel's image does not go
        astray, and stops early only for want of a frame. */
    method Execute(ops: seq<Op>) returns (out: Outcome)
      requires this !in pmm.Repr() && pmm.Valid() && (!astray ==> Valid())
      modifies Repr()
      ensures pmm.Valid() && root == old(root) && loaded == old(loaded) && (old(astray) ==> astray)
      ensures !astray ==> Whole(out)
      ensures !astray && out == Done && root != 0 ==> pages == Effects(old(pages), ops)
      ensures !astray && out == Halted ==> pmm.Exhausted()
      ensures old(SafeRun(ops)) ==> !astray && (out == Done || out == Halted) && ZoneReached()
    {
      ghost var safe, z := SafeRun(ops), Zone();
      for n := 0 to |ops|
        invariant pmm.Valid() && root == old(root) && loaded == old(loaded) && (old(astray) ==> astray)
        invariant !astray ==> Valid() && Grew() && (root != 0 ==> pages == Effects(old(pages), ops[..n]))
        invariant safe ==> !astray && ZoneReached() && Zone() == z
      {
        assert ops[..n + 1][..n] == ops[..n];
        if safe { SafeStill(z, ops[n]); }
        ghost var at1, bits1, zone1, calm1 := at, pmm.Bits(), Zone(), Calm();
        out := Perform(ops[n]);
        if !astray && (out == Done || out == Halted) {
          GrownTwice(old(at), old(pmm.Bits()), old(Zone()), old(Calm()), at1, bits1, zone1, calm1,
                     at, pmm.Bits(), Zone(), Calm());
        }
        if out != Done { return; }
      }
      assert ops[..|ops|] == ops;
      out := Done;
    }

    lemma SafeStill(z: set<nat>, op: Op)
      requires Valid() && ZoneReached() && Zone() == z && (loaded ==> Spares(z, op))
      ensures Safe(op)
    {
    }

    ghost predicate SafeRun(ops: seq<Op>)
      reads Repr()
    {
      Valid() && ZoneReached() && (loaded ==> forall op :: op in ops ==> Spares(Zone(), op))
    }

    /** Unmapping the direct-map page of frame f, or mapping it elsewhere, is safe exactly if f is
        no table, may not become one, and does not belong to the kernel's image. */
    lemma SafeExactly(f: nat, phys: nat, flags: nat)
      requires Valid() && ZoneReached() && loaded && f < PAGES
      ensures Safe(Unmap(Nth(KERNEL_VBASE, f))) <==> f !in Zone()
      ensures Safe(Map(Nth(KERNEL_VBASE, f), phys, flags)) <==> f !in Zone() || phys / 4096 == f
      ensures f in image ==> f in Zone()
    {
      SparesFrame(Zone(), f, phys);
    }

    // ----- vmm_init -----

    /** Clearing the PML4, which the boot tables show. */
    method ClearRoot(f: nat) returns (out: Outcome)
      requires Valid() && root == 0 && f < DIRECT_PAGES && f !in image
      modifies `mem, `astray
      ensures out == Done && !astray && f in old(mem) && |old(mem)[f]| == 512 && mem == Cleared(old(mem), f, 512)
    {
      assert RamAt(mem, f);
      ClearedOneMore(mem, f, 0);
      ImageIsMapped();
      for i := 0 to 512
        invariant mem == Cleared(old(mem), f, i) && !astray
      {
        ClearedOneMore(old(mem), f, i);
        out := Write(f, i, 0);
        if out != Done { return; }
      }
      out := Done;
    }

    /** The empty PML4. */
    method NewRoot() returns (out: Outcome)
      requires Valid() && root == 0
      modifies Repr()
      ensures Valid() && !loaded && pages == map[] && Pmm.Grows(old(pmm.Bits()), pmm.Bits())
      ensures out == Halted ==> pmm.Exhausted() && root == 0
      ensures out != Halted ==> out == Done && root != 0 && ZoneReached() && (old(FreeBlank()) ==> Calm())
      ensures out != Halted ==> Pmm.FirstFree(old(pmm.Bits()), old(pmm.hint), root)
      ensures out != Halted ==> at.Keys == {(3, 0)} && root < Pmm.TOTAL_PAGES
      ensures out != Halted && FreeFrom(old(pmm.Bits()), root) ==> Placed(Layout(map[(3, 0) := root], root + 1))
    {
      var f;
      out, f := NewFrame();
      if out != Done { return; }   // not checked, but then the first table below it is not to be had either
      out := ClearRoot(f);
      FirstInOrder(old(pmm.Bits()), f, f);
      SetRoot(f, old(mem));
      if old(FreeBlank()) { StillBlank(old(mem), old(pmm.Bits())); }
    }

    method SetRoot(f: nat, ghost m0: Memory)
      requires this !in pmm.Repr() && pmm.Valid() && root == 0 && !loaded && tlb == map[] && pages == map[] && !astray
      requires 0 < f < Pmm.TOTAL_PAGES && pmm.Bits()[f]
      requires forall g :: g in image ==> g < DIRECT_PAGES && pmm.Bits()[g] && g != f
      requires Ram(m0) && f in m0 && |m0[f]| == 512 && mem == Cleared(m0, f, 512)
      modifies `root, `at, `role
      ensures Valid() && root == f && at == map[(3, 0) := f] && role == map[f := (3, 0)] && ZoneReached()
    {
      root := f;
      at, role := map[(3, 0) := root], map[root := (3, 0)];
      RootAlone(m0);
      forall g | g in Zone() ensures Reached(loaded, pages, g) { }
    }

    lemma RootAlone(m0: Memory)
      requires Ram(m0) && root in m0 && |m0[root]| == 512 && mem == Cleared(m0, root, 512)
      requires at == map[(3, 0) := root] && role == map[root := (3, 0)] && pages == map[]
      ensures Tables(root, mem, at, role) && Implements(mem, at, pages) && Ram(mem)
    {
      forall i: nat | i < 512 ensures EntryOk(mem, at, (3, 0), i) {}
      assert TableOk(mem, at, role, (3, 0));
      forall g: nat | g < Pmm.MAX_PAGES ensures RamAt(mem, g) { assert RamAt(m0, g); }
    }

    /** The two vmm_map_range calls of vmm_init, for n pages each. */
    method MapTwice(n: nat) returns (out: Outcome)
      requires Valid() && root != 0 && !loaded && pages == map[] && ZoneReached() && n <= 0x8_0000
      modifies Repr()
      ensures Valid() && Grew() && (out == Done || out == Halted)
      ensures out == Halted ==> pmm.Exhausted()
      ensures out == Done ==> ZoneReached() && TwiceMapped(pages, n)
      ensures out == Done && old(InOrder()) ==>
        Placed(PlaceRange(PlaceRange(old(Now()), 0, n), KERNEL_VBASE, n))
    {
      out := MapRange(0, 0, n, 3);
      if out != Done { return; }
      ghost var at1, bits1, zone1, calm1 := at, pmm.Bits(), Zone(), Calm();
      out := MapRange(KERNEL_VBASE, 0, n, 3);
      GrownTwice(old(at), old(pmm.Bits()), old(Zone()), old(Calm()), at1, bits1, zone1, calm1,
                 at, pmm.Bits(), Zone(), Calm());
      MappingTwice(n, 3);
    }

    /** vmm_init up to the point where the new tables are loaded. */
    method Build() returns (out: Outcome)
      requires Valid() && root == 0
      modifies Repr()
      ensures Valid() && !loaded && Pmm.Grows(old(pmm.Bits()), pmm.Bits()) && (out == Done || out == Halted)
      ensures out == Halted ==> pmm.Exhausted()
      ensures out == Done ==>
        root != 0 && ZoneReached() && TwiceMapped(pages, DIRECT_PAGES) && (old(FreeBlank()) ==> FreeBlank())
      ensures out == Done ==> Pmm.FirstFree(old(pmm.Bits()), old(pmm.hint), root)
      ensures out == Done ==> forall k :: k in at ==> at[k] < Pmm.TOTAL_PAGES
      ensures out == Done && FreeFrom(old(pmm.Bits()), root) ==> Placed(BootTables(root, DIRECT_PAGES))
    {
      out := NewRoot();
      if out == Done { out := MapTwice(DIRECT_PAGES); }
    }

    /** vmm_init: it halts only for want of a frame; otherwise the new tables map the first GiB
        twice, at 0 and at KERNEL_VBASE, are loaded with nothing cached, and show every table,
        every free frame and the kernel's image through their own direct map. */
    method Init() returns (out: Outcome)
      requires Valid() && root == 0
      modifies Repr()
      ensures Valid() && Pmm.Grows(old(pmm.Bits()), pmm.Bits()) && (out == Done || out == Halted)
      ensures out == Halted ==> pmm.Exhausted()
      ensures out == Done ==> root != 0 && loaded && tlb == map[] && ZoneReached() && TwiceMapped(pages, DIRECT_PAGES)
      ensures out == Done && old(FreeBlank()) ==> Calm()
      ensures out == Done ==> Pmm.FirstFree(old(pmm.Bits()), old(pmm.hint), root)
      ensures out == Done ==> forall k :: k in at ==> at[k] < Pmm.TOTAL_PAGES
      ensures out == Done && FreeFrom(old(pmm.Bits()), root) ==> Placed(BootTables(root, DIRECT_PAGES))
    {
      out := Build();
      if out == Done { SwitchPml4(); }
    }

    /** vmm_switch_pml4 at the end of vmm_init, which also empties the processor's cache. */
    method SwitchPml4()
      requires Valid() && root != 0 && !loaded && ZoneReached() && TwiceMapped(pages, DIRECT_PAGES)
      modifies `loaded, `tlb
      ensures Valid() && loaded && tlb == map[] && ZoneReached() && Coherent() && (old(FreeBlank()) ==> FreeBlank())
      ensures old(InOrder()) ==> InOrder()
    {
      ReachedAtBoot(pages, Zone());
      TwiceReaches(pages, DIRECT_PAGES, Zone());
      forall f | f in image ensures f in Zone() { }
      loaded, tlb := true, map[];
    }
  }
}
