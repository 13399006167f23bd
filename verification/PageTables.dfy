/** The four-level page tables of mm/vmm/vmm.c as values: the tree of tables, the walk the
    hardware makes of it, and what the calls of mm/vmm/vmm.c and mm/vmm/vmm_map.c do to it.

    A table is named by the pair (level, prefix): level 3 is the PML4, level 0 a page table,
    and prefix is the part of the 36-bit page number that leads to it.  The ghost map `at` gives
    the frame of each table and `role` its inverse, so "the tables form a tree of distinct
    frames" is a conjunction of facts about one table each.  `pages` is the finite map from page
    numbers to leaf entries that the whole structure implements. */
module PageTables {
  import opened Arith
  import opened Common

  const PAGES := 0x10_0000_0000          // 2^36 page numbers

  datatype Pte = Pte(frame: nat, index: nat)

  type Name = (nat, nat)
  type Memory = map<nat, seq<nat>>

  // ----- Address arithmetic -----

  function Span(level: nat): nat
    requires level <= 4
  {
    if level == 0 then 1 else if level == 1 then 0x200 else if level == 2 then 0x4_0000
    else if level == 3 then 0x800_0000 else PAGES
  }

  /** The 36-bit page number of a virtual address. */
  function Vpn(virt: nat): nat {
    virt / 4096 % PAGES
  }

  /** vmm_virt_to_index: (virt >> (12 + 9 * level)) & 0x1FF. */
  function Index(virt: nat, level: nat): nat
    requires level <= 3
  {
    virt / (4096 * Span(level)) % 512
  }

  /** What is left of a page number above its lowest l + 1 base-512 digits: the prefix that names
      the level-l table on the page's path. */
  function Prefix(v: nat, l: nat): nat {
    if l == 0 then v / 512 else Prefix(v, l - 1) / 512
  }

  /** The index of a page in the level-l table on its path. */
  function Digit(v: nat, l: nat): (d: nat)
    ensures d < 512
  {
    if l == 0 then v % 512 else Prefix(v, l - 1) % 512
  }

  lemma PrefixSplit(v: nat, l: nat)
    ensures Prefix(v, l) * 512 + Digit(v, l) == if l == 0 then v else Prefix(v, l - 1)
  {
  }

  lemma PrefixEnds(v: nat)
    ensures Prefix(v, 3) == 0 <==> v < PAGES
  {
    assert Prefix(v, 1) == v / 512 / 512;
    assert Prefix(v, 3) == v / 512 / 512 / 512 / 512;
    DivDiv(v, 512, 512);
    DivDiv(v, 512 * 512, 512);
    DivDiv(v, 512 * 512 * 512, 512);
  }

  /** Dropping the digits above a base-512 digit does not change it. */
  lemma DigitOfRemainder(x: nat, c: nat, m: nat)
    requires c > 0 && m > 0
    ensures c * (512 * m) > 0 && x % (c * (512 * m)) / c % 512 == x / c % 512
  {
    var p := c * (512 * m);
    var a, r := x / p, x % p;
    var y, s := r / c, r % c;
    assert x == (512 * (a * m) + y) * c + s by {
      assert x == a * p + r;
      assert a * p == 512 * (a * m) * c by { Reassociate(a, c, m); }
    }
    QuotientUnique(x, c, 512 * (a * m) + y, s);
  }

  lemma Reassociate(a: int, c: int, m: int)
    ensures a * (c * (512 * m)) == 512 * (a * m) * c
  {
  }

  /** The index at each level is the corresponding base-512 digit of the page number. */
  lemma IndexIsDigit(virt: nat, level: nat)
    requires level <= 3
    ensures Index(virt, level) == Vpn(virt) / Span(level) % 512
  {
    DivDiv(virt, 4096, Span(level));
    DigitOfRemainder(virt / 4096, Span(level), Span(3 - level));
    assert Span(level) * (512 * Span(3 - level)) == PAGES;
  }

  lemma IndexAt(virt: nat, l: nat)
    requires l <= 3
    ensures Index(virt, l) == Digit(Vpn(virt), l)
  {
    var v := Vpn(virt);
    IndexIsDigit(virt, l);
    assert Prefix(v, 1) == v / 512 / 512;
    DivDiv(v, 512, 512);
    DivDiv(v, 512 * 512, 512);
  }

  predicate Present(e: nat) {
    e % 2 == 1
  }

  /** The page-size bit, which ends a walk above the page tables. */
  predicate Huge(e: nat) {
    e / 128 % 2 == 1
  }

  /** (phys & ~0xFFF) | (flags & 0xFFF) | VMM_PRESENT. */
  function LeafEntry(phys: nat, flags: nat): (e: nat)
    ensures Present(e) && e / 4096 == phys / 4096 && e % 4096 / 2 == flags % 4096 / 2
  {
    phys / 4096 * 4096 + flags % 4096 / 2 * 2 + 1
  }

  // ----- Page tables as a tree of frames -----

  /** Entry i of table k: present exactly when the table below it exists, and then its frame,
      present and writable. */
  ghost predicate EntryOk(mem: Memory, at: map<Name, nat>, k: Name, i: nat)
    requires k in at && at[k] in mem && k.0 > 0 && i < |mem[at[k]]|
  {
    var e, below := mem[at[k]][i], (k.0 - 1, k.1 * 512 + i);
    (Present(e) <==> below in at) && (Present(e) ==> e / 4096 == at[below] && e % 4096 == 3 && !Huge(e))
  }

  ghost predicate TableOk(mem: Memory, at: map<Name, nat>, role: map<nat, Name>, k: Name)
    requires k in at
  {
    && k.0 <= 3 && (k.0 == 3 ==> k.1 == 0)
    && (k.0 < 3 ==> (k.0 + 1, k.1 / 512) in at)
    && at[k] in mem && |mem[at[k]]| == 512
    && at[k] in role && role[at[k]] == k
    && (k.0 > 0 ==> forall i: nat {:trigger EntryOk(mem, at, k, i)} :: i < 512 ==> EntryOk(mem, at, k, i))
  }

  ghost predicate Tables(root: nat, mem: Memory, at: map<Name, nat>, role: map<nat, Name>) {
    && (3, 0) in at && at[(3, 0)] == root
    && (forall k {:trigger TableOk(mem, at, role, k)} :: k in at ==> TableOk(mem, at, role, k))
    && (forall f :: f in role ==> role[f] in at && at[role[f]] == f)
  }

  /** The leaf entry for a page number; 0 where the walk ends early. */
  ghost function Leaf(mem: Memory, at: map<Name, nat>, vpn: nat): nat {
    var k := (0, vpn / 512);
    if k in at && at[k] in mem && vpn % 512 < |mem[at[k]]| then mem[at[k]][vpn % 512] else 0
  }

  ghost predicate PageOk(mem: Memory, at: map<Name, nat>, pages: map<nat, nat>, v: nat) {
    && (v in pages <==> v < PAGES && Present(Leaf(mem, at, v)))
    && (v in pages ==> pages[v] == Leaf(mem, at, v))
  }

  /** pages is exactly the present leaves. */
  ghost predicate Implements(mem: Memory, at: map<Name, nat>, pages: map<nat, nat>) {
    forall v: nat {:trigger PageOk(mem, at, pages, v)} :: PageOk(mem, at, pages, v)
  }

  // ----- A new, empty table -----

  function EmptyTable(): (t: seq<nat>)
    ensures |t| == 512 && forall i :: 0 <= i < 512 ==> t[i] == 0
  {
    seq(512, i => 0 as nat)
  }

  /** The memory after a table is linked and then cleared. */
  ghost function Hang(mem: Memory, at: map<Name, nat>, k: Name, i: nat, f: nat): Memory
    requires k in at && at[k] in mem && i < |mem[at[k]]|
  {
    HangAt(mem, at[k], i, f)
  }

  /** The same by the frame s of the linking table. */
  ghost function HangAt(mem: Memory, s: nat, i: nat, f: nat): Memory
    requires s in mem && i < |mem[s]|
  {
    var t: seq<nat> := mem[s][i := f * 4096 + 3];   // present and writable
    mem[s := t][f := EmptyTable()]
  }

  /** A table that does not exist has no tables below it. */
  lemma NoOrphan(root: nat, mem: Memory, at: map<Name, nat>, role: map<nat, Name>, b: Name, j: nat)
    requires Tables(root, mem, at, role) && b !in at && 0 < b.0 < 3 && j < 512
    ensures (b.0 - 1, b.1 * 512 + j) !in at
  {
    var c: Name := (b.0 - 1, b.1 * 512 + j);
    assert c.1 / 512 == b.1;
    assert c in at ==> TableOk(mem, at, role, c);
  }

  /** Two tables never share a frame. */
  lemma FramesDiffer(root: nat, mem: Memory, at: map<Name, nat>, role: map<nat, Name>, k: Name, k': Name)
    requires Tables(root, mem, at, role) && k in at && k' in at && k != k'
    ensures at[k] != at[k']
  {
    assert TableOk(mem, at, role, k) && TableOk(mem, at, role, k');
  }

  /** Entry i of table k is empty and f is not a table, so a table can be hung there. */
  ghost predicate Hangable(root: nat, mem: Memory, at: map<Name, nat>, role: map<nat, Name>, k: Name, i: nat, f: nat) {
    && Tables(root, mem, at, role) && k in at && k.0 > 0 && i < 512
    && TableOk(mem, at, role, k) && EntryOk(mem, at, k, i) && !Present(mem[at[k]][i])
    && (forall n :: n in at ==> at[n] != f)
  }

  lemma HangNewTable(root: nat, mem: Memory, at: map<Name, nat>, role: map<nat, Name>, k: Name, i: nat, f: nat)
    requires Hangable(root, mem, at, role, k, i, f)
    ensures var b := (k.0 - 1, k.1 * 512 + i);
            TableOk(Hang(mem, at, k, i, f), at[b := f], role[f := b], b)
  {
    var b: Name := (k.0 - 1, k.1 * 512 + i);
    var mem', at', role' := Hang(mem, at, k, i, f), at[b := f], role[f := b];
    assert b.1 / 512 == k.1;
    if b.0 > 0 {
      forall j: nat | j < 512 ensures EntryOk(mem', at', b, j) {
        NoOrphan(root, mem, at, role, b, j);
      }
    }
  }

  lemma TableEntryBits(f: nat)
    ensures Present(f * 4096 + 3) && (f * 4096 + 3) / 4096 == f && (f * 4096 + 3) % 4096 == 3 && !Huge(f * 4096 + 3)
  {
  }

  lemma HangKeepsEntry(root: nat, mem: Memory, at: map<Name, nat>, role: map<nat, Name>,
                       k: Name, i: nat, f: nat, n: Name, j: nat)
    requires Hangable(root, mem, at, role, k, i, f) && n in at && n.0 > 0 && j < 512
    requires TableOk(mem, at, role, n)
    ensures var b := (k.0 - 1, k.1 * 512 + i); n != b && EntryOk(Hang(mem, at, k, i, f), at[b := f], n, j)
  {
    var b: Name := (k.0 - 1, k.1 * 512 + i);
    var below: Name := (n.0 - 1, n.1 * 512 + j);
    var mem' := Hang(mem, at, k, i, f);
    assert EntryOk(mem, at, n, j);
    if n == k && j == i {
      TableEntryBits(f);
      assert mem'[at[n]][j] == f * 4096 + 3;
    } else {
      assert below != b;
      if n != k { FramesDiffer(root, mem, at, role, n, k); }
      assert mem'[at[n]][j] == mem[at[n]][j];
    }
  }

  lemma HangKeepsTable(root: nat, mem: Memory, at: map<Name, nat>, role: map<nat, Name>,
                       k: Name, i: nat, f: nat, n: Name)
    requires Hangable(root, mem, at, role, k, i, f) && n in at
    ensures var b := (k.0 - 1, k.1 * 512 + i);
            n != b && TableOk(Hang(mem, at, k, i, f), at[b := f], role[f := b], n)
  {
    var b: Name := (k.0 - 1, k.1 * 512 + i);
    var mem', at' := Hang(mem, at, k, i, f), at[b := f];
    assert TableOk(mem, at, role, n);
    if n.0 > 0 {
      forall j: nat | j < 512 ensures EntryOk(mem', at', n, j) {
        HangKeepsEntry(root, mem, at, role, k, i, f, n, j);
      }
    }
  }

  lemma HangKeepsTables(root: nat, mem: Memory, at: map<Name, nat>, role: map<nat, Name>, k: Name, i: nat, f: nat)
    requires Hangable(root, mem, at, role, k, i, f)
    ensures var b := (k.0 - 1, k.1 * 512 + i);
            b !in at && Tables(root, Hang(mem, at, k, i, f), at[b := f], role[f := b])
  {
    var b: Name := (k.0 - 1, k.1 * 512 + i);
    var mem', at', role' := Hang(mem, at, k, i, f), at[b := f], role[f := b];
    forall n | n in at' ensures TableOk(mem', at', role', n) {
      if n == b {
        HangNewTable(root, mem, at, role, k, i, f);
      } else {
        HangKeepsTable(root, mem, at, role, k, i, f, n);
      }
    }
  }

  /** A fresh table maps nothing, so no leaf changes. */
  lemma HangKeepsLeaf(root: nat, mem: Memory, at: map<Name, nat>, role: map<nat, Name>, k: Name, i: nat, f: nat, v: nat)
    requires Hangable(root, mem, at, role, k, i, f)
    ensures var b := (k.0 - 1, k.1 * 512 + i);
            Leaf(Hang(mem, at, k, i, f), at[b := f], v) == Leaf(mem, at, v)
  {
    var n: Name := (0, v / 512);
    if n in at {
      assert TableOk(mem, at, role, n);
      FramesDiffer(root, mem, at, role, n, k);
    }
  }

  lemma HangKeepsPages(root: nat, mem: Memory, at: map<Name, nat>, role: map<nat, Name>,
                       k: Name, i: nat, f: nat, pages: map<nat, nat>)
    requires Hangable(root, mem, at, role, k, i, f)
    requires Implements(mem, at, pages)
    ensures Implements(Hang(mem, at, k, i, f), at[(k.0 - 1, k.1 * 512 + i) := f], pages)
  {
    var mem', at' := Hang(mem, at, k, i, f), at[(k.0 - 1, k.1 * 512 + i) := f];
    forall v: nat ensures PageOk(mem', at', pages, v) {
      assert PageOk(mem, at, pages, v);
      HangKeepsLeaf(root, mem, at, role, k, i, f, v);
    }
  }

  // ----- Writing a leaf -----

  ghost function Store(mem: Memory, f: nat, i: nat, e: nat): Memory
    requires f in mem && i < |mem[f]|
  {
    var t: seq<nat> := mem[f][i := e];
    mem[f := t]
  }

  lemma StoreKeepsTables(root: nat, mem: Memory, at: map<Name, nat>, role: map<nat, Name>, vpn: nat, e: nat)
    requires Tables(root, mem, at, role) && (0, vpn / 512) in at && TableOk(mem, at, role, (0, vpn / 512))
    ensures Tables(root, Store(mem, at[(0, vpn / 512)], vpn % 512, e), at, role)
  {
    var k: Name := (0, vpn / 512);
    var mem' := Store(mem, at[k], vpn % 512, e);
    forall n | n in at ensures TableOk(mem', at, role, n) {
      assert TableOk(mem, at, role, n);
      if n.0 > 0 {
        FramesDiffer(root, mem, at, role, n, k);
        forall j: nat | j < 512 ensures EntryOk(mem', at, n, j) { assert EntryOk(mem, at, n, j); }
      }
    }
  }

  /** Writing one leaf changes the walk of exactly that page. */
  lemma StoreChangesOneLeaf(root: nat, mem: Memory, at: map<Name, nat>, role: map<nat, Name>, vpn: nat, e: nat, v: nat)
    requires Tables(root, mem, at, role) && (0, vpn / 512) in at && TableOk(mem, at, role, (0, vpn / 512))
    ensures Leaf(Store(mem, at[(0, vpn / 512)], vpn % 512, e), at, v) == if v == vpn then e else Leaf(mem, at, v)
  {
    var n: Name := (0, v / 512);
    assert v == v / 512 * 512 + v % 512 && vpn == vpn / 512 * 512 + vpn % 512;
    if n in at && v / 512 != vpn / 512 {
      assert TableOk(mem, at, role, n);
      FramesDiffer(root, mem, at, role, n, (0, vpn / 512));
    }
  }

  lemma StoreUpdatesPages(root: nat, mem: Memory, at: map<Name, nat>, role: map<nat, Name>,
                          vpn: nat, e: nat, pages: map<nat, nat>)
    requires Tables(root, mem, at, role) && (0, vpn / 512) in at && TableOk(mem, at, role, (0, vpn / 512))
    requires vpn < PAGES && Implements(mem, at, pages)
    ensures Implements(Store(mem, at[(0, vpn / 512)], vpn % 512, e), at,
                       if Present(e) then pages[vpn := e] else pages - {vpn})
  {
    var mem' := Store(mem, at[(0, vpn / 512)], vpn % 512, e);
    var pages' := if Present(e) then pages[vpn := e] else pages - {vpn};
    forall v: nat ensures PageOk(mem', at, pages', v) {
      assert PageOk(mem, at, pages, v);
      StoreChangesOneLeaf(root, mem, at, role, vpn, e, v);
    }
  }

  // ----- The hardware's walk -----

  function Entry(mem: Memory, f: nat, i: nat): nat {
    if f in mem && i < |mem[f]| then mem[f][i] else 0
  }

  /** The walk of the processor from frame f as a level-l table: the entry that maps the page, or
      0 where it meets one that is not present. */
  function WalkFrom(mem: Memory, f: nat, l: nat, v: nat): (e: nat)
    ensures e == 0 || Present(e)
    decreases l
  {
    var e := Entry(mem, f, Digit(v, l));
    if !Present(e) then 0 else if l == 0 || Huge(e) then e else WalkFrom(mem, e / 4096, l - 1, v)
  }

  function Walk(mem: Memory, root: nat, v: nat): nat {
    WalkFrom(mem, root, 3, v)
  }

  ghost predicate Translated(mem: Memory, root: nat, pages: map<nat, nat>, v: nat) {
    v in pages ==> Walk(mem, root, v) == pages[v]
  }

  /** The processor finds every mapped page where `pages` says it is. */
  ghost predicate Translates(mem: Memory, root: nat, pages: map<nat, nat>) {
    forall v: nat {:trigger Translated(mem, root, pages, v)} :: Translated(mem, root, pages, v)
  }

  ghost predicate Unexposed(mem: Memory, root: nat, pages: map<nat, nat>, v: nat) {
    v < PAGES && v !in pages ==> Walk(mem, root, v) == 0
  }

  /** The processor finds no page that is not mapped. */
  ghost predicate Sealed(mem: Memory, root: nat, pages: map<nat, nat>) {
    forall v: nat {:trigger Unexposed(mem, root, pages, v)} :: Unexposed(mem, root, pages, v)
  }

  /** Tables exist only below existing tables. */
  lemma {:induction false} Ancestor(root: nat, mem: Memory, at: map<Name, nat>, role: map<nat, Name>, v: nat, l: nat, m: nat)
    requires Tables(root, mem, at, role) && l <= m <= 3 && (l, Prefix(v, l)) in at
    ensures (m, Prefix(v, m)) in at
    decreases m - l
  {
    if l < m {
      assert TableOk(mem, at, role, (l, Prefix(v, l)));
      Ancestor(root, mem, at, role, v, l + 1, m);
    }
  }

  /** From any table on the way to a page, the walk finds the page's leaf. */
  lemma {:induction false} WalkIsLeaf(root: nat, mem: Memory, at: map<Name, nat>, role: map<nat, Name>, l: nat, v: nat)
    requires Tables(root, mem, at, role) && l <= 3 && (l, Prefix(v, l)) in at
    ensures WalkFrom(mem, at[(l, Prefix(v, l))], l, v) == if Present(Leaf(mem, at, v)) then Leaf(mem, at, v) else 0
  {
    var k: Name := (l, Prefix(v, l));
    assert TableOk(mem, at, role, k);
    if l > 0 {
      assert EntryOk(mem, at, k, Digit(v, l));
      PrefixSplit(v, l);
      if (l - 1, Prefix(v, l - 1)) in at {
        WalkIsLeaf(root, mem, at, role, l - 1, v);
      } else if (0, Prefix(v, 0)) in at {
        Ancestor(root, mem, at, role, v, 0, l - 1);
      }
    }
  }

  /** The processor's walk of the tables computes exactly the finite map. */
  lemma TablesTranslate(root: nat, mem: Memory, at: map<Name, nat>, role: map<nat, Name>, pages: map<nat, nat>)
    requires Tables(root, mem, at, role) && Implements(mem, at, pages)
    ensures Translates(mem, root, pages) && Sealed(mem, root, pages)
  {
    forall v: nat | v < PAGES ensures Translated(mem, root, pages, v) && Unexposed(mem, root, pages, v) {
      assert PageOk(mem, at, pages, v);
      PrefixEnds(v);
      WalkIsLeaf(root, mem, at, role, 3, v);
    }
    forall v: nat ensures Translated(mem, root, pages, v) { assert PageOk(mem, at, pages, v); }
  }

  /** Every entry on the processor's walk to a page has a flag: bit 1 for writing, bit 2 for user
      mode.  The processor grants an access only then. */
  ghost predicate Grants(mem: Memory, f: nat, l: nat, v: nat, flag: nat)
    requires flag > 0
    decreases l
  {
    var e := Entry(mem, f, Digit(v, l));
    Present(e) && e / flag % 2 == 1 && (l == 0 || Grants(mem, e / 4096, l - 1, v, flag))
  }

  const WRITABLE := 2
  const USER := 4

  lemma {:induction false} GrantsFrom(root: nat, mem: Memory, at: map<Name, nat>, role: map<nat, Name>, l: nat, v: nat)
    requires Tables(root, mem, at, role) && l <= 3 && (l, Prefix(v, l)) in at && Present(Leaf(mem, at, v))
    ensures Grants(mem, at[(l, Prefix(v, l))], l, v, WRITABLE) <==> Leaf(mem, at, v) / 2 % 2 == 1
    ensures l > 0 ==> !Grants(mem, at[(l, Prefix(v, l))], l, v, USER)
  {
    var k: Name := (l, Prefix(v, l));
    assert TableOk(mem, at, role, k);
    if l > 0 {
      assert EntryOk(mem, at, k, Digit(v, l));
      PrefixSplit(v, l);
      Ancestor(root, mem, at, role, v, 0, l - 1);
      GrantsFrom(root, mem, at, role, l - 1, v);
    }
  }

  /** A mapped page can be written exactly if its leaf entry is writable.  None can be accessed from
      user mode, whatever flags it was mapped with, since the tables above it are not. */
  lemma GrantedExactly(root: nat, mem: Memory, at: map<Name, nat>, role: map<nat, Name>, pages: map<nat, nat>, v: nat)
    requires Tables(root, mem, at, role) && Implements(mem, at, pages) && v in pages
    ensures Grants(mem, root, 3, v, WRITABLE) <==> pages[v] / 2 % 2 == 1
    ensures !Grants(mem, root, 3, v, USER)
  {
    assert PageOk(mem, at, pages, v);
    PrefixEnds(v);
    GrantsFrom(root, mem, at, role, 3, v);
  }

  // ----- Between linking a table and clearing it -----

  /** Page v lies under table b. */
  ghost predicate Under(b: Name, v: nat) {
    Prefix(v, b.0) == b.1
  }

  ghost predicate LinkedTable(mem': Memory, mem: Memory, at: map<Name, nat>, k: Name, i: nat, f: nat, n: Name)
    requires n in at
  {
    && at[n] in mem && at[n] in mem' && |mem[at[n]]| == |mem'[at[n]]|
    && forall j :: 0 <= j < |mem[at[n]]| ==>
         mem'[at[n]][j] == if n == k && j == i then f * 4096 + 3 else mem[at[n]][j]
  }

  /** The tables in mem' are those in mem, but for entry i of table k, which links frame f. */
  ghost predicate Linked(mem': Memory, mem: Memory, at: map<Name, nat>, k: Name, i: nat, f: nat) {
    forall n {:trigger LinkedTable(mem', mem, at, k, i, f, n)} :: n in at ==> LinkedTable(mem', mem, at, k, i, f, n)
  }

  /** Below the level of the linking table every walk is as before. */
  lemma {:induction false} LinkedBelow(root: nat, mem': Memory, mem: Memory, at: map<Name, nat>, role: map<nat, Name>,
                                       k: Name, i: nat, f: nat, l: nat, v: nat)
    requires Hangable(root, mem, at, role, k, i, f) && Linked(mem', mem, at, k, i, f)
    requires l < k.0 && (l, Prefix(v, l)) in at
    ensures WalkFrom(mem', at[(l, Prefix(v, l))], l, v) == WalkFrom(mem, at[(l, Prefix(v, l))], l, v)
  {
    var n: Name := (l, Prefix(v, l));
    assert LinkedTable(mem', mem, at, k, i, f, n) && TableOk(mem, at, role, n);
    if l > 0 {
      assert EntryOk(mem, at, n, Digit(v, l));
      PrefixSplit(v, l);
      if (l - 1, Prefix(v, l - 1)) in at { LinkedBelow(root, mem', mem, at, role, k, i, f, l - 1, v); }
    }
  }

  lemma LinkedHere(root: nat, mem': Memory, mem: Memory, at: map<Name, nat>, role: map<nat, Name>,
                   k: Name, i: nat, f: nat, v: nat)
    requires Hangable(root, mem, at, role, k, i, f) && Linked(mem', mem, at, k, i, f) && (k.0, Prefix(v, k.0)) in at
    ensures WalkFrom(mem', at[(k.0, Prefix(v, k.0))], k.0, v) ==
            if Under((k.0 - 1, k.1 * 512 + i), v) then WalkFrom(mem', f, k.0 - 1, v)
            else WalkFrom(mem, at[(k.0, Prefix(v, k.0))], k.0, v)
  {
    var n: Name := (k.0, Prefix(v, k.0));
    assert LinkedTable(mem', mem, at, k, i, f, n) && TableOk(mem, at, role, n);
    assert EntryOk(mem, at, n, Digit(v, k.0));
    PrefixSplit(v, k.0);
    if Under((k.0 - 1, k.1 * 512 + i), v) {
      TableEntryBits(f);
    } else if (k.0 - 1, Prefix(v, k.0 - 1)) in at {
      LinkedBelow(root, mem', mem, at, role, k, i, f, k.0 - 1, v);
    }
  }

  /** Whatever frame f holds, linking it redirects the walks of the pages under the new table
      into f and leaves every other walk alone. */
  lemma {:induction false} LinkedWalk(root: nat, mem': Memory, mem: Memory, at: map<Name, nat>, role: map<nat, Name>,
                                      k: Name, i: nat, f: nat, l: nat, v: nat)
    requires Hangable(root, mem, at, role, k, i, f) && Linked(mem', mem, at, k, i, f)
    requires k.0 <= l <= 3 && (l, Prefix(v, l)) in at
    ensures WalkFrom(mem', at[(l, Prefix(v, l))], l, v) ==
            if Under((k.0 - 1, k.1 * 512 + i), v) then WalkFrom(mem', f, k.0 - 1, v)
            else WalkFrom(mem, at[(l, Prefix(v, l))], l, v)
  {
    if l == k.0 {
      LinkedHere(root, mem', mem, at, role, k, i, f, v);
    } else {
      var n: Name := (l, Prefix(v, l));
      assert LinkedTable(mem', mem, at, k, i, f, n) && TableOk(mem, at, role, n);
      assert EntryOk(mem, at, n, Digit(v, l));
      PrefixSplit(v, l);
      if (l - 1, Prefix(v, l - 1)) in at {
        LinkedWalk(root, mem', mem, at, role, k, i, f, l - 1, v);
      } else if Under((k.0 - 1, k.1 * 512 + i), v) {
        PrefixSplit(v, k.0);
        Ancestor(root, mem, at, role, v, k.0, l - 1);
      }
    }
  }

  /** Nothing mapped lies under a table that does not exist yet. */
  lemma NothingUnder(root: nat, mem: Memory, at: map<Name, nat>, role: map<nat, Name>, b: Name, pages: map<nat, nat>, v: nat)
    requires Tables(root, mem, at, role) && Implements(mem, at, pages) && b !in at && b.0 <= 3 && Under(b, v)
    ensures v !in pages
  {
    assert PageOk(mem, at, pages, v);
    if (0, v / 512) in at { Ancestor(root, mem, at, role, v, 0, b.0); }
  }

  /** Mapped pages translate throughout. */
  lemma LinkedTranslates(root: nat, mem': Memory, mem: Memory, at: map<Name, nat>, role: map<nat, Name>,
                         k: Name, i: nat, f: nat, pages: map<nat, nat>)
    requires Hangable(root, mem, at, role, k, i, f) && Linked(mem', mem, at, k, i, f) && Implements(mem, at, pages)
    ensures Translates(mem', root, pages)
  {
    TablesTranslate(root, mem, at, role, pages);
    var b: Name := (k.0 - 1, k.1 * 512 + i);
    assert b !in at;
    forall v: nat ensures Translated(mem', root, pages, v) {
      if v in pages {
        assert PageOk(mem, at, pages, v) && Translated(mem, root, pages, v);
        PrefixEnds(v);
        LinkedWalk(root, mem', mem, at, role, k, i, f, 3, v);
        if Under(b, v) { NothingUnder(root, mem, at, role, b, pages, v); }
      }
    }
  }

  /** Frame f holds no present entry. */
  ghost predicate Blank(mem: Memory, f: nat) {
    forall i: nat {:trigger Entry(mem, f, i)} :: i < 512 ==> !Present(Entry(mem, f, i))
  }

  /** Frame f, read as table b, maps some page. */
  ghost predicate Exposes(mem: Memory, f: nat, b: Name) {
    exists v: nat {:trigger Under(b, v)} :: v < PAGES && Under(b, v) && WalkFrom(mem, f, b.0, v) != 0
  }

  /** While a frame is linked but not cleared, the processor finds no unmapped page exactly if
      the frame's old contents, read as a table, map nothing. */
  lemma LinkedSealed(root: nat, mem': Memory, mem: Memory, at: map<Name, nat>, role: map<nat, Name>,
                     k: Name, i: nat, f: nat, pages: map<nat, nat>)
    requires Hangable(root, mem, at, role, k, i, f) && Linked(mem', mem, at, k, i, f) && Implements(mem, at, pages)
    ensures Sealed(mem', root, pages) <==> !Exposes(mem', f, (k.0 - 1, k.1 * 512 + i))
    ensures Blank(mem', f) ==> Sealed(mem', root, pages)
  {
    TablesTranslate(root, mem, at, role, pages);
    var b: Name := (k.0 - 1, k.1 * 512 + i);
    assert b !in at;
    forall v: nat | v < PAGES
      ensures Walk(mem', root, v) == if Under(b, v) then WalkFrom(mem', f, b.0, v) else Walk(mem, root, v)
      ensures Under(b, v) ==> v !in pages
    {
      PrefixEnds(v);
      LinkedWalk(root, mem', mem, at, role, k, i, f, 3, v);
      if Under(b, v) { NothingUnder(root, mem, at, role, b, pages, v); }
    }
    if v: nat :| v < PAGES && Under(b, v) && WalkFrom(mem', f, b.0, v) != 0 {
      assert !Unexposed(mem', root, pages, v);
    } else {
      forall v: nat ensures Unexposed(mem', root, pages, v) { assert Unexposed(mem, root, pages, v); }
    }
    if Blank(mem', f) {
      forall v: nat | Under(b, v) ensures WalkFrom(mem', f, b.0, v) == 0 { assert !Present(Entry(mem', f, Digit(v, b.0))); }
    }
  }

  /** For a page table, any present entry left in the frame shows: the processor can cache a
      translation for a page that is not mapped, and invalidating another page leaves it there. */
  lemma StaleEntryShows(root: nat, mem: Memory, at: map<Name, nat>, role: map<nat, Name>,
                        p: nat, i: nat, f: nat, pages: map<nat, nat>, j: nat, w: nat)
    requires Hangable(root, mem, at, role, (1, p), i, f) && Implements(mem, at, pages)
    requires f in mem && |mem[f]| == 512 && j < 512 && Present(mem[f][j])
    ensures var mem' := Store(mem, at[(1, p)], i, f * 4096 + 3); var v := (p * 512 + i) * 512 + j;
            && v < PAGES && v !in pages && Walk(mem', root, v) == mem[f][j]
            && (w != v ==> v in map[v := Walk(mem', root, v)] - {w})
    ensures Exposes(Store(mem, at[(1, p)], i, f * 4096 + 3), f, (0, p * 512 + i))
  {
    var k: Name := (1, p);
    var b: Name := (0, p * 512 + i);
    var mem' := Store(mem, at[k], i, f * 4096 + 3);
    var v := (p * 512 + i) * 512 + j;
    assert Prefix(v, 0) == p * 512 + i && Prefix(v, 1) == p;
    Ancestor(root, mem, at, role, v, 1, 3);
    assert TableOk(mem, at, role, (3, Prefix(v, 3)));
    PrefixEnds(v);
    LinkedByStore(root, mem, at, role, k, i, f);
    LinkedWalk(root, mem', mem, at, role, k, i, f, 3, v);
    NothingUnder(root, mem, at, role, b, pages, v);
    assert Under(b, v) && WalkFrom(mem', f, 0, v) == mem[f][j];
  }

  lemma LinkedByStore(root: nat, mem: Memory, at: map<Name, nat>, role: map<nat, Name>, k: Name, i: nat, f: nat)
    requires Hangable(root, mem, at, role, k, i, f)
    ensures Linked(Store(mem, at[k], i, f * 4096 + 3), mem, at, k, i, f)
  {
    var mem' := Store(mem, at[k], i, f * 4096 + 3);
    forall n | n in at ensures LinkedTable(mem', mem, at, k, i, f, n) {
      assert TableOk(mem, at, role, n);
      if n != k { FramesDiffer(root, mem, at, role, n, k); }
    }
  }

  /** mem with the first n entries of frame f cleared. */
  ghost function Cleared(mem: Memory, f: nat, n: nat): (r: Memory)
    requires f in mem && n <= |mem[f]|
    ensures r.Keys == mem.Keys && |r[f]| == |mem[f]|
  {
    var t: seq<nat> := seq(|mem[f]|, j requires 0 <= j < |mem[f]| => if j < n then 0 else mem[f][j]);
    mem[f := t]
  }

  lemma ClearedOneMore(mem: Memory, f: nat, n: nat)
    requires f in mem && n < |mem[f]|
    ensures Cleared(mem, f, n + 1) == Store(Cleared(mem, f, n), f, n, 0)
    ensures Cleared(mem, f, 0) == mem
  {
    assert Cleared(mem, f, n + 1)[f] == Store(Cleared(mem, f, n), f, n, 0)[f];
    assert Cleared(mem, f, 0)[f] == mem[f];
  }

  /** Clearing the new table, which no table's frame is, keeps the memory linked. */
  lemma ClearedLinked(mem': Memory, mem: Memory, at: map<Name, nat>, k: Name, i: nat, f: nat, n: nat)
    requires Linked(mem', mem, at, k, i, f) && f in mem' && n <= |mem'[f]| && forall m :: m in at ==> at[m] != f
    ensures Linked(Cleared(mem', f, n), mem, at, k, i, f)
    ensures Blank(mem', f) ==> Blank(Cleared(mem', f, n), f)
  {
    forall m | m in at ensures LinkedTable(Cleared(mem', f, n), mem, at, k, i, f, m) {
      assert LinkedTable(mem', mem, at, k, i, f, m);
    }
    if Blank(mem', f) {
      forall j: nat | j < 512 ensures !Present(Entry(Cleared(mem', f, n), f, j)) { assert !Present(Entry(mem', f, j)); }
    }
  }

  lemma ClearedIsHung(mem: Memory, s: nat, i: nat, f: nat)
    requires s in mem && i < |mem[s]| && s != f && f in mem && |mem[f]| == 512
    ensures Cleared(Store(mem, s, i, f * 4096 + 3), f, 512) == HangAt(mem, s, i, f)
  {
    assert Cleared(Store(mem, s, i, f * 4096 + 3), f, 512)[f] == EmptyTable();
  }

  // ----- A walk carried out on other frames -----

  ghost predicate LeadsOn(mem: Memory, ss: seq<nat>, top: nat, v: nat, i: nat) {
    i + 1 < |ss| && i <= top ==> var e := Entry(mem, ss[i], Digit(v, top - i)); Present(e) && e / 4096 == ss[i + 1]
  }

  /** Different frames, the first read as a level-top table, of which each leads to the next on the
      way to page v; the last has no entry for v unless it is read as a page table. */
  ghost predicate Chain(mem: Memory, ss: seq<nat>, top: nat, v: nat) {
    && 0 < |ss| <= top + 1 && Distinct(ss)
    && (forall i: nat {:trigger LeadsOn(mem, ss, top, v, i)} :: LeadsOn(mem, ss, top, v, i))
    && (|ss| <= top ==> !Present(Entry(mem, ss[|ss| - 1], Digit(v, top + 1 - |ss|))))
  }

  /** A new, empty table makes it longer. */
  lemma ChainGrows(mem: Memory, ss: seq<nat>, top: nat, v: nat, child: nat)
    requires Chain(mem, ss, top, v) && |ss| <= top && child !in ss
    requires var s := ss[|ss| - 1]; s in mem && Digit(v, top + 1 - |ss|) < |mem[s]|
    ensures Chain(HangAt(mem, ss[|ss| - 1], Digit(v, top + 1 - |ss|), child), ss + [child], top, v)
  {
    var s, i := ss[|ss| - 1], Digit(v, top + 1 - |ss|);
    var mem', ss' := HangAt(mem, s, i, child), ss + [child];
    TableEntryBits(child);
    forall j: nat ensures LeadsOn(mem', ss', top, v, j) {
      assert LeadsOn(mem, ss, top, v, j);
      if j + 1 < |ss| { assert ss[j] != s && ss[j] in ss; }
    }
  }

  /** Writing the page table at its end keeps it, for every page of that table. */
  lemma ChainStays(mem: Memory, ss: seq<nat>, top: nat, v: nat, v': nat, i: nat, e: nat)
    requires Chain(mem, ss, top, v) && |ss| == top + 1 && Prefix(v', 0) == Prefix(v, 0)
    requires ss[top] in mem && i < |mem[ss[top]]|
    ensures Chain(Store(mem, ss[top], i, e), ss, top, v')
  {
    var mem' := Store(mem, ss[top], i, e);
    forall j: nat ensures LeadsOn(mem', ss, top, v', j) {
      assert LeadsOn(mem, ss, top, v, j);
      if j + 1 < |ss| { assert ss[j] != ss[top]; SamePath(v, v', top - j); }
    }
  }

  lemma {:induction false} SamePath(v: nat, v': nat, l: nat)
    requires Prefix(v', 0) == Prefix(v, 0)
    ensures Prefix(v', l) == Prefix(v, l) && (l > 0 ==> Digit(v', l) == Digit(v, l))
  {
    if l > 0 { SamePath(v, v', l - 1); }
  }

  // ----- Where new tables go when frames are handed out in order -----

  /** The frames of the tables, and the next frame to be handed out. */
  datatype Layout = Layout(at: map<Name, nat>, next: nat)

  /** Table c, put in the next frame unless it exists. */
  ghost function Place(y: Layout, c: Name): Layout {
    if c in y.at then y else Layout(y.at[c := y.next], y.next + 1)
  }

  /** The tables on the way to page v, made from the top down, to level l. */
  ghost function PlaceDown(y: Layout, v: nat, l: nat): Layout
    decreases 3 - l, v
  {
    if l >= 3 then y else Place(PlaceDown(y, v, l + 1), (l, Prefix(v, l)))
  }

  ghost function PlacePath(y: Layout, v: nat): Layout {
    PlaceDown(y, v, 0)
  }

  /** The same for count pages in a row. */
  ghost function PlaceRange(y: Layout, virt: nat, count: nat): Layout
    decreases count, y.next
  {
    if count == 0 then y else PlacePath(PlaceRange(y, virt, count - 1), Vpn(Nth(virt, count - 1)))
  }

  // ----- What a run of calls computes -----

  datatype Op =
    | Map(virt: nat, phys: nat, flags: nat)
    | Unmap(virt: nat)
    | MapRange(virt: nat, phys: nat, count: nat, flags: nat)
    | UnmapRange(virt: nat, count: nat)
    | Protect(virt: nat, flags: nat)

  ghost function Mapped(pages: map<nat, nat>, virt: nat, phys: nat, count: nat, flags: nat): map<nat, nat> {
    if count == 0 then pages
    else Mapped(pages, virt, phys, count - 1, flags)
         [Vpn(Nth(virt, count - 1)) := LeafEntry(Nth(phys, count - 1), flags)]
  }

  ghost function Unmapped(pages: map<nat, nat>, virt: nat, count: nat): map<nat, nat> {
    if count == 0 then pages else Unmapped(pages, virt, count - 1) - {Vpn(Nth(virt, count - 1))}
  }

  /** The address i pages after a, in 64-bit arithmetic. */
  function Nth(a: nat, i: nat): nat {
    (a + i * 4096) % WORD
  }

  /** A page is protectable unless it is unmapped or its address translates to 0. */
  ghost predicate Protectable(pages: map<nat, nat>, virt: nat) {
    Vpn(virt) in pages && !(pages[Vpn(virt)] / 4096 == 0 && virt % 4096 == 0)
  }

  ghost function Effect(pages: map<nat, nat>, op: Op): map<nat, nat> {
    match op
    case Map(virt, phys, flags) => pages[Vpn(virt) := LeafEntry(phys, flags)]
    case Unmap(virt) => pages - {Vpn(virt)}
    case MapRange(virt, phys, count, flags) => Mapped(pages, virt, phys, count, flags)
    case UnmapRange(virt, count) => Unmapped(pages, virt, count)
    case Protect(virt, flags) =>
      if Protectable(pages, virt) then pages[Vpn(virt) := LeafEntry(pages[Vpn(virt)], flags)] else pages
  }

  ghost function Effects(pages: map<nat, nat>, ops: seq<Op>): map<nat, nat> {
    if ops == [] then pages else Effect(Effects(pages, ops[..|ops| - 1]), ops[|ops| - 1])
  }

  lemma PageOfWrapped(a: nat)
    ensures a % WORD / 4096 == a / 4096 - a / WORD * 0x10_0000_0000_0000
  {
    var q, r := a / WORD, a % WORD;
    assert a == (q * 0x10_0000_0000_0000 + r / 4096) * 4096 + r % 4096;
  }

  lemma PageNumberWraps(x: nat, q: nat)
    requires q * 0x10_0000_0000_0000 <= x
    ensures (x - q * 0x10_0000_0000_0000) % PAGES == x % PAGES
  {
    var m, r := x / PAGES, x % PAGES;
    assert x - q * 0x10_0000_0000_0000 == (m - q * 0x1_0000) * PAGES + r;
  }

  lemma VpnOfNth(virt: nat, i: nat)
    ensures Vpn(Nth(virt, i)) == (Vpn(virt) + i) % PAGES
  {
    var a := virt + i * 4096;
    assert a / 4096 == virt / 4096 + i;
    PageOfWrapped(a);
    PageNumberWraps(a / 4096, a / WORD);
  }

  lemma WrapIndex(a: nat, v: nat, c: nat)
    requires a < PAGES && v < PAGES && c < PAGES
    ensures (a + c) % PAGES == v <==> (v - a) % PAGES == c
  {
    assert (a + c) % PAGES == if a + c < PAGES then a + c else a + c - PAGES;
    assert (v - a) % PAGES == if a <= v then v - a else v - a + PAGES;
  }

  /** A range of at most 2^36 pages maps page i of the range to physical page i, modulo
      wrap-around, and nothing else. */
  lemma {:induction false} MappedPointwise(pages: map<nat, nat>, virt: nat, phys: nat, count: nat, flags: nat, v: nat)
    requires count <= PAGES && v < PAGES
    ensures var m := Mapped(pages, virt, phys, count, flags); var i := (v - Vpn(virt)) % PAGES;
            if i < count then v in m && m[v] == LeafEntry(Nth(phys, i), flags)
            else (v in m <==> v in pages) && (v in m ==> m[v] == pages[v])
  {
    if count > 0 {
      MappedPointwise(pages, virt, phys, count - 1, flags, v);
      VpnOfNth(virt, count - 1);
      WrapIndex(Vpn(virt), v, count - 1);
    }
  }

  lemma {:induction false} UnmappedPointwise(pages: map<nat, nat>, virt: nat, count: nat, v: nat)
    requires count <= PAGES && v < PAGES
    ensures var m := Unmapped(pages, virt, count); var i := (v - Vpn(virt)) % PAGES;
            if i < count then v !in m
            else (v in m <==> v in pages) && (v in m ==> m[v] == pages[v])
  {
    if count > 0 {
      UnmappedPointwise(pages, virt, count - 1, v);
      VpnOfNth(virt, count - 1);
      WrapIndex(Vpn(virt), v, count - 1);
    }
  }

  // ----- The direct map -----

  const KERNEL_VBASE := 0xFFFF_FFFF_8000_0000
  const DIRECT := 0xF_FFF8_0000           // its page number
  const DIRECT_PAGES := 0x4_0000          // the first GiB, which boot maps at KERNEL_VBASE and vmm_init maps again

  /** The page at which the kernel addresses frame f. */
  function DirectPage(f: nat): nat {
    (DIRECT + f) % PAGES
  }

  /** It is the page of f * 4096 + KERNEL_VBASE. */
  lemma DirectPageAt(f: nat)
    ensures Vpn(Nth(KERNEL_VBASE, f)) == DirectPage(f)
  {
    assert Vpn(KERNEL_VBASE) == DIRECT;
    VpnOfNth(KERNEL_VBASE, f);
  }

  lemma DirectPagesDiffer(f: nat, g: nat)
    requires f < PAGES && g < PAGES && DirectPage(f) == DirectPage(g)
    ensures f == g
  {
    WrapIndex(DIRECT, DirectPage(f), f);
    WrapIndex(DIRECT, DirectPage(f), g);
  }

  /** Reads and writes at the direct-map page of frame f go to frame f.  Until the new tables are
      loaded the boot tables serve the first GiB; from then on these same tables decide. */
  ghost predicate Reached(loaded: bool, pages: map<nat, nat>, f: nat) {
    if loaded then DirectPage(f) in pages && pages[DirectPage(f)] / 4096 == f else f < DIRECT_PAGES
  }

  ghost predicate AllReached(loaded: bool, pages: map<nat, nat>, z: set<nat>) {
    forall f {:trigger Reached(loaded, pages, f)} :: f in z ==> Reached(loaded, pages, f)
  }

  /** Mapping virt to phys takes no frame of z out of the direct map. */
  ghost predicate MapSpares(z: set<nat>, virt: nat, phys: nat) {
    forall f {:trigger DirectPage(f)} :: f in z && DirectPage(f) == Vpn(virt) ==> phys / 4096 == f
  }

  ghost predicate UnmapSpares(z: set<nat>, virt: nat) {
    forall f {:trigger DirectPage(f)} :: f in z ==> DirectPage(f) != Vpn(virt)
  }

  /** The direct-map page of frame f is that of no other frame. */
  lemma SparesFrame(z: set<nat>, f: nat, phys: nat)
    requires f < PAGES && forall g :: g in z ==> g < PAGES
    ensures UnmapSpares(z, Nth(KERNEL_VBASE, f)) <==> f !in z
    ensures MapSpares(z, Nth(KERNEL_VBASE, f), phys) <==> f !in z || phys / 4096 == f
  {
    DirectPageAt(f);
    forall g | g in z && DirectPage(g) == DirectPage(f) ensures g == f { DirectPagesDiffer(f, g); }
  }

  /** Mapping or unmapping a page leaves the frames of z reachable exactly if the page is the
      direct-map page of none of them, or is mapped to that very frame. */
  lemma SparedExactly(pages: map<nat, nat>, z: set<nat>, virt: nat, phys: nat, flags: nat)
    requires AllReached(true, pages, z)
    ensures AllReached(true, pages[Vpn(virt) := LeafEntry(phys, flags)], z) <==> MapSpares(z, virt, phys)
    ensures AllReached(true, pages - {Vpn(virt)}, z) <==> UnmapSpares(z, virt)
  {
    var v, e := Vpn(virt), LeafEntry(phys, flags);
    forall f | f in z
      ensures Reached(true, pages[v := e], f) <==> (DirectPage(f) == v ==> phys / 4096 == f)
      ensures Reached(true, pages - {v}, f) <==> DirectPage(f) != v
    {
      assert Reached(true, pages, f);
    }
    if AllReached(true, pages[v := e], z) {
      forall f | f in z && DirectPage(f) == v ensures phys / 4096 == f { assert Reached(true, pages[v := e], f); }
    }
    if AllReached(true, pages - {v}, z) {
      forall f | f in z ensures DirectPage(f) != v { assert Reached(true, pages - {v}, f); }
    }
  }

  /** Mapping the PML4's own direct-map page elsewhere makes the next call read the PML4 from
      the wrong frame. */
  lemma MapHidesRoot(pages: map<nat, nat>, root: nat, other: nat, flags: nat)
    requires other / 4096 != root
    ensures var pages' := Effect(pages, Map(Nth(KERNEL_VBASE, root), other, flags));
            && !Reached(true, pages', root)
            && DirectPage(root) in pages' && pages'[DirectPage(root)] / 4096 == other / 4096
  {
    DirectPageAt(root);
  }

  /** No page of the call is the direct-map page of a frame in z, unless it is mapped to it. */
  ghost predicate Spares(z: set<nat>, op: Op) {
    match op
    case Map(virt, phys, _) => MapSpares(z, virt, phys)
    case Unmap(virt) => UnmapSpares(z, virt)
    case MapRange(virt, phys, count, _) =>
      forall i: nat {:trigger Nth(virt, i)} :: i < count ==> MapSpares(z, Nth(virt, i), Nth(phys, i))
    case UnmapRange(virt, count) =>
      forall i: nat {:trigger Nth(virt, i)} :: i < count ==> UnmapSpares(z, Nth(virt, i))
    case Protect(virt, _) => UnmapSpares(z, virt)
  }

  lemma SparesEach(z: set<nat>, virt: nat, phys: nat, count: nat, flags: nat, i: nat)
    requires Spares(z, MapRange(virt, phys, count, flags)) && i < count
    ensures Spares(z, Map(Nth(virt, i), Nth(phys, i), flags))
  {
  }

  // ----- What vmm_init builds -----

  ghost predicate TwiceAt(pages: map<nat, nat>, n: nat, v: nat) {
    && (v in pages <==> v < n || DIRECT <= v < DIRECT + n)
    && (v in pages ==> pages[v] / 4096 == (if v < n then v else v - DIRECT) && pages[v] % 4096 == 3)
  }

  /** The first n frames are mapped at 0 and at KERNEL_VBASE, present and writable, and nothing else
      is. */
  ghost predicate TwiceMapped(pages: map<nat, nat>, n: nat) {
    forall v: nat {:trigger TwiceAt(pages, n, v)} :: v < PAGES ==> TwiceAt(pages, n, v)
  }

  ghost function BootTables(root: nat, n: nat): Layout {
    PlaceRange(PlaceRange(Layout(map[(3, 0) := root], root + 1), 0, n), KERNEL_VBASE, n)
  }

  /** MappedPointwise for a given page i of the range, which is page v. */
  lemma MappedAt(pages: map<nat, nat>, virt: nat, phys: nat, count: nat, flags: nat, v: nat, base: nat, i: nat, p: nat)
    requires count <= PAGES && v < PAGES && i < PAGES && base == Vpn(virt) && (base + i == v || base + i == v + PAGES)
    requires p == Nth(phys, i) / 4096
    ensures var m := Mapped(pages, virt, phys, count, flags);
            if i < count then v in m && m[v] / 4096 == p && m[v] % 4096 == LeafEntry(0, flags)
            else (v in m <==> v in pages) && (v in m ==> m[v] == pages[v])
  {
    MappedPointwise(pages, virt, phys, count, flags, v);
    WrapIndex(base, v, i);
  }

  lemma MappingOnce(n: nat, flags: nat, v: nat)
    requires n <= 0x8_0000 && v < PAGES
    ensures var low := Mapped(map[], 0, 0, n, flags);
            (v in low <==> v < n) && (v in low ==> low[v] / 4096 == v && low[v] % 4096 == LeafEntry(0, flags))
  {
    NthFromZero(v);
    MappedAt(map[], 0, 0, n, flags, v, 0, v, v);
  }

  lemma MappingAgain(low: map<nat, nat>, n: nat, flags: nat, v: nat)
    requires n <= 0x8_0000 && v < PAGES
    ensures var m := Mapped(low, KERNEL_VBASE, 0, n, flags);
            if DIRECT <= v < DIRECT + n then v in m && m[v] / 4096 == v - DIRECT && m[v] % 4096 == LeafEntry(0, flags)
            else (v in m <==> v in low) && (v in m ==> m[v] == low[v])
  {
    var i := if DIRECT <= v then v - DIRECT else v + PAGES - DIRECT;
    NthFromZero(i);
    MappedAt(low, KERNEL_VBASE, 0, n, flags, v, DIRECT, i, i);
  }

  lemma MappingTwice(n: nat, flags: nat)
    requires n <= 0x8_0000 && flags % 4096 / 2 == 1
    ensures TwiceMapped(Mapped(Mapped(map[], 0, 0, n, flags), KERNEL_VBASE, 0, n, flags), n)
  {
    var low := Mapped(map[], 0, 0, n, flags);
    forall v: nat | v < PAGES ensures TwiceAt(Mapped(low, KERNEL_VBASE, 0, n, flags), n, v) {
      MappingOnce(n, flags, v);
      MappingAgain(low, n, flags, v);
    }
  }

  lemma NthFromZero(i: nat)
    requires i < PAGES
    ensures Nth(0, i) / 4096 == i
  {
  }

  /** Such a map is its own direct map of those frames. */
  lemma TwiceReaches(pages: map<nat, nat>, n: nat, z: set<nat>)
    requires TwiceMapped(pages, n) && n <= 0x8_0000 && forall f :: f in z ==> f < n
    ensures AllReached(true, pages, z)
  {
    forall f | f in z ensures Reached(true, pages, f) { assert TwiceAt(pages, n, DirectPage(f)); }
  }

  lemma ReachedAtBoot(pages: map<nat, nat>, z: set<nat>)
    requires AllReached(false, pages, z)
    ensures forall f :: f in z ==> f < DIRECT_PAGES
  {
    forall f | f in z ensures f < DIRECT_PAGES { assert Reached(false, pages, f); }
  }
}
