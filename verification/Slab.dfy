/** The slab allocator of lib/slab.c.  A slab is one page: a 48-byte header and as many objects as
    fit behind it.  Free objects hold the free list in their first word, `word` is memory read at
    those words, and three singly linked lists hold the full, partial and fresh slabs. */
module Slab {
  import opened Arith
  import opened Common
  import Pmm

  const VBASE := 0xFFFF_FFFF_8000_0000
  const PAGE := 4096
  const HEADER := 48
  const MIN_SIZE := 8
  const MAX_SIZE := PAGE - HEADER

  datatype Header = Header(next: nat, freeList: nat, memory: nat, count: nat, used: nat)

  type Slabs = map<nat, Header>
  type Words = map<nat, nat>
  type Stacks = map<nat, seq<nat>>

  // ----- Objects inside slabs -----

  /** The address of object k of the slab at a. */
  function Slot(a: nat, size: nat, k: nat): nat {
    a + HEADER + k * size
  }

  ghost function SlotAt(a: nat, size: nat, st: seq<nat>, i: nat): nat {
    if i < |st| then Slot(a, size, st[i]) else 0
  }

  ghost predicate SizeOk(size: nat) {
    MIN_SIZE <= size <= MAX_SIZE
  }

  function Count(size: nat): nat
    requires size > 0
  {
    MAX_SIZE / size
  }

  /** As many objects as fit behind the header of a page. */
  lemma CountIsMost(size: nat)
    requires size > 0
    ensures Count(size) * size <= PAGE - HEADER < (Count(size) + 1) * size
  {
    assert MAX_SIZE == Count(size) * size + MAX_SIZE % size;
    assert (Count(size) + 1) * size == Count(size) * size + size;
  }

  /** n pages of slabs have room for `total` objects and no more. */
  lemma TotalIsMost(size: nat, n: nat, f: nat, p: nat, u: nat, total: nat)
    requires size > 0 && n == f + p + u && total == f * Count(size) + p * Count(size) + u * Count(size)
    ensures total * size <= n * (PAGE - HEADER) && (n > 0 ==> n * (PAGE - HEADER) < total * size + n * size)
  {
    CountIsMost(size);
    var c := Count(size);
    assert total == n * c;
    assert total * size == n * (c * size);
    assert n * (PAGE - HEADER - c * size) == n * (PAGE - HEADER) - n * (c * size);
    assert n * (PAGE - HEADER - c * size) >= 0;
    if n > 0 { assert n * (size - (PAGE - HEADER - c * size)) > 0; }
  }

  /** An object lies inside its page, behind the header. */
  lemma SlotInPage(a: nat, size: nat, k: nat)
    requires SizeOk(size) && k < Count(size)
    ensures a + HEADER <= Slot(a, size, k) && Slot(a, size, k) + size <= a + PAGE
  {
    var c := Count(size);
    MulBound(c - k, size);
    assert (c - k) * size == c * size - k * size;
    assert c * size <= MAX_SIZE;
    MulNonNegative(k, size);
  }

  lemma MulNonNegative(x: nat, y: nat)
    ensures x * y >= 0
  {
  }

  ghost predicate PageStart(a: nat) {
    a >= VBASE && (a - VBASE) % PAGE == 0
  }

  /** The PMM has handed out the page at a. */
  ghost predicate PageTaken(bits: seq<bool>, a: nat) {
    a >= VBASE && (a - VBASE) / PAGE < |bits| && bits[(a - VBASE) / PAGE]
  }

  lemma PagesApart(a: nat, b: nat)
    requires PageStart(a) && PageStart(b) && a != b
    ensures a + PAGE <= b || b + PAGE <= a
  {
    var i, j := (a - VBASE) / PAGE, (b - VBASE) / PAGE;
    assert a == VBASE + i * PAGE && b == VBASE + j * PAGE;
  }

  /** Distinct objects do not overlap, in one slab or in two. */
  lemma SlotsApart(a: nat, k: nat, b: nat, j: nat, size: nat)
    requires SizeOk(size) && k < Count(size) && j < Count(size) && (a != b || k != j)
    requires PageStart(a) && PageStart(b)
    ensures Slot(a, size, k) + size <= Slot(b, size, j) || Slot(b, size, j) + size <= Slot(a, size, k)
  {
    SlotInPage(a, size, k);
    SlotInPage(b, size, j);
    if a == b {
      MulBound(k - j, size);
      assert (k - j) * size == k * size - j * size;
    } else {
      PagesApart(a, b);
    }
  }

  // ----- One slab -----

  ghost predicate WordOk(word: Words, a: nat, size: nat, st: seq<nat>, i: nat)
    requires i < |st|
  {
    var o := Slot(a, size, st[i]);
    o in word && word[o] == SlotAt(a, size, st, i + 1)
  }

  /** The free objects of the slab at a are exactly `st`, threaded through their first words in
      that order, and the remaining ones are counted by `used`. */
  ghost predicate StackOk(h: Header, word: Words, a: nat, size: nat, st: seq<nat>) {
    && |st| + h.used == h.count && Distinct(st) && (forall i :: 0 <= i < |st| ==> st[i] < h.count)
    && h.freeList == SlotAt(a, size, st, 0)
    && (forall i: nat {:trigger WordOk(word, a, size, st, i)} :: i < |st| ==> WordOk(word, a, size, st, i))
  }

  ghost predicate SlabOk(slabs: Slabs, word: Words, stack: Stacks, bits: seq<bool>, size: nat, a: nat)
    requires size > 0
  {
    && a in slabs && a in stack && PageStart(a)
    && PageTaken(bits, a)
    && slabs[a].memory == a + HEADER && slabs[a].count == Count(size)
    && StackOk(slabs[a], word, a, size, stack[a])
  }

  // ----- The lists -----

  ghost predicate NextOk(slabs: Slabs, s: seq<nat>, i: nat)
    requires i < |s|
  {
    s[i] != 0 && s[i] in slabs && slabs[s[i]].next == At(s, i + 1)
  }

  ghost predicate Chain(slabs: Slabs, head: nat, s: seq<nat>) {
    head == At(s, 0) && forall i: nat {:trigger NextOk(slabs, s, i)} :: i < |s| ==> NextOk(slabs, s, i)
  }

  /** A slab is on exactly one list, and on the full list exactly when all its objects are used;
      slab x may be on its way there. */
  ghost predicate SlabPlaced(slabs: Slabs, full: seq<nat>, partial: seq<nat>, unused: seq<nat>, x: nat, a: nat)
    requires a in slabs
  {
    && (if a in full then a !in partial && a !in unused else (a in partial) != (a in unused))
    && (a != x ==> (a in full <==> slabs[a].used == slabs[a].count))
    && (a in unused ==> slabs[a].used == 0)
  }

  ghost predicate Placed(slabs: Slabs, full: seq<nat>, partial: seq<nat>, unused: seq<nat>, x: nat) {
    && 0 !in slabs && Distinct(full) && Distinct(partial) && Distinct(unused)
    && (forall a :: a in full || a in partial || a in unused ==> a in slabs)
    && (forall a {:trigger SlabPlaced(slabs, full, partial, unused, x, a)} :: a in slabs ==>
          SlabPlaced(slabs, full, partial, unused, x, a))
  }

  // ----- Live objects -----

  ghost predicate ObjectOk(slabs: Slabs, stack: Stacks, size: nat, live: map<nat, (nat, nat)>, o: nat)
    requires o in live
  {
    var (a, k) := live[o];
    a in slabs && a in stack && k < slabs[a].count && k !in stack[a] && o == Slot(a, size, k)
  }

  ghost predicate Held(slabs: Slabs, stack: Stacks, size: nat, live: map<nat, (nat, nat)>, a: nat, k: nat) {
    a in slabs && a in stack && k < slabs[a].count && k !in stack[a] ==>
      Slot(a, size, k) in live && live[Slot(a, size, k)] == (a, k)
  }

  /** live maps the address of each object in use to its slab and index. */
  ghost predicate Objects(slabs: Slabs, stack: Stacks, size: nat, live: map<nat, (nat, nat)>) {
    && (forall o {:trigger ObjectOk(slabs, stack, size, live, o)} :: o in live ==> ObjectOk(slabs, stack, size, live, o))
    && (forall a: nat, k: nat {:trigger Held(slabs, stack, size, live, a, k)} :: Held(slabs, stack, size, live, a, k))
  }

  ghost predicate AllSlabsOk(slabs: Slabs, word: Words, stack: Stacks, bits: seq<bool>, size: nat)
    requires size > 0
  {
    forall a {:trigger SlabOk(slabs, word, stack, bits, size, a)} :: a in slabs ==> SlabOk(slabs, word, stack, bits, size, a)
  }

  datatype State = State(slabs: Slabs, word: Words, stack: Stacks, live: map<nat, (nat, nat)>)

  ghost predicate Content(s: State, bits: seq<bool>, size: nat)
    requires size > 0
  {
    AllSlabsOk(s.slabs, s.word, s.stack, bits, size) && Objects(s.slabs, s.stack, size, s.live)
  }

  /** No two live objects overlap. */
  lemma LiveApart(slabs: Slabs, word: Words, stack: Stacks, bits: seq<bool>, size: nat, live: map<nat, (nat, nat)>, o: nat, p: nat)
    requires SizeOk(size) && AllSlabsOk(slabs, word, stack, bits, size) && Objects(slabs, stack, size, live)
    requires o in live && p in live && o != p
    ensures o + size <= p || p + size <= o
  {
    assert ObjectOk(slabs, stack, size, live, o) && ObjectOk(slabs, stack, size, live, p);
    var (a, k) := live[o];
    var (b, j) := live[p];
    assert SlabOk(slabs, word, stack, bits, size, a) && SlabOk(slabs, word, stack, bits, size, b);
    SlotsApart(a, k, b, j, size);
  }

  // ----- List surgery -----

  lemma ChainIgnores(slabs: Slabs, slabs': Slabs, head: nat, s: seq<nat>)
    requires Chain(slabs, head, s)
    requires forall a :: a in s && a in slabs ==> a in slabs' && slabs'[a].next == slabs[a].next
    ensures Chain(slabs', head, s)
  {
    forall i: nat | i < |s| ensures NextOk(slabs', s, i) { assert NextOk(slabs, s, i) && s[i] in s; }
  }

  lemma ChainTail(slabs: Slabs, head: nat, s: seq<nat>)
    requires Chain(slabs, head, s) && s != []
    ensures head == s[0] && head != 0 && head in slabs && Chain(slabs, slabs[head].next, s[1..])
  {
    assert NextOk(slabs, s, 0);
    forall i: nat | i < |s[1..]| ensures NextOk(slabs, s[1..], i) { assert NextOk(slabs, s, i + 1); }
  }

  lemma ChainPush(slabs: Slabs, head: nat, s: seq<nat>, a: nat)
    requires Chain(slabs, head, s) && a !in s && a != 0 && a in slabs && slabs[a].next == head
    ensures Chain(slabs, a, [a] + s)
  {
    var s' := [a] + s;
    forall i: nat | i < |s'| ensures NextOk(slabs, s', i) {
      if i > 0 { assert NextOk(slabs, s, i - 1) && s'[i] == s[i - 1]; }
    }
  }

  /** Unlinking s[i] by redirecting its predecessor, or the head when it has none. */
  lemma ChainRemove(slabs: Slabs, slabs': Slabs, head: nat, s: seq<nat>, i: nat)
    requires Chain(slabs, head, s) && Distinct(s) && i < |s|
    requires forall a :: a in s && a in slabs ==>
      a in slabs' && slabs'[a].next == if i > 0 && a == s[i - 1] then At(s, i + 1) else slabs[a].next
    ensures Chain(slabs', if i == 0 then At(s, 1) else head, Remove(s, i))
  {
    var r := Remove(s, i);
    forall j: nat | j < |r| ensures NextOk(slabs', r, j) {
      var k := if j < i then j else j + 1;
      assert NextOk(slabs, s, k) && s[k] in s && r[j] == s[k];
      assert j + 1 < |r| ==> r[j + 1] == s[if j + 1 < i then j + 1 else j + 2];
    }
  }

  /** The three heads hold the three lists. */
  ghost predicate ListsOk(slabs: Slabs, full: nat, fs: seq<nat>, partial: nat, ps: seq<nat>, unused: nat, us: seq<nat>, x: nat) {
    && Chain(slabs, full, fs) && Chain(slabs, partial, ps) && Chain(slabs, unused, us)
    && Placed(slabs, fs, ps, us, x)
  }

  ghost function SetNext(slabs: Slabs, a: nat, n: nat): Slabs
    requires a in slabs
  {
    slabs[a := slabs[a].(next := n)]
  }

  lemma EmptyChain(slabs: Slabs, head: nat, s: seq<nat>)
    requires Chain(slabs, head, s)
    ensures head == 0 <==> s == []
  {
    if s != [] { assert NextOk(slabs, s, 0); }
  }

  lemma FreshKeepsLists(slabs: Slabs, slabs': Slabs, full: nat, fs: seq<nat>, partial: nat, ps: seq<nat>, a: nat)
    requires ListsOk(slabs, full, fs, partial, ps, 0, [], 0) && a !in slabs && a != 0 && a in slabs'
    requires slabs' == slabs[a := slabs'[a]] && slabs'[a].next == 0 && slabs'[a].used == 0 && slabs'[a].count > 0
    ensures ListsOk(slabs', full, fs, partial, ps, a, [a], 0)
  {
    ChainIgnores(slabs, slabs', full, fs);
    ChainIgnores(slabs, slabs', partial, ps);
    ChainPush(slabs', 0, [], a);
    assert [a] + [] == [a];
    forall b | b in slabs' ensures SlabPlaced(slabs', fs, ps, [a], 0, b) {
      if b != a { assert SlabPlaced(slabs, fs, ps, [], 0, b); }
    }
  }

  /** Moving the first fresh slab to the empty partial list. */
  lemma ActivateKeepsLists(slabs: Slabs, full: nat, fs: seq<nat>, unused: nat, us: seq<nat>)
    requires ListsOk(slabs, full, fs, 0, [], unused, us, 0) && us != []
    ensures us[0] == unused && us[0] in slabs
    ensures ListsOk(SetNext(slabs, us[0], 0), full, fs, us[0], [us[0]], slabs[us[0]].next, us[1..], 0)
  {
    var a := us[0];
    ChainTail(slabs, unused, us);
    var slabs' := SetNext(slabs, a, 0);
    assert us == [a] + us[1..];
    assert SlabPlaced(slabs, fs, [], us, 0, a);
    ChainIgnores(slabs, slabs', full, fs);
    ChainIgnores(slabs, slabs', slabs[a].next, us[1..]);
    ChainPush(slabs', 0, [], a);
    assert [a] + [] == [a];
    forall b | b in slabs' ensures SlabPlaced(slabs', fs, [a], us[1..], 0, b) { assert SlabPlaced(slabs, fs, [], us, 0, b); }
  }

  /** Moving the first partial slab, which has just filled up, to the full list. */
  lemma RetireKeepsLists(slabs: Slabs, full: nat, fs: seq<nat>, partial: nat, ps: seq<nat>, unused: nat, us: seq<nat>)
    requires ps != [] && ListsOk(slabs, full, fs, partial, ps, unused, us, ps[0])
    requires ps[0] in slabs && slabs[ps[0]].used == slabs[ps[0]].count && ps[0] != 0 && slabs[ps[0]].used > 0
    ensures ps[0] == partial
    ensures ListsOk(SetNext(slabs, ps[0], full), ps[0], [ps[0]] + fs, slabs[ps[0]].next, ps[1..], unused, us, 0)
  {
    var a := ps[0];
    ChainTail(slabs, partial, ps);
    var slabs' := SetNext(slabs, a, full);
    assert ps == [a] + ps[1..];
    assert SlabPlaced(slabs, fs, ps, us, a, a);
    ChainIgnores(slabs, slabs', full, fs);
    ChainIgnores(slabs, slabs', unused, us);
    ChainIgnores(slabs, slabs', slabs[a].next, ps[1..]);
    ChainPush(slabs', full, fs, a);
    var fs' := [a] + fs;
    forall b | b in slabs' ensures SlabPlaced(slabs', fs', ps[1..], us, 0, b) { assert SlabPlaced(slabs, fs, ps, us, a, b); }
  }

  /** Moving a slab that is no longer full from the full list to the front of the partial one. */
  ghost function Demoted(slabs: Slabs, fs: seq<nat>, i: nat, partial: nat): Slabs
    requires i < |fs| && fs[i] in slabs && (i > 0 ==> fs[i - 1] in slabs)
  {
    var s1 := if i > 0 then SetNext(slabs, fs[i - 1], slabs[fs[i]].next) else slabs;
    s1[fs[i] := slabs[fs[i]].(next := partial)]
  }

  lemma DemoteKeepsChains(slabs: Slabs, full: nat, fs: seq<nat>, partial: nat, ps: seq<nat>, unused: nat, us: seq<nat>, i: nat)
    requires i < |fs| && ListsOk(slabs, full, fs, partial, ps, unused, us, fs[i]) && fs[i] in slabs
    requires i > 0 ==> fs[i - 1] in slabs
    ensures var slabs' := Demoted(slabs, fs, i, partial);
            && Chain(slabs', if i == 0 then slabs[fs[i]].next else full, Remove(fs, i))
            && Chain(slabs', fs[i], [fs[i]] + ps) && Chain(slabs', unused, us)
  {
    var a, slabs' := fs[i], Demoted(slabs, fs, i, partial);
    assert a in fs && (i > 0 ==> fs[i - 1] in fs) && SlabPlaced(slabs, fs, ps, us, a, a);
    assert i > 0 ==> SlabPlaced(slabs, fs, ps, us, a, fs[i - 1]);
    assert NextOk(slabs, fs, i);
    var mid := if i > 0 then SetNext(slabs, fs[i - 1], slabs[a].next) else slabs;
    ChainRemove(slabs, mid, full, fs, i);
    RemoveMembers(fs, i);
    ChainIgnores(mid, slabs', if i == 0 then slabs[a].next else full, Remove(fs, i));
    ChainIgnores(slabs, slabs', partial, ps);
    ChainIgnores(slabs, slabs', unused, us);
    ChainPush(slabs', partial, ps, a);
  }

  lemma DemoteKeepsLists(slabs: Slabs, full: nat, fs: seq<nat>, partial: nat, ps: seq<nat>, unused: nat, us: seq<nat>, i: nat)
    requires i < |fs| && ListsOk(slabs, full, fs, partial, ps, unused, us, fs[i]) && fs[i] in slabs
    requires i > 0 ==> fs[i - 1] in slabs
    requires slabs[fs[i]].used < slabs[fs[i]].count
    ensures ListsOk(Demoted(slabs, fs, i, partial), if i == 0 then slabs[fs[i]].next else full, Remove(fs, i),
                    fs[i], [fs[i]] + ps, unused, us, 0)
  {
    DemoteKeepsChains(slabs, full, fs, partial, ps, unused, us, i);
    RemoveMembers(fs, i);
    var a := fs[i];
    assert a in fs && SlabPlaced(slabs, fs, ps, us, a, a);
    var slabs', fs', ps' := Demoted(slabs, fs, i, partial), Remove(fs, i), [a] + ps;
    forall b | b in slabs' ensures SlabPlaced(slabs', fs', ps', us, 0, b) { assert SlabPlaced(slabs, fs, ps, us, a, b); }
  }

  /** Counters and free lists change without moving the slab. */
  lemma RecountKeepsLists(slabs: Slabs, h: Header, full: nat, fs: seq<nat>, partial: nat, ps: seq<nat>, unused: nat, us: seq<nat>, a: nat)
    requires ListsOk(slabs, full, fs, partial, ps, unused, us, 0) && a in slabs && a !in us && h.next == slabs[a].next
    ensures ListsOk(slabs[a := h], full, fs, partial, ps, unused, us, a)
    ensures (a in fs <==> h.used == h.count) ==> ListsOk(slabs[a := h], full, fs, partial, ps, unused, us, 0)
  {
    var slabs' := slabs[a := h];
    ChainIgnores(slabs, slabs', full, fs);
    ChainIgnores(slabs, slabs', partial, ps);
    ChainIgnores(slabs, slabs', unused, us);
    forall b | b in slabs' ensures SlabPlaced(slabs', fs, ps, us, a, b) { assert SlabPlaced(slabs, fs, ps, us, 0, b); }
    if a in fs <==> h.used == h.count {
      forall b | b in slabs' ensures SlabPlaced(slabs', fs, ps, us, 0, b) { assert SlabPlaced(slabs, fs, ps, us, 0, b); }
    }
  }

  /** List links are no part of a slab's content. */
  lemma ContentIgnoresNext(s: State, slabs': Slabs, bits: seq<bool>, size: nat)
    requires size > 0 && Content(s, bits, size) && slabs'.Keys == s.slabs.Keys
    requires forall a :: a in slabs' ==> slabs'[a] == s.slabs[a].(next := slabs'[a].next)
    ensures Content(State(slabs', s.word, s.stack, s.live), bits, size)
  {
    forall a | a in slabs' ensures SlabOk(slabs', s.word, s.stack, bits, size, a) {
      assert SlabOk(s.slabs, s.word, s.stack, bits, size, a);
    }
    forall o | o in s.live ensures ObjectOk(slabs', s.stack, size, s.live, o) { assert ObjectOk(s.slabs, s.stack, size, s.live, o); }
    forall a: nat, k: nat ensures Held(slabs', s.stack, size, s.live, a, k) { assert Held(s.slabs, s.stack, size, s.live, a, k); }
  }

  // ----- Popping and pushing objects -----

  /** Another slab's free list does not notice a write to object o = (a, k). */
  lemma OtherSlabOk(slabs: Slabs, slabs': Slabs, word: Words, stack: Stacks, stack': Stacks, bits: seq<bool>, size: nat,
                    a: nat, k: nat, w: nat, b: nat)
    requires SizeOk(size) && SlabOk(slabs, word, stack, bits, size, a) && SlabOk(slabs, word, stack, bits, size, b)
    requires k < Count(size) && b != a && b in slabs' && b in stack' && stack'[b] == stack[b]
    requires slabs'[b] == slabs[b].(next := slabs'[b].next)
    ensures SlabOk(slabs', word[Slot(a, size, k) := w], stack', bits, size, b)
  {
    var word' := word[Slot(a, size, k) := w];
    forall i: nat | i < |stack[b]| ensures WordOk(word', b, size, stack[b], i) {
      assert WordOk(word, b, size, stack[b], i);
      SlotsApart(a, k, b, stack[b][i], size);
    }
  }

  lemma PopKeepsSlab(h: Header, word: Words, a: nat, size: nat, st: seq<nat>, w: nat)
    requires SizeOk(size) && PageStart(a) && h.count == Count(size) && StackOk(h, word, a, size, st) && st != []
    ensures h.freeList == Slot(a, size, st[0]) && h.freeList in word && h.freeList != 0
    ensures StackOk(h.(freeList := word[h.freeList], used := h.used + 1), word[h.freeList := w], a, size, st[1..])
  {
    assert WordOk(word, a, size, st, 0);
    var st', word' := st[1..], word[h.freeList := w];
    forall i: nat | i < |st'| ensures WordOk(word', a, size, st', i) {
      assert WordOk(word, a, size, st, i + 1);
      SlotsApart(a, st[0], a, st[i + 1], size);
    }
  }

  lemma PushKeepsSlab(h: Header, word: Words, a: nat, size: nat, st: seq<nat>, k: nat)
    requires SizeOk(size) && PageStart(a) && h.count == Count(size) && StackOk(h, word, a, size, st) && k < h.count && k !in st && h.used > 0
    ensures StackOk(h.(freeList := Slot(a, size, k), used := h.used - 1), word[Slot(a, size, k) := h.freeList], a, size, [k] + st)
  {
    var st', word' := [k] + st, word[Slot(a, size, k) := h.freeList];
    forall i: nat | i < |st'| ensures WordOk(word', a, size, st', i) {
      if i > 0 {
        assert WordOk(word, a, size, st, i - 1) && st'[i] == st[i - 1];
        SlotsApart(a, k, a, st'[i], size);
        assert i + 1 < |st'| ==> st'[i + 1] == st[i];
      }
    }
  }

  // ----- Counting -----

  ghost function FreeBelow(st: seq<nat>, n: nat): set<nat> {
    set k: nat | k < n && k in st
  }

  lemma {:induction false} FreeBelowCount(st: seq<nat>, n: nat)
    requires Distinct(st) && forall i :: 0 <= i < |st| ==> st[i] < n
    ensures |FreeBelow(st, n)| == |st|
  {
    if st == [] {
      assert FreeBelow(st, n) == {};
    } else {
      var k, r := st[|st| - 1], st[..|st| - 1];
      FreeBelowCount(r, n);
      assert k !in r && st == r + [k];
      assert FreeBelow(st, n) == FreeBelow(r, n) + {k};
    }
  }

  ghost function Iota(n: nat): (s: seq<nat>)
    ensures |s| == n && forall i :: 0 <= i < n ==> s[i] == i
  {
    seq(n, i requires 0 <= i < n => i)
  }

  ghost function Below(n: nat): set<nat> {
    set k | k in Iota(n)
  }

  lemma {:induction false} BelowCount(n: nat)
    ensures |Below(n)| == n
  {
    if n == 0 {
      assert Below(n) == {};
    } else {
      BelowCount(n - 1);
      assert Iota(n) == Iota(n - 1) + [n - 1];
      assert Below(n) == Below(n - 1) + {n - 1};
    }
  }

  /** A slab with an object in use has fewer free objects than objects. */
  lemma DistinctBelow(st: seq<nat>, n: nat)
    requires Distinct(st) && forall i :: 0 <= i < |st| ==> st[i] < n
    ensures |st| <= n
    ensures (exists k: nat :: k < n && k !in st) ==> |st| < n
  {
    FreeBelowCount(st, n);
    BelowCount(n);
    var f, rest := FreeBelow(st, n), Below(n) - FreeBelow(st, n);
    forall k | k in f ensures k in Below(n) { assert Iota(n)[k] in Iota(n); }
    assert Below(n) == f + rest;
    assert |Below(n)| == |f| + |rest|;
    if k: nat :| k < n && k !in st { assert Iota(n)[k] in Iota(n) && k in rest; }
  }

  // ----- Whole-cache steps -----

  /** Handing out the first free object of slab a; its owner may leave any word w in it. */
  ghost function Popped(s: State, size: nat, a: nat, w: nat): State
    requires a in s.slabs && a in s.stack && s.stack[a] != [] && s.slabs[a].freeList in s.word
  {
    var h, st := s.slabs[a], s.stack[a];
    State(s.slabs[a := h.(freeList := s.word[h.freeList], used := h.used + 1)],
          s.word[h.freeList := w], s.stack[a := st[1..]], s.live[h.freeList := (a, st[0])])
  }

  /** Taking back object k of slab a. */
  ghost function Pushed(s: State, size: nat, a: nat, k: nat): State
    requires a in s.slabs && a in s.stack && s.slabs[a].used > 0
  {
    var h, o := s.slabs[a], Slot(a, size, k);
    State(s.slabs[a := h.(freeList := o, used := h.used - 1)],
          s.word[o := h.freeList], s.stack[a := [k] + s.stack[a]], s.live - {o})
  }

  lemma PoppedSlabs(s: State, bits: seq<bool>, size: nat, a: nat, w: nat)
    requires SizeOk(size) && Content(s, bits, size) && a in s.slabs && a in s.stack && s.stack[a] != []
    requires s.slabs[a].freeList in s.word
    ensures var t := Popped(s, size, a, w); AllSlabsOk(t.slabs, t.word, t.stack, bits, size)
  {
    var t, k := Popped(s, size, a, w), s.stack[a][0];
    assert SlabOk(s.slabs, s.word, s.stack, bits, size, a);
    PopKeepsSlab(s.slabs[a], s.word, a, size, s.stack[a], w);
    forall b | b in t.slabs ensures SlabOk(t.slabs, t.word, t.stack, bits, size, b) {
      if b != a {
        assert SlabOk(s.slabs, s.word, s.stack, bits, size, b);
        OtherSlabOk(s.slabs, t.slabs, s.word, s.stack, t.stack, bits, size, a, k, w, b);
      }
    }
  }

  lemma PoppedObjects(s: State, bits: seq<bool>, size: nat, a: nat, w: nat)
    requires SizeOk(size) && Content(s, bits, size) && a in s.slabs && a in s.stack && s.stack[a] != []
    requires s.slabs[a].freeList in s.word
    ensures var t := Popped(s, size, a, w);
            Objects(t.slabs, t.stack, size, t.live) && s.slabs[a].freeList !in s.live && s.slabs[a].freeList != 0
  {
    var t, st := Popped(s, size, a, w), s.stack[a];
    var o, k := s.slabs[a].freeList, s.stack[a][0];
    assert SlabOk(s.slabs, s.word, s.stack, bits, size, a);
    PopKeepsSlab(s.slabs[a], s.word, a, size, st, w);
    assert st == [k] + st[1..];
    forall p | p in s.live ensures p != o && ObjectOk(s.slabs, s.stack, size, s.live, p) {
      assert ObjectOk(s.slabs, s.stack, size, s.live, p);
      var (b, j) := s.live[p];
      assert SlabOk(s.slabs, s.word, s.stack, bits, size, b);
      SlotsApart(a, k, b, j, size);
    }
    forall p | p in t.live ensures ObjectOk(t.slabs, t.stack, size, t.live, p) {
      if p != o { assert ObjectOk(s.slabs, s.stack, size, s.live, p); }
    }
    forall b: nat, j: nat ensures Held(t.slabs, t.stack, size, t.live, b, j) {
      assert Held(s.slabs, s.stack, size, s.live, b, j);
      if b in s.slabs && j < s.slabs[b].count && (a != b || j != k) {
        assert SlabOk(s.slabs, s.word, s.stack, bits, size, b);
        SlotsApart(a, k, b, j, size);
      }
    }
  }

  lemma PushedSlabs(s: State, bits: seq<bool>, size: nat, a: nat, k: nat)
    requires SizeOk(size) && Content(s, bits, size) && a in s.slabs && a in s.stack
    requires k < s.slabs[a].count && k !in s.stack[a] && s.slabs[a].used > 0
    ensures var t := Pushed(s, size, a, k); AllSlabsOk(t.slabs, t.word, t.stack, bits, size)
  {
    var t := Pushed(s, size, a, k);
    assert SlabOk(s.slabs, s.word, s.stack, bits, size, a);
    PushKeepsSlab(s.slabs[a], s.word, a, size, s.stack[a], k);
    forall b | b in t.slabs ensures SlabOk(t.slabs, t.word, t.stack, bits, size, b) {
      if b != a {
        assert SlabOk(s.slabs, s.word, s.stack, bits, size, b);
        OtherSlabOk(s.slabs, t.slabs, s.word, s.stack, t.stack, bits, size, a, k, s.slabs[a].freeList, b);
      }
    }
  }

  lemma PushedObjects(s: State, bits: seq<bool>, size: nat, a: nat, k: nat)
    requires SizeOk(size) && Content(s, bits, size) && a in s.slabs && a in s.stack
    requires k < s.slabs[a].count && k !in s.stack[a] && s.slabs[a].used > 0
    ensures var t := Pushed(s, size, a, k); Objects(t.slabs, t.stack, size, t.live)
  {
    var t, o := Pushed(s, size, a, k), Slot(a, size, k);
    assert Held(s.slabs, s.stack, size, s.live, a, k);
    forall p | p in t.live ensures ObjectOk(t.slabs, t.stack, size, t.live, p) {
      assert ObjectOk(s.slabs, s.stack, size, s.live, p);
    }
    assert SlabOk(s.slabs, s.word, s.stack, bits, size, a);
    forall b: nat, j: nat ensures Held(t.slabs, t.stack, size, t.live, b, j) {
      assert Held(s.slabs, s.stack, size, s.live, b, j);
      if b in s.slabs && j < s.slabs[b].count && (a != b || j != k) {
        assert SlabOk(s.slabs, s.word, s.stack, bits, size, b);
        SlotsApart(a, k, b, j, size);
      }
    }
  }

  // ----- A new slab -----

  ghost predicate WordIs(word: Words, a: nat, size: nat, j: nat) {
    Slot(a, size, j) in word && word[Slot(a, size, j)] == Slot(a, size, j + 1)
  }

  ghost predicate Threaded(word: Words, a: nat, size: nat, n: nat) {
    forall j: nat {:trigger WordIs(word, a, size, j)} :: j + 1 < n ==> WordIs(word, a, size, j)
  }

  /** Words outside the page at a are as before. */
  ghost predicate OffPage(word: Words, word': Words, a: nat) {
    forall o :: o in word && !(a <= o < a + PAGE) ==> o in word' && word'[o] == word[o]
  }

  lemma CountPositive(size: nat)
    requires SizeOk(size)
    ensures Count(size) >= 1
  {
    assert MAX_SIZE == Count(size) * size + MAX_SIZE % size;
  }

  lemma ThreadStep(word: Words, a: nat, size: nat, i: nat)
    requires SizeOk(size) && PageStart(a) && 1 <= i < Count(size) && Threaded(word, a, size, i)
    ensures Threaded(word[Slot(a, size, i - 1) := Slot(a, size, i)], a, size, i + 1)
  {
    var word' := word[Slot(a, size, i - 1) := Slot(a, size, i)];
    forall j: nat | j + 1 < i + 1 ensures WordIs(word', a, size, j) {
      if j < i - 1 {
        assert WordIs(word, a, size, j);
        SlotsApart(a, j, a, i - 1, size);
      }
    }
  }

  lemma ThreadEnd(word: Words, a: nat, size: nat, n: nat)
    requires SizeOk(size) && PageStart(a) && 1 <= n <= Count(size) && Threaded(word, a, size, n)
    ensures Threaded(word[Slot(a, size, n - 1) := 0], a, size, n)
  {
    var word' := word[Slot(a, size, n - 1) := 0];
    forall j: nat | j + 1 < n ensures WordIs(word', a, size, j) {
      assert WordIs(word, a, size, j);
      SlotsApart(a, j, a, n - 1, size);
    }
  }

  lemma PageFacts(page: nat)
    requires page % PAGE == 0 && page > 0
    ensures PageStart(page + VBASE) && (page + VBASE - VBASE) / PAGE == page / PAGE
  {
  }

  lemma SameSlabs(s: State, bits: seq<bool>, bits': seq<bool>, size: nat)
    requires size > 0 && Content(s, bits, size) && Pmm.Grows(bits, bits')
    ensures Content(s, bits', size)
  {
    forall b | b in s.slabs ensures SlabOk(s.slabs, s.word, s.stack, bits', size, b) {
      assert SlabOk(s.slabs, s.word, s.stack, bits, size, b);
    }
  }

  /** A freshly threaded page is a slab with every object free. */
  lemma NewSlabOk(s: State, bits: seq<bool>, size: nat, a: nat)
    requires SizeOk(size) && PageStart(a) && PageTaken(bits, a)
    requires a in s.slabs && a in s.stack && s.stack[a] == Iota(Count(size))
    requires s.slabs[a] == Header(s.slabs[a].next, Slot(a, size, 0), a + HEADER, Count(size), 0) && Count(size) >= 1
    requires Threaded(s.word, a, size, Count(size))
    requires Slot(a, size, Count(size) - 1) in s.word && s.word[Slot(a, size, Count(size) - 1)] == 0
    ensures SlabOk(s.slabs, s.word, s.stack, bits, size, a)
  {
    var st := Iota(Count(size));
    forall i: nat | i < |st| ensures WordOk(s.word, a, size, st, i) {
      if i + 1 < |st| { assert WordIs(s.word, a, size, i); }
    }
  }

  lemma OldSlabKept(s: State, t: State, bits: seq<bool>, bits': seq<bool>, size: nat, a: nat, b: nat)
    requires SizeOk(size) && SlabOk(s.slabs, s.word, s.stack, bits, size, b) && Pmm.Grows(bits, bits') && a != b
    requires PageStart(a) && OffPage(s.word, t.word, a)
    requires b in t.slabs && t.slabs[b] == s.slabs[b] && b in t.stack && t.stack[b] == s.stack[b]
    ensures SlabOk(t.slabs, t.word, t.stack, bits', size, b)
  {
    forall i: nat | i < |s.stack[b]| ensures WordOk(t.word, b, size, s.stack[b], i) {
      assert WordOk(s.word, b, size, s.stack[b], i);
      SlotInPage(b, size, s.stack[b][i]);
      PagesApart(a, b);
    }
  }

  lemma AddedObjects(s: State, t: State, size: nat, a: nat)
    requires Objects(s.slabs, s.stack, size, s.live) && a !in s.slabs && a in t.slabs && size > 0
    requires t.slabs == s.slabs[a := t.slabs[a]] && t.stack == s.stack[a := Iota(t.slabs[a].count)] && t.live == s.live
    ensures Objects(t.slabs, t.stack, size, t.live)
  {
    forall p | p in t.live ensures ObjectOk(t.slabs, t.stack, size, t.live, p) {
      assert ObjectOk(s.slabs, s.stack, size, s.live, p);
    }
    forall b: nat, j: nat ensures Held(t.slabs, t.stack, size, t.live, b, j) {
      assert Held(s.slabs, s.stack, size, s.live, b, j);
      if b == a && j < t.slabs[a].count { assert Iota(t.slabs[a].count)[j] == j; }
    }
  }

  /** Adding a slab whose objects are all free. */
  lemma AddedSlab(s: State, t: State, bits: seq<bool>, bits': seq<bool>, size: nat, a: nat)
    requires SizeOk(size) && Content(s, bits, size) && Pmm.Grows(bits, bits') && a !in s.slabs && a in t.slabs
    requires t.slabs == s.slabs[a := t.slabs[a]] && t.stack == s.stack[a := Iota(t.slabs[a].count)] && t.live == s.live
    requires SlabOk(t.slabs, t.word, t.stack, bits', size, a) && OffPage(s.word, t.word, a)
    ensures Content(t, bits', size)
  {
    forall b | b in t.slabs ensures SlabOk(t.slabs, t.word, t.stack, bits', size, b) {
      if b != a {
        assert SlabOk(s.slabs, s.word, s.stack, bits, size, b);
        OldSlabKept(s, t, bits, bits', size, a, b);
      }
    }
    AddedObjects(s, t, size, a);
  }

  /** What live objects hold is as before. */
  ghost predicate WordsKept(live: map<nat, (nat, nat)>, word: Words, word': Words) {
    forall o :: o in live && o in word ==> o in word' && word'[o] == word[o]
  }

  /** Live objects lie on other pages than a new slab. */
  lemma NewSlabMissesLive(s: State, bits: seq<bool>, size: nat, a: nat, word': Words)
    requires SizeOk(size) && Content(s, bits, size) && PageStart(a) && a !in s.slabs && OffPage(s.word, word', a)
    ensures WordsKept(s.live, s.word, word')
  {
    forall o | o in s.live && o in s.word ensures o in word' && word'[o] == s.word[o] {
      assert ObjectOk(s.slabs, s.stack, size, s.live, o);
      var (b, k) := s.live[o];
      assert SlabOk(s.slabs, s.word, s.stack, bits, size, b);
      SlotInPage(b, size, k);
      PagesApart(a, b);
    }
  }

  /** What the owner of a live object writes into it reaches no free list. */
  lemma OwnerWriteKeepsContent(s: State, bits: seq<bool>, size: nat, obj: nat, w: nat)
    requires SizeOk(size) && Content(s, bits, size) && obj in s.live
    ensures Content(s.(word := s.word[obj := w]), bits, size)
  {
    assert ObjectOk(s.slabs, s.stack, size, s.live, obj);
    var (a, k) := s.live[obj];
    assert SlabOk(s.slabs, s.word, s.stack, bits, size, a);
    var word' := s.word[obj := w];
    forall b | b in s.slabs ensures SlabOk(s.slabs, word', s.stack, bits, size, b) {
      assert SlabOk(s.slabs, s.word, s.stack, bits, size, b);
      forall i: nat | i < |s.stack[b]| ensures WordOk(word', b, size, s.stack[b], i) {
        assert WordOk(s.word, b, size, s.stack[b], i) && s.stack[b][i] in s.stack[b];
        SlotsApart(a, k, b, s.stack[b][i], size);
      }
    }
  }

  /** The live objects of slab a with index below n. */
  ghost function ObjectsOf(live: map<nat, (nat, nat)>, a: nat, n: nat): set<nat> {
    set o | o in live && live[o].0 == a && live[o].1 < n
  }

  lemma {:induction false} ObjectsOfCount(s: State, size: nat, a: nat, n: nat)
    requires Objects(s.slabs, s.stack, size, s.live) && a in s.slabs && a in s.stack && n <= s.slabs[a].count
    ensures |ObjectsOf(s.live, a, n)| + |FreeBelow(s.stack[a], n)| == n
  {
    if n == 0 {
      assert ObjectsOf(s.live, a, 0) == {} && FreeBelow(s.stack[a], 0) == {};
    } else {
      var k, o := n - 1, Slot(a, size, n - 1);
      ObjectsOfCount(s, size, a, k);
      assert Held(s.slabs, s.stack, size, s.live, a, k);
      forall p | p in s.live ensures ObjectOk(s.slabs, s.stack, size, s.live, p) {}
      if k in s.stack[a] {
        assert FreeBelow(s.stack[a], n) == FreeBelow(s.stack[a], k) + {k};
        assert ObjectsOf(s.live, a, n) == ObjectsOf(s.live, a, k);
      } else {
        assert FreeBelow(s.stack[a], n) == FreeBelow(s.stack[a], k);
        assert ObjectsOf(s.live, a, n) == ObjectsOf(s.live, a, k) + {o};
      }
    }
  }

  /** The counter of a slab is the number of its live objects. */
  lemma UsedIsLive(s: State, bits: seq<bool>, size: nat, a: nat)
    requires size > 0 && Content(s, bits, size) && a in s.slabs
    ensures |ObjectsIn(s.live, [a])| == s.slabs[a].used
  {
    assert SlabOk(s.slabs, s.word, s.stack, bits, size, a);
    FreeBelowCount(s.stack[a], s.slabs[a].count);
    ObjectsOfCount(s, size, a, s.slabs[a].count);
    forall p | p in s.live ensures ObjectOk(s.slabs, s.stack, size, s.live, p) {}
    assert ObjectsIn(s.live, [a]) == ObjectsOf(s.live, a, s.slabs[a].count);
  }

  ghost function TotalUsed(slabs: Slabs, s: seq<nat>): nat {
    if s == [] then 0
    else TotalUsed(slabs, s[..|s| - 1]) + if s[|s| - 1] in slabs then slabs[s[|s| - 1]].used else 0
  }

  ghost function ObjectsIn(live: map<nat, (nat, nat)>, s: seq<nat>): set<nat> {
    set o | o in live && live[o].0 in s
  }

  lemma {:induction false} TotalUsedIsLive(t: State, bits: seq<bool>, size: nat, s: seq<nat>)
    requires size > 0 && Content(t, bits, size) && Distinct(s) && forall a :: a in s ==> a in t.slabs
    ensures TotalUsed(t.slabs, s) == |ObjectsIn(t.live, s)|
  {
    if s == [] {
      assert ObjectsIn(t.live, s) == {};
    } else {
      var a, r := s[|s| - 1], s[..|s| - 1];
      TotalUsedIsLive(t, bits, size, r);
      UsedIsLive(t, bits, size, a);
      assert s == r + [a] && a !in r;
      var others, own := ObjectsIn(t.live, r), ObjectsIn(t.live, [a]);
      assert ObjectsIn(t.live, s) == others + own && others !! own;
    }
  }

  lemma PartitionCount(all: set<nat>, f: set<nat>, p: set<nat>, u: set<nat>)
    requires f <= all && p <= all && u <= all
    requires forall o :: o in all ==> if o in f then o !in p && o !in u else (o in p) != (o in u)
    ensures |f| + |p| + |u| == |all|
  {
    assert f !! p && (f + p) !! u && all == f + p + u;
  }

  /** The test by which slab_free recognises the owner of an object. */
  predicate InRange(h: Header, size: nat, obj: nat) {
    h.memory <= obj < h.memory + h.count * size
  }

  /** It holds of the owner of a live object and of no other slab. */
  lemma RangeFindsOwner(s: State, bits: seq<bool>, size: nat, obj: nat, b: nat)
    requires SizeOk(size) && Content(s, bits, size) && obj in s.live && b in s.slabs
    ensures InRange(s.slabs[b], size, obj) <==> b == s.live[obj].0
  {
    assert ObjectOk(s.slabs, s.stack, size, s.live, obj);
    var (a, k) := s.live[obj];
    assert SlabOk(s.slabs, s.word, s.stack, bits, size, a) && SlabOk(s.slabs, s.word, s.stack, bits, size, b);
    SlotInPage(a, size, k);
    var c := Count(size);
    MulBound(c - k, size);
    assert (c - k) * size == c * size - k * size;
    assert c * size <= MAX_SIZE;
    if a != b { PagesApart(a, b); }
  }

  /** The slab that serves an allocation: the first partial one, else the first fresh one. */
  ghost predicate Chosen(ps: seq<nat>, us: seq<nat>, a: nat) {
    if ps != [] then a == ps[0] else us != [] ==> a == us[0]
  }

  /** Exactly the page at a was taken from the page allocator. */
  ghost predicate TookPage(bits: seq<bool>, bits': seq<bool>, a: nat) {
    && PageStart(a)
    && var f := (a - VBASE) / PAGE;
       Pmm.FIRST_PAGE <= f < Pmm.END_PAGE && f < |bits| && !bits[f] && bits' == bits[f := true]
  }

  /** A list of full slabs uses every object there is. */
  lemma {:induction false} TotalOfFull(slabs: Slabs, s: seq<nat>, c: nat)
    requires forall i :: 0 <= i < |s| ==> s[i] in slabs && slabs[s[i]].used == c
    ensures TotalUsed(slabs, s) == |s| * c
  {
    if s != [] {
      var r := s[..|s| - 1];
      assert forall i :: 0 <= i < |r| ==> r[i] == s[i];
      TotalOfFull(slabs, r, c);
      assert |s| * c == |r| * c + c;
    }
  }

  class Cache {
    const pmm: Pmm.Allocator
    const size: nat
    var full: nat
    var partial: nat
    var unused: nat
    var slabs: Slabs
    var word: Words
    ghost var stack: Stacks
    ghost var live: map<nat, (nat, nat)>
    ghost var fulls: seq<nat>
    ghost var partials: seq<nat>
    ghost var unuseds: seq<nat>

    ghost function Repr(): set<object> {
      {this} + pmm.Repr()
    }

    ghost function Now(): State
      reads this
    {
      State(slabs, word, stack, live)
    }

    /** The pages the cache has taken so far; it never gives one back. */
    ghost function Pages(): nat
      reads this
    {
      |fulls| + |partials| + |unuseds|
    }

    ghost predicate Filled()
      reads Repr()
    {
      && this !in pmm.Repr() && pmm.Valid() && SizeOk(size) && Content(Now(), pmm.Bits(), size)
    }

    ghost predicate Listed(x: nat)
      reads this
    {
      ListsOk(slabs, full, fulls, partial, partials, unused, unuseds, x)
    }

    ghost predicate Valid()
      reads Repr()
    {
      Filled() && Listed(0)
    }

    constructor (pmm: Pmm.Allocator, objSize: nat)
      requires pmm.Valid() && objSize <= MAX_SIZE
      ensures Valid() && this.pmm == pmm && live == map[]
      ensures size == if objSize < MIN_SIZE then MIN_SIZE else objSize
    {
      this.pmm := pmm;
      size := if objSize < MIN_SIZE then MIN_SIZE else objSize;
      full, partial, unused, slabs, word := 0, 0, 0, map[], map[];
      stack, live, fulls, partials, unuseds := map[], map[], [], [], [];
    }

    /** The free-list loop of slab_create: each pointer cell in turn receives the next object, and
        the last one NULL. */
    method Thread(a: nat, count: nat) returns (first: nat)
      requires SizeOk(size) && count == Count(size) && PageStart(a)
      modifies `word
      ensures first == Slot(a, size, 0)
      ensures Threaded(word, a, size, count) && Slot(a, size, count - 1) in word && word[Slot(a, size, count - 1)] == 0
      ensures OffPage(old(word), word, a)
    {
      CountPositive(size);
      first := Slot(a, size, 0);
      for i := 1 to count
        invariant Threaded(word, a, size, i) && OffPage(old(word), word, a)
      {
        ThreadStep(word, a, size, i);
        SlotInPage(a, size, i - 1);
        word := word[Slot(a, size, i - 1) := Slot(a, size, i)];
      }
      SlotInPage(a, size, count - 1);
      ThreadEnd(word, a, size, count);
      word := word[Slot(a, size, count - 1) := 0];
    }

    /** A page that no slab occupies. */
    method TakePage() returns (a: nat)
      requires Filled()
      modifies pmm.Repr()
      ensures Filled()
      ensures a == 0 <==> old(pmm.Exhausted())
      ensures a != 0 ==> PageStart(a) && a !in slabs
      ensures a != 0 ==> PageTaken(pmm.Bits(), a)
      ensures if a == 0 then pmm.Bits() == old(pmm.Bits()) else TookPage(old(pmm.Bits()), pmm.Bits(), a)
    {
      ghost var bits := pmm.Bits();
      var page := pmm.AllocPage();
      SameSlabs(Now(), bits, pmm.Bits(), size);
      if page == 0 { return 0; }
      a := page + VBASE;
      PageFacts(page);
      forall b | b in slabs ensures b != a { assert SlabOk(slabs, word, stack, bits, size, b); }
    }

    /** slab_create: a page of its own from the PMM, all of whose objects are free. */
    method CreateSlab() returns (a: nat)
      requires Filled()
      modifies `slabs, `word, `stack, pmm.Repr()
      ensures Filled()
      ensures a == 0 <==> old(pmm.Exhausted())
      ensures a == 0 ==> slabs == old(slabs) && word == old(word) && stack == old(stack)
      ensures a != 0 ==> a !in old(slabs) && a in slabs && slabs == old(slabs)[a := slabs[a]]
      ensures a != 0 ==> slabs[a].next == 0 && slabs[a].used == 0 && slabs[a].count > 0 && slabs[a].memory == a + 48
      ensures a != 0 ==> slabs[a].memory + slabs[a].count * size <= a + 4096 < slabs[a].memory + (slabs[a].count + 1) * size
      ensures if a == 0 then pmm.Bits() == old(pmm.Bits()) else TookPage(old(pmm.Bits()), pmm.Bits(), a)
      ensures WordsKept(live, old(word), word)
    {
      a := TakePage();
      if a == 0 { return; }
      ghost var s := Now();
      var count := Count(size);
      var first := Thread(a, count);
      NewSlabMissesLive(s, pmm.Bits(), size, a, word);
      CountPositive(size);
      CountIsMost(size);
      slabs := slabs[a := Header(0, first, a + HEADER, count, 0)];
      stack := stack[a := Iota(count)];
      NewSlabOk(Now(), pmm.Bits(), size, a);
      AddedSlab(s, Now(), pmm.Bits(), pmm.Bits(), size, a);
    }
  
    // ----- slab_alloc -----

    /** A fresh slab becomes the first fresh one. */
    method AddFresh() returns (a: nat)
      requires Valid() && unuseds == []
      modifies Repr()
      ensures Valid() && fulls == old(fulls) && partials == old(partials) && live == old(live) && partial == old(partial)
      ensures a == 0 <==> old(pmm.Exhausted())
      ensures unuseds == (if a == 0 then [] else [a]) && WordsKept(live, old(word), word)
      ensures if a == 0 then pmm.Bits() == old(pmm.Bits()) else TookPage(old(pmm.Bits()), pmm.Bits(), a)
    {
      ghost var slabs0 := slabs;
      a := CreateSlab();
      if a != 0 {
        FreshKeepsLists(slabs0, slabs, full, fulls, partial, partials, a);
        unused := a;
        unuseds := [a];
      }
    }

    /** slab_cache_create's initial slab. */
    method Init() returns (ok: bool)
      requires Valid() && live == map[] && fulls == [] && partials == [] && unuseds == []
      modifies Repr()
      ensures Valid() && live == map[] && fulls == [] && partials == []
      ensures |unuseds| == if ok then 1 else 0
      ensures ok <==> !old(pmm.Exhausted())
      ensures if ok then TookPage(old(pmm.Bits()), pmm.Bits(), unuseds[0]) else pmm.Bits() == old(pmm.Bits())
    {
      var a := AddFresh();
      return a != 0;
    }

    /** A client may store anything in an object it holds. */
    method Scribble(obj: nat, w: nat)
      requires Valid() && obj in live
      modifies `word
      ensures Valid() && word == old(word)[obj := w]
    {
      OwnerWriteKeepsContent(Now(), pmm.Bits(), size, obj, w);
      word := word[obj := w];
    }

    /** The first fresh slab becomes the only partial one. */
    method Activate()
      requires Valid() && partials == [] && unuseds != []
      modifies `slabs, `partial, `unused, `partials, `unuseds
      ensures Valid() && partials == [old(unuseds[0])] && unuseds == old(unuseds[1..])
    {
      ActivateKeepsLists(slabs, full, fulls, unused, unuseds);
      var a := unused;
      ContentIgnoresNext(Now(), SetNext(slabs, a, 0), pmm.Bits(), size);
      unused := slabs[a].next;
      slabs := slabs[a := slabs[a].(next := partial)];
      partial := a;
      partials, unuseds := [a], unuseds[1..];
    }

    /** Popping the first object of the first partial slab, which is never empty-handed. */
    method PopObject(w: nat) returns (obj: nat)
      requires Valid() && partials != []
      modifies `slabs, `word, `stack, `live
      ensures Filled() && Listed(partials[0]) && partials[0] in slabs
      ensures slabs[partials[0]].used < slabs[partials[0]].count ==> Listed(0)
      ensures partial == partials[0] && 0 < slabs[partials[0]].used <= slabs[partials[0]].count
      ensures obj != 0 && obj !in old(live) && obj in live && live == old(live)[obj := live[obj]]
      ensures live[obj].0 == partials[0] && partials[0] in old(slabs) && obj == old(slabs)[partials[0]].freeList
      ensures word == old(word)[obj := w]
    {
      var a := partial;
      ChainTail(slabs, partial, partials);
      assert a in partials && SlabOk(slabs, word, stack, pmm.Bits(), size, a);
      assert SlabPlaced(slabs, fulls, partials, unuseds, 0, a);
      PopKeepsSlab(slabs[a], word, a, size, stack[a], w);
      PoppedSlabs(Now(), pmm.Bits(), size, a, w);
      PoppedObjects(Now(), pmm.Bits(), size, a, w);
      obj := slabs[a].freeList;
      var h := slabs[a].(freeList := word[obj], used := slabs[a].used + 1);
      RecountKeepsLists(slabs, h, full, fulls, partial, partials, unused, unuseds, a);
      live := live[obj := (a, stack[a][0])];
      stack := stack[a := stack[a][1..]];
      slabs := slabs[a := h];
      word := word[obj := w];
    }

    /** A slab that has just filled up goes to the full list. */
    method Retire()
      requires Filled() && partials != [] && Listed(partials[0]) && partials[0] in slabs
      requires slabs[partials[0]].used == slabs[partials[0]].count && slabs[partials[0]].used > 0
      modifies `slabs, `partial, `full, `partials, `fulls
      ensures Valid() && fulls == [old(partials)[0]] + old(fulls) && partials == old(partials)[1..]
    {
      RetireKeepsLists(slabs, full, fulls, partial, partials, unused, unuseds);
      var a := partial;
      ContentIgnoresNext(Now(), SetNext(slabs, a, full), pmm.Bits(), size);
      partial := slabs[a].next;
      slabs := slabs[a := slabs[a].(next := full)];
      full := a;
      fulls, partials := [a] + fulls, partials[1..];
    }

    /** The choice of a slab: a partial one, else a fresh one, else a new one. */
    method Choose() returns (ok: bool)
      requires Valid()
      modifies Repr()
      ensures Valid() && live == old(live)
      ensures ok <==> !(old(partials) == [] && old(unuseds) == []
                        && old(pmm.Exhausted()))
      ensures ok ==> partials != [] && Chosen(old(partials), old(unuseds), partials[0])
      ensures old(partials) != [] ==> slabs == old(slabs) && partials == old(partials) && unuseds == old(unuseds)
      ensures if old(partials) != [] || old(unuseds) != [] || !ok
              then pmm.Bits() == old(pmm.Bits()) && Pages() == old(Pages())
              else TookPage(old(pmm.Bits()), pmm.Bits(), partials[0]) && Pages() == old(Pages()) + 1
      ensures WordsKept(live, old(word), word)
    {
      EmptyChain(slabs, partial, partials);
      EmptyChain(slabs, unused, unuseds);
      if partial == 0 {
        if unused == 0 {
          var a := AddFresh();
          if a == 0 { return false; }
        }
        Activate();
      }
      return true;
    }

    /** With neither a partial nor a fresh slab, every slot is in use. */
    lemma NoneFree()
      requires Valid() && partials == [] && unuseds == []
      ensures |live| == Pages() * Count(size)
    {
      CountedOnce();
      forall i | 0 <= i < |fulls| ensures fulls[i] in slabs && slabs[fulls[i]].used == Count(size) {
        assert NextOk(slabs, fulls, i);
        var a := fulls[i];
        assert SlabOk(slabs, word, stack, pmm.Bits(), size, a) && SlabPlaced(slabs, fulls, partials, unuseds, 0, a);
      }
      TotalOfFull(slabs, fulls, Count(size));
    }

    /** slab_alloc: NULL exactly when no slab has a free object and no page is left for a new one;
        otherwise an object that was not live, the last one freed in the slab that is chosen: the first
        partial one, else the first fresh one.  A page is taken only if every slot of every slab is
        in use.  The constructor may leave any word w in the object; what other live objects hold is
        not touched. */
    method Alloc(w: nat) returns (obj: nat)
      requires Valid()
      modifies Repr()
      ensures Valid()
      ensures obj == 0 <==> old(partials) == [] && old(unuseds) == []
                            && old(pmm.Exhausted())
      ensures obj == 0 ==> live == old(live)
      ensures obj != 0 ==> obj !in old(live) && obj in live && live == old(live)[obj := live[obj]]
      ensures WordsKept(old(live), old(word), word) && (obj != 0 ==> obj in word && word[obj] == w)
      ensures obj != 0 ==> Chosen(old(partials), old(unuseds), live[obj].0)
      ensures old(partials) != [] ==> old(partials)[0] in old(slabs) && obj == old(slabs)[old(partials)[0]].freeList
      ensures if old(partials) != [] || old(unuseds) != [] || obj == 0
              then pmm.Bits() == old(pmm.Bits()) && Pages() == old(Pages())
              else && TookPage(old(pmm.Bits()), pmm.Bits(), live[obj].0) && Pages() == old(Pages()) + 1
                   && |old(live)| == old(Pages()) * Count(size)
    {
      if partials == [] && unuseds == [] { NoneFree(); }
      var ok := Choose();
      if !ok { return 0; }
      obj := PopObject(w);
      if slabs[partial].used >= slabs[partial].count { Retire(); }
    }
  
    // ----- slab_free -----

    /** Walking one list up to the slab whose range contains obj. */
    method FindOwner(head: nat, obj: nat, ghost s: seq<nat>) returns (slab: nat, prev: nat, ghost i: nat)
      requires Chain(slabs, head, s)
      ensures slab == 0 ==> forall j :: 0 <= j < |s| && s[j] in slabs ==> !InRange(slabs[s[j]], size, obj)
      ensures slab != 0 ==> i < |s| && s[i] == slab && slab in slabs && InRange(slabs[slab], size, obj)
      ensures slab != 0 ==> prev == At(s, i - 1) && (i > 0 ==> prev != 0 && prev in slabs)
    {
      slab, prev, i := head, 0, 0;
      while slab != 0
        invariant 0 <= i <= |s| && slab == At(s, i) && prev == At(s, i - 1)
        invariant i > 0 ==> prev != 0 && prev in slabs
        invariant forall j :: 0 <= j < i && s[j] in slabs ==> !InRange(slabs[s[j]], size, obj)
        decreases |s| - i
      {
        assert NextOk(slabs, s, i);
        if InRange(slabs[slab], size, obj) { return; }
        prev, slab, i := slab, slabs[slab].next, i + 1;
      }
      assert i < |s| ==> NextOk(slabs, s, i);
    }

    /** Returning obj to its slab; the slab stays where it is for now. */
    method PushObject(a: nat, obj: nat)
      requires Valid() && obj in live && live[obj].0 == a
      modifies `slabs, `word, `stack, `live
      ensures Filled() && Listed(a) && live == old(live) - {obj} && slabs.Keys == old(slabs.Keys) && a in slabs
      ensures slabs[a] == old(slabs[a]).(freeList := obj, used := slabs[a].used) && slabs[a].used < slabs[a].count
      ensures slabs[a].used + 1 == old(slabs[a].used) && WordsKept(live, old(word), word)
      ensures forall b :: b in slabs && b != a ==> slabs[b] == old(slabs)[b]
      ensures a !in fulls ==> Listed(0)
    {
      assert ObjectOk(slabs, stack, size, live, obj);
      ghost var k := live[obj].1;
      assert SlabOk(slabs, word, stack, pmm.Bits(), size, a);
      assert SlabPlaced(slabs, fulls, partials, unuseds, 0, a);
      DistinctBelow(stack[a], slabs[a].count);
      PushedSlabs(Now(), pmm.Bits(), size, a, k);
      PushedObjects(Now(), pmm.Bits(), size, a, k);
      var h := slabs[a].(freeList := obj, used := slabs[a].used - 1);
      RecountKeepsLists(slabs, h, full, fulls, partial, partials, unused, unuseds, a);
      word := word[obj := slabs[a].freeList];
      stack := stack[a := [k] + stack[a]];
      live := live - {obj};
      slabs := slabs[a := h];
    }

    /** The pointer surgery of the move from the full to the partial list. */
    method Relink(a: nat, prev: nat, ghost i: nat)
      requires i < |fulls| && fulls[i] == a && a in slabs && prev == At(fulls, i - 1) && prev != a
      requires (i > 0 <==> prev != 0) && (i > 0 ==> prev in slabs)
      modifies `slabs, `partial, `full
      ensures slabs == Demoted(old(slabs), fulls, i, old(partial)) && partial == a
      ensures full == if i == 0 then old(slabs[a].next) else old(full)
    {
      var next := slabs[a].next;
      if prev != 0 { slabs := slabs[prev := slabs[prev].(next := next)]; } else { full := next; }
      slabs := slabs[a := slabs[a].(next := partial)];
      partial := a;
    }

    /** A slab that is no longer full goes to the front of the partial list. */
    method Demote(a: nat, prev: nat, ghost i: nat)
      requires Filled() && Listed(a) && i < |fulls| && fulls[i] == a && a in slabs && slabs[a].used < slabs[a].count
      requires prev == At(fulls, i - 1) && (i > 0 ==> prev != 0 && prev in slabs)
      modifies `slabs, `partial, `full, `partials, `fulls
      ensures Valid() && partials == [a] + old(partials) && fulls == Remove(old(fulls), i)
      ensures a in slabs && slabs[a].freeList == old(slabs)[a].freeList
    {
      DemoteKeepsLists(slabs, full, fulls, partial, partials, unused, unuseds, i);
      ContentIgnoresNext(Now(), Demoted(slabs, fulls, i, partial), pmm.Bits(), size);
      Relink(a, prev, i);
      partials, fulls := [a] + partials, Remove(fulls, i);
    }

    lemma OwnerIsListed(obj: nat)
      requires Valid() && obj in live
      ensures var a := live[obj].0;
              && a in slabs && 0 < slabs[a].used <= slabs[a].count && (a in fulls) != (a in partials)
              && (a in fulls <==> slabs[a].used == slabs[a].count)
              && (forall b :: b in slabs ==> (InRange(slabs[b], size, obj) <==> b == a))
    {
      var a := live[obj].0;
      assert ObjectOk(slabs, stack, size, live, obj);
      assert SlabOk(slabs, word, stack, pmm.Bits(), size, a) && SlabPlaced(slabs, fulls, partials, unuseds, 0, a);
      DistinctBelow(stack[a], slabs[a].count);
      forall b | b in slabs ensures InRange(slabs[b], size, obj) <==> b == a {
        RangeFindsOwner(Now(), pmm.Bits(), size, obj, b);
      }
    }

    lemma ZeroIsNotLive()
      requires Valid()
      ensures 0 !in live
    {
      assert 0 in live ==> ObjectOk(slabs, stack, size, live, 0) && live[0].0 != 0;
    }

    /** No slab's object range contains the address. */
    ghost predicate Foreign(obj: nat)
      reads this
    {
      forall a :: a in slabs ==> !InRange(slabs[a], size, obj)
    }

    /** slab_free: of a live object exactly that object stops being live, and what the others hold
        is not touched.  It becomes the next object of its slab, which moves to the front of the
        partial list if it was full.  Of NULL or of an address in no slab nothing changes. */
    method Free(obj: nat)
      requires Valid() && (obj != 0 && obj !in live ==> Foreign(obj))
      modifies `slabs, `word, `stack, `live, `partial, `full, `partials, `fulls
      ensures Valid() && live == old(live) - {obj} && Pages() == old(Pages())
      ensures obj !in old(live) ==> slabs == old(slabs) && word == old(word)
      ensures obj in old(live) ==> var a := old(live)[obj].0;
        && a in old(slabs) && a in slabs && slabs[a].freeList == obj
        && partials == if old(slabs)[a].used == old(slabs)[a].count then [a] + old(partials) else old(partials)
      ensures WordsKept(live, old(word), word)
    {
      ZeroIsNotLive();
      if obj == 0 { return; }
      if obj in live { OwnerIsListed(obj); }
      var slab, prev, i := FindOwner(partial, obj, partials);
      if slab == 0 { slab, prev, i := FindOwner(full, obj, fulls); }
      if slab == 0 { return; }
      PushObject(slab, obj);
      if slabs[slab].used == slabs[slab].count - 1 {
        Demote(slab, prev, i);
      }
    }
  
    // ----- slab_cache_info -----

    method CountList(head: nat, ghost s: seq<nat>) returns (total: nat, inUse: nat)
      requires size > 0 && Chain(slabs, head, s) && forall a :: a in s && a in slabs ==> slabs[a].count == Count(size)
      ensures total == |s| * Count(size) && inUse == TotalUsed(slabs, s)
    {
      total, inUse := 0, 0;
      var slab := head;
      ghost var i := 0;
      while slab != 0
        invariant 0 <= i <= |s| && slab == At(s, i)
        invariant total == i * Count(size)
        invariant inUse == TotalUsed(slabs, s[..i])
        decreases |s| - i
      {
        assert NextOk(slabs, s, i) && s[i] in s;
        assert s[..i + 1][..i] == s[..i];
        total := total + slabs[slab].count;
        inUse := inUse + slabs[slab].used;
        slab := slabs[slab].next;
        i := i + 1;
      }
      assert i < |s| ==> NextOk(slabs, s, i);
      assert s[..i] == s;
    }

    /** The totals over the three lists: every object slot, and every live object. */
    method Info() returns (total: nat, inUse: nat)
      requires Valid()
      ensures inUse == |live|
      ensures total == |fulls| * Count(size) + |partials| * Count(size) + |unuseds| * Count(size)
      ensures var n := |fulls| + |partials| + |unuseds|;
              total * size <= n * 4048 && (n > 0 ==> n * 4048 < total * size + n * size)
    {
      forall a | a in slabs ensures slabs[a].count == Count(size) { assert SlabOk(slabs, word, stack, pmm.Bits(), size, a); }
      var tf, uf := CountList(full, fulls);
      var tp, up := CountList(partial, partials);
      var tu, uu := CountList(unused, unuseds);
      CountedOnce();
      total, inUse := tf + tp + tu, uf + up + uu;
      TotalIsMost(size, |fulls| + |partials| + |unuseds|, |fulls|, |partials|, |unuseds|, total);
    }

    lemma CountedOnce()
      requires Valid()
      ensures TotalUsed(slabs, fulls) + TotalUsed(slabs, partials) + TotalUsed(slabs, unuseds) == |live|
    {
      TotalUsedIsLive(Now(), pmm.Bits(), size, fulls);
      TotalUsedIsLive(Now(), pmm.Bits(), size, partials);
      TotalUsedIsLive(Now(), pmm.Bits(), size, unuseds);
      var f, p, u := ObjectsIn(live, fulls), ObjectsIn(live, partials), ObjectsIn(live, unuseds);
      forall o | o in live
        ensures if o in f then o !in p && o !in u else (o in p) != (o in u) {
        assert ObjectOk(slabs, stack, size, live, o);
        assert SlabPlaced(slabs, fulls, partials, unuseds, 0, live[o].0);
      }
      PartitionCount(live.Keys, f, p, u);
    }
  }
}
