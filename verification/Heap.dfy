/** The kernel heap of mm/heap/heap.c: first fit over a doubly linked free list, with headers
    in-band in front of each payload.  Addresses are numbers, 0 is NULL.

    `hdr` is memory read as headers and `mem` memory read as bytes.  They overlay each other:
    writing a header forgets the bytes under it, and writing a byte forgets the headers over
    it.  Absence from either map means unspecified contents. */
module Heap {
  import opened Common
  import opened HeapPages
  import Pmm
  import PT = PageTables
  import Vmm

  const HEADER := 32
  const ALIGN := 16
  const INITIAL_SIZE := 0x20_0000
  const MAGIC_FREE := 0xDEAD_BEEF_CAFE_BAB0
  const MAGIC_USED := 0xCAFE_BABE_DEAD_BEEF

  datatype Header = Header(magic: nat, size: nat, next: nat, prev: nat)

  type Headers = map<nat, Header>
  type Bytes = map<nat, bv8>

  // ----- Blocks -----

  /** The first address after block b. */
  ghost function End(hdr: Headers, b: nat): nat
    requires b in hdr
  {
    b + HEADER + hdr[b].size
  }

  /** b starts a 16-aligned block, and another one or the end of the heap follows it. */
  ghost predicate BlockOk(hdr: Headers, blocks: set<nat>, start: nat, end: nat, b: nat) {
    && b in hdr && start <= b && 0 < b && b % ALIGN == 0
    && hdr[b].size >= ALIGN && hdr[b].size % ALIGN == 0
    && End(hdr, b) <= end && (End(hdr, b) < end ==> End(hdr, b) in blocks)
  }

  ghost predicate Apart(hdr: Headers, b: nat, c: nat) {
    b in hdr && (b < c ==> End(hdr, b) <= c)
  }

  /** The blocks tile [start, end). */
  ghost predicate Tiled(hdr: Headers, blocks: set<nat>, start: nat, end: nat) {
    && start <= end && (start < end ==> start in blocks)
    && (forall b {:trigger BlockOk(hdr, blocks, start, end, b)} :: b in blocks ==> BlockOk(hdr, blocks, start, end, b))
    && (forall b, c {:trigger Apart(hdr, b, c)} :: b in blocks && c in blocks ==> Apart(hdr, b, c))
  }

  /** Every heap address lies in exactly one block. */
  lemma {:induction false} TiledFrom(hdr: Headers, blocks: set<nat>, start: nat, end: nat, b: nat,
                                     a: nat) returns (c: nat)
    requires Tiled(hdr, blocks, start, end) && b in blocks && b <= a < end
    ensures c in blocks && c in hdr && c <= a < End(hdr, c)
    decreases end - b
  {
    assert BlockOk(hdr, blocks, start, end, b);
    if a < End(hdr, b) { c := b; } else { c := TiledFrom(hdr, blocks, start, end, End(hdr, b), a); }
  }

  lemma TiledExactly(hdr: Headers, blocks: set<nat>, start: nat, end: nat, a: nat)
    requires Tiled(hdr, blocks, start, end) && start <= a < end
    ensures exists b :: b in blocks && b in hdr && b <= a < End(hdr, b)
    ensures forall b, c ::
      (b in blocks && c in blocks && b in hdr && c in hdr && b <= a < End(hdr, b) && c <= a < End(hdr, c)) ==> b == c
  {
    var b := TiledFrom(hdr, blocks, start, end, start, a);
    forall b, c | b in blocks && c in blocks && b in hdr && c in hdr && b <= a < End(hdr, b) && c <= a < End(hdr, c)
      ensures b == c {
      assert Apart(hdr, b, c) && Apart(hdr, c, b);
    }
  }

  // ----- The free list -----

  ghost predicate Link(hdr: Headers, free: seq<nat>, i: int)
    requires 0 <= i < |free|
  {
    && free[i] != 0 && free[i] in hdr
    && hdr[free[i]].next == At(free, i + 1) && hdr[free[i]].prev == At(free, i - 1)
  }

  /** head is an acyclic doubly linked list visiting exactly `free`. */
  ghost predicate Linked(hdr: Headers, free: seq<nat>, head: nat) {
    && head == At(free, 0) && Distinct(free)
    && (forall i {:trigger Link(hdr, free, i)} :: 0 <= i < |free| ==> Link(hdr, free, i))
  }

  /** Free-list blocks carry the free magic, all other blocks the used one. */
  ghost predicate Marked(hdr: Headers, blocks: set<nat>, free: seq<nat>) {
    && (forall b :: b in free ==> b in blocks)
    && (forall b :: b in blocks ==> b in hdr && hdr[b].magic == if b in free then MAGIC_FREE else MAGIC_USED)
  }

  ghost predicate Inv(hdr: Headers, blocks: set<nat>, free: seq<nat>, head: nat, start: nat, end: nat) {
    Tiled(hdr, blocks, start, end) && Linked(hdr, free, head) && Marked(hdr, blocks, free)
  }

  /** The live blocks and their payload sizes. */
  ghost function Live(hdr: Headers, blocks: set<nat>): map<nat, nat> {
    map b | b in blocks && b in hdr && hdr[b].magic == MAGIC_USED :: hdr[b].size
  }

  /** Live payloads are 16-aligned and pairwise disjoint. */
  lemma PayloadsDisjoint(hdr: Headers, blocks: set<nat>, start: nat, end: nat, b: nat, c: nat)
    requires Tiled(hdr, blocks, start, end)
    requires b in Live(hdr, blocks) && c in Live(hdr, blocks) && b != c
    ensures (b + HEADER) % ALIGN == 0
    ensures b + HEADER + Live(hdr, blocks)[b] <= c || c + HEADER + Live(hdr, blocks)[c] <= b
  {
    assert BlockOk(hdr, blocks, start, end, b) && Apart(hdr, b, c) && Apart(hdr, c, b);
  }

  /** What the code relies on when it follows the links of free[i]. */
  ghost predicate Neighbours(hdr: Headers, free: seq<nat>, i: int) {
    && 0 <= i < |free| && free[i] in hdr
    && hdr[free[i]].next == At(free, i + 1) && hdr[free[i]].prev == At(free, i - 1)
    && (At(free, i + 1) != 0 ==> At(free, i + 1) in hdr && At(free, i + 1) != free[i])
    && (At(free, i - 1) != 0 ==> At(free, i - 1) in hdr && At(free, i - 1) != free[i])
    && (At(free, i - 1) == 0 <==> i == 0) && (i + 1 < |free| <==> At(free, i + 1) != 0)
    && (At(free, i - 1) != 0 ==> At(free, i - 1) != At(free, i + 1))
  }

  lemma LinkedNeighbours(hdr: Headers, free: seq<nat>, head: nat, i: int)
    requires Linked(hdr, free, head) && 0 <= i < |free|
    ensures Neighbours(hdr, free, i)
  {
    assert Link(hdr, free, i);
    if i > 0 { assert Link(hdr, free, i - 1); }
    if i + 1 < |free| { assert Link(hdr, free, i + 1); }
  }

  // ----- List surgery -----

  /** The block after free[i] on the list comes right behind it in memory. */
  ghost predicate Touches(hdr: Headers, free: seq<nat>, i: int) {
    0 <= i && i + 1 < |free| && free[i] in hdr && End(hdr, free[i]) == free[i + 1]
  }

  /** The free list after coalescing free[i] with its list neighbours. */
  ghost function Coalesced(hdr: Headers, free: seq<nat>, i: int): seq<nat>
    requires 0 <= i < |free|
  {
    var f := if Touches(hdr, free, i) then Remove(free, i + 1) else free;
    if Touches(hdr, free, i - 1) then Remove(f, i) else f
  }

  /** A block put in front of the list absorbs the old head if they touch. */
  lemma HeadCoalesced(hdr: Headers, b: nat, free: seq<nat>)
    requires b in hdr
    ensures Coalesced(hdr, [b] + free, 0) == [b] + if free != [] && End(hdr, b) == free[0] then free[1..] else free
  {
    assert free != [] ==> Remove([b] + free, 1) == [b] + free[1..];
  }

  /** Where free[i] ends once it has absorbed the block behind it. */
  ghost function Reach(hdr: Headers, free: seq<nat>, i: int): nat
    requires 0 <= i < |free| && free[i] in hdr && (Touches(hdr, free, i) ==> free[i + 1] in hdr)
  {
    if Touches(hdr, free, i) then End(hdr, free[i + 1]) else End(hdr, free[i])
  }

  /** Setting the `prev` of n, unless n is NULL. */
  ghost function SetPrev(hdr: Headers, n: nat, v: nat): Headers {
    if n != 0 && n in hdr then hdr[n := hdr[n].(prev := v)] else hdr
  }

  ghost function SetNext(hdr: Headers, n: nat, v: nat): Headers {
    if n != 0 && n in hdr then hdr[n := hdr[n].(next := v)] else hdr
  }

  lemma UnlinkKeepsList(hdr: Headers, free: seq<nat>, head: nat, i: int)
    requires Linked(hdr, free, head) && 0 <= i < |free|
    ensures var hdr' := SetPrev(SetNext(hdr, At(free, i - 1), At(free, i + 1)), At(free, i + 1), At(free, i - 1));
            Linked(hdr', Remove(free, i), if i == 0 then At(free, 1) else head)
  {
    var hdr' := SetPrev(SetNext(hdr, At(free, i - 1), At(free, i + 1)), At(free, i + 1), At(free, i - 1));
    var free' := Remove(free, i);
    forall j | 0 <= j < |free'| ensures Link(hdr', free', j) {
      var k := if j < i then j else j + 1;
      assert free'[j] == free[k] && Link(hdr, free, k);
      assert j + 1 < |free'| ==> free'[j + 1] == free[if j + 1 < i then j + 1 else j + 2];
    }
  }

  lemma ListIgnoresOthers(hdr: Headers, hdr': Headers, free: seq<nat>, head: nat)
    requires Linked(hdr, free, head)
    requires forall i :: 0 <= i < |free| && free[i] in hdr ==>
      free[i] in hdr' && hdr'[free[i]].next == hdr[free[i]].next && hdr'[free[i]].prev == hdr[free[i]].prev
    ensures Linked(hdr', free, head)
  {
    forall i | 0 <= i < |free| ensures Link(hdr', free, i) { assert Link(hdr, free, i); }
  }

  lemma ReplaceKeepsList(hdr: Headers, free: seq<nat>, head: nat, i: int, nb: nat, h: Header)
    requires Linked(hdr, free, head) && 0 <= i < |free| && nb !in free && nb != 0
    requires h.next == At(free, i + 1) && h.prev == At(free, i - 1)
    ensures var hdr' := SetNext(SetPrev(hdr[nb := h], At(free, i + 1), nb), At(free, i - 1), nb);
            Linked(hdr', free[i := nb], if i == 0 then nb else head)
  {
    var hdr' := SetNext(SetPrev(hdr[nb := h], At(free, i + 1), nb), At(free, i - 1), nb);
    var free' := free[i := nb];
    forall j | 0 <= j < |free'| ensures Link(hdr', free', j) { assert Link(hdr, free, j); }
  }

  lemma PushKeepsList(hdr: Headers, free: seq<nat>, head: nat, b: nat, h: Header)
    requires Linked(hdr, free, head) && b !in free && b != 0 && h.next == head && h.prev == 0
    ensures Linked(SetPrev(hdr, head, b)[b := h], [b] + free, b)
  {
    var hdr' := SetPrev(hdr, head, b)[b := h];
    var free' := [b] + free;
    forall j | 0 <= j < |free'| ensures Link(hdr', free', j) {
      if j > 0 { assert Link(hdr, free, j - 1) && free'[j] == free[j - 1]; }
    }
  }

  // ----- Taking a block whole -----

  ghost function TakeWhole(hdr: Headers, free: seq<nat>, i: int): Headers
    requires 0 <= i < |free| && free[i] in hdr
  {
    SetPrev(SetNext(hdr, At(free, i - 1), At(free, i + 1)), At(free, i + 1), At(free, i - 1))
    [free[i] := Header(MAGIC_USED, hdr[free[i]].size, 0, 0)]
  }

  lemma SameSizesKeepTiling(hdr: Headers, hdr': Headers, blocks: set<nat>, start: nat, end: nat)
    requires Tiled(hdr, blocks, start, end)
    requires forall b :: b in blocks ==> b in hdr' && (b in hdr ==> hdr'[b].size == hdr[b].size)
    ensures Tiled(hdr', blocks, start, end)
  {
    forall b | b in blocks ensures BlockOk(hdr', blocks, start, end, b) { assert BlockOk(hdr, blocks, start, end, b); }
    forall b, c | b in blocks && c in blocks ensures Apart(hdr', b, c) { assert Apart(hdr, b, c); }
  }

  /** hdr' has the sizes and magics of hdr, except at b and d. */
  ghost predicate SameBut(hdr: Headers, hdr': Headers, b: nat, d: nat) {
    forall c {:trigger hdr'[c]} {:trigger c in hdr'} :: c in hdr && c != b && c != d ==>
      c in hdr' && hdr'[c].size == hdr[c].size && hdr'[c].magic == hdr[c].magic
  }

  /** Taking b off the free list and marking it used makes exactly b live. */
  lemma TakenMarks(hdr: Headers, hdr': Headers, blocks: set<nat>, free: seq<nat>, free': seq<nat>, b: nat)
    requires Marked(hdr, blocks, free) && b in free && SameBut(hdr, hdr', b, b)
    requires b in hdr' && hdr'[b].magic == MAGIC_USED
    requires forall c :: c in free' <==> c in free && c != b
    ensures Marked(hdr', blocks, free') && b !in Live(hdr, blocks)
    ensures Live(hdr', blocks) == Live(hdr, blocks)[b := hdr'[b].size]
  {
  }

  lemma TakeWholeKeepsInv(hdr: Headers, blocks: set<nat>, free: seq<nat>, head: nat, start: nat, end: nat, i: int)
    requires Inv(hdr, blocks, free, head, start, end) && 0 <= i < |free| && free[i] in hdr
    ensures var b := free[i]; var hdr' := TakeWhole(hdr, free, i);
            && Inv(hdr', blocks, Remove(free, i), if i == 0 then At(free, 1) else head, start, end)
            && Live(hdr', blocks) == Live(hdr, blocks)[b := hdr[b].size] && b !in Live(hdr, blocks)
  {
    var free', hdr' := Remove(free, i), TakeWhole(hdr, free, i);
    RemoveMembers(free, i);
    TakeWholeKeepsList(hdr, free, head, i);
    SameSizesKeepTiling(hdr, hdr', blocks, start, end);
    TakenMarks(hdr, hdr', blocks, free, free', free[i]);
  }

  lemma TakeWholeKeepsList(hdr: Headers, free: seq<nat>, head: nat, i: int)
    requires Linked(hdr, free, head) && 0 <= i < |free| && free[i] in hdr
    ensures Linked(TakeWhole(hdr, free, i), Remove(free, i), if i == 0 then At(free, 1) else head)
    ensures SameBut(hdr, TakeWhole(hdr, free, i), free[i], free[i])
  {
    RemoveMembers(free, i);
    UnlinkKeepsList(hdr, free, head, i);
    ListIgnoresOthers(SetPrev(SetNext(hdr, At(free, i - 1), At(free, i + 1)), At(free, i + 1), At(free, i - 1)),
                      TakeWhole(hdr, free, i), Remove(free, i), if i == 0 then At(free, 1) else head);
  }

  // ----- Splitting a block -----

  ghost function TakeSplit(hdr: Headers, free: seq<nat>, i: int, n: nat): Headers
    requires 0 <= i < |free| && free[i] in hdr && hdr[free[i]].size >= n + HEADER
  {
    var b := free[i];
    var nb := b + HEADER + n;
    var h := Header(MAGIC_FREE, hdr[b].size - HEADER - n, At(free, i + 1), At(free, i - 1));
    SetNext(SetPrev(hdr[nb := h], At(free, i + 1), nb), At(free, i - 1), nb)[b := Header(MAGIC_USED, n, 0, 0)]
  }

  /** The position of a split is inside the block, hence not a block yet. */
  lemma SplitPoint(hdr: Headers, blocks: set<nat>, start: nat, end: nat, b: nat, nb: nat)
    requires Tiled(hdr, blocks, start, end) && b in blocks && b in hdr && b < nb < End(hdr, b)
    ensures nb !in blocks
  {
    assert nb in blocks ==> Apart(hdr, b, nb);
  }

  /** hdr' has block b of hdr cut down to n bytes and a new block behind it. */
  ghost predicate Cut(hdr: Headers, hdr': Headers, blocks: set<nat>, start: nat, end: nat, b: nat, n: nat) {
    var nb := b + HEADER + n;
    && Tiled(hdr, blocks, start, end) && b in blocks && b in hdr
    && ALIGN <= n && n % ALIGN == 0 && hdr[b].size >= n + HEADER + ALIGN
    && nb in hdr' && hdr'[nb].size == hdr[b].size - HEADER - n
    && b in hdr' && hdr'[b].size == n
    && (forall c :: c in blocks && c != b ==> c in hdr' && (c in hdr ==> hdr'[c].size == hdr[c].size))
  }

  lemma SplitApart(hdr: Headers, hdr': Headers, blocks: set<nat>, start: nat, end: nat, b: nat, n: nat, c: nat, d: nat)
    requires Cut(hdr, hdr', blocks, start, end, b, n)
    requires var nb := b + HEADER + n; (c in blocks || c == nb) && (d in blocks || d == nb) && nb !in blocks
    ensures Apart(hdr', c, d)
  {
    var nb := b + HEADER + n;
    if c == nb {
      if d != nb { assert Apart(hdr, b, d); }
    } else if d == nb {
      assert Apart(hdr, c, b) && BlockOk(hdr, blocks, start, end, c);
      assert c > b ==> Apart(hdr, b, c);
    } else {
      assert Apart(hdr, c, d) && BlockOk(hdr, blocks, start, end, c);
    }
  }

  lemma AlignedSum(a: int, b: int)
    requires a % ALIGN == 0 && b % ALIGN == 0
    ensures (a + b) % ALIGN == 0 && (a - b) % ALIGN == 0
  {
  }

  lemma SplitBlocksOk(hdr: Headers, hdr': Headers, blocks: set<nat>, start: nat, end: nat, b: nat, n: nat, c: nat)
    requires Cut(hdr, hdr', blocks, start, end, b, n) && (c in blocks || c == b + HEADER + n)
    requires b + HEADER + n !in blocks
    ensures BlockOk(hdr', blocks + {b + HEADER + n}, start, end, c)
  {
    assert BlockOk(hdr, blocks, start, end, b);
    if c == b + HEADER + n {
      AlignedSum(b + HEADER, n);
      AlignedSum(hdr[b].size - HEADER, n);
    } else {
      assert BlockOk(hdr, blocks, start, end, c);
    }
  }

  lemma SplitKeepsTiling(hdr: Headers, hdr': Headers, blocks: set<nat>, start: nat, end: nat, b: nat, n: nat)
    requires Cut(hdr, hdr', blocks, start, end, b, n)
    ensures b + HEADER + n !in blocks && Tiled(hdr', blocks + {b + HEADER + n}, start, end)
  {
    var blocks' := blocks + {b + HEADER + n};
    SplitPoint(hdr, blocks, start, end, b, b + HEADER + n);
    forall c | c in blocks' ensures BlockOk(hdr', blocks', start, end, c) {
      SplitBlocksOk(hdr, hdr', blocks, start, end, b, n, c);
    }
    forall c, d | c in blocks' && d in blocks' ensures Apart(hdr', c, d) {
      SplitApart(hdr, hdr', blocks, start, end, b, n, c, d);
    }
  }

  lemma TakeSplitKeepsList(hdr: Headers, free: seq<nat>, head: nat, i: int, n: nat)
    requires Linked(hdr, free, head) && 0 <= i < |free| && free[i] in hdr && hdr[free[i]].size >= n + HEADER
    requires free[i] + HEADER + n !in free
    ensures var nb := free[i] + HEADER + n; var hdr' := TakeSplit(hdr, free, i, n);
            && Linked(hdr', free[i := nb], if i == 0 then nb else head)
            && SameBut(hdr, hdr', free[i], nb) && nb in hdr' && hdr'[nb].magic == MAGIC_FREE
            && hdr'[nb].size == hdr[free[i]].size - HEADER - n
            && hdr'[free[i]] == Header(MAGIC_USED, n, 0, 0)
  {
    var b := free[i];
    var nb := b + HEADER + n;
    var h := Header(MAGIC_FREE, hdr[b].size - HEADER - n, At(free, i + 1), At(free, i - 1));
    assert Link(hdr, free, i);
    ReplaceKeepsList(hdr, free, head, i, nb, h);
    ReplaceMembers(free, i, nb);
    ListIgnoresOthers(SetNext(SetPrev(hdr[nb := h], At(free, i + 1), nb), At(free, i - 1), nb),
                      TakeSplit(hdr, free, i, n), free[i := nb], if i == 0 then nb else head);
  }

  lemma SplitMarks(hdr: Headers, hdr': Headers, blocks: set<nat>, free: seq<nat>, free': seq<nat>, b: nat, nb: nat)
    requires Marked(hdr, blocks, free) && b in free && nb !in blocks && SameBut(hdr, hdr', b, nb)
    requires b in hdr' && hdr'[b].magic == MAGIC_USED && nb in hdr' && hdr'[nb].magic == MAGIC_FREE
    requires forall c :: c in free' <==> c == nb || (c in free && c != b)
    ensures Marked(hdr', blocks + {nb}, free') && b !in Live(hdr, blocks)
    ensures Live(hdr', blocks + {nb}) == Live(hdr, blocks)[b := hdr'[b].size]
  {
  }

  lemma TakeSplitKeepsInv(hdr: Headers, blocks: set<nat>, free: seq<nat>, head: nat, start: nat, end: nat,
                          i: int, n: nat)
    requires Inv(hdr, blocks, free, head, start, end) && 0 <= i < |free| && free[i] in hdr
    requires ALIGN <= n && n % ALIGN == 0 && hdr[free[i]].size >= n + HEADER + ALIGN
    ensures var b := free[i]; var nb := b + HEADER + n; var hdr' := TakeSplit(hdr, free, i, n);
            && Inv(hdr', blocks + {nb}, free[i := nb], if i == 0 then nb else head, start, end)
            && Live(hdr', blocks + {nb}) == Live(hdr, blocks)[b := n] && b !in Live(hdr, blocks)
  {
    var b, nb, hdr' := free[i], free[i] + HEADER + n, TakeSplit(hdr, free, i, n);
    SplitPoint(hdr, blocks, start, end, b, nb);
    TakeSplitKeepsList(hdr, free, head, i, n);
    SplitKeepsTiling(hdr, hdr', blocks, start, end, b, n);
    ReplaceMembers(free, i, nb);
    SplitMarks(hdr, hdr', blocks, free, free[i := nb], b, nb);
  }

  lemma ReplaceMembers(s: seq<nat>, i: int, v: nat)
    requires Distinct(s) && 0 <= i < |s|
    ensures forall c :: c in s[i := v] <==> c == v || (c in s && c != s[i])
  {
    var r := s[i := v];
    assert r[i] == v;
    forall c | c in s && c != s[i] ensures c in r {
      var j :| 0 <= j < |s| && s[j] == c;
      assert r[j] == c;
    }
  }

  // ----- Returning a block, and growing the heap -----

  ghost function Push(hdr: Headers, head: nat, b: nat, size: nat): Headers {
    SetPrev(hdr, head, b)[b := Header(MAGIC_FREE, size, head, 0)]
  }

  lemma FreeKeepsInv(hdr: Headers, blocks: set<nat>, free: seq<nat>, head: nat, start: nat, end: nat, b: nat)
    requires Inv(hdr, blocks, free, head, start, end) && b in Live(hdr, blocks)
    ensures var hdr' := Push(hdr, head, b, hdr[b].size);
            && Inv(hdr', blocks, [b] + free, b, start, end)
            && Live(hdr', blocks) == Live(hdr, blocks) - {b}
  {
    var hdr' := Push(hdr, head, b, hdr[b].size);
    assert BlockOk(hdr, blocks, start, end, b);
    PushKeepsList(hdr, free, head, b, Header(MAGIC_FREE, hdr[b].size, head, 0));
    SameSizesKeepTiling(hdr, hdr', blocks, start, end);
    assert forall c :: c in [b] + free <==> c == b || c in free;
  }

  lemma GrowKeepsInv(hdr: Headers, blocks: set<nat>, free: seq<nat>, head: nat, start: nat, end: nat, size: nat)
    requires Inv(hdr, blocks, free, head, start, end) && 0 < start && start % ALIGN == 0 && end % ALIGN == 0
    requires size >= ALIGN && size % ALIGN == 0
    ensures var hdr' := Push(hdr, head, end, size); var end' := end + HEADER + size;
            && Inv(hdr', blocks + {end}, [end] + free, end, start, end')
            && Live(hdr', blocks + {end}) == Live(hdr, blocks)
  {
    var hdr', end', blocks' := Push(hdr, head, end, size), end + HEADER + size, blocks + {end};
    assert end in blocks ==> BlockOk(hdr, blocks, start, end, end);
    PushKeepsList(hdr, free, head, end, Header(MAGIC_FREE, size, head, 0));
    assert forall c :: c in [end] + free <==> c == end || c in free;
    forall c | c in blocks ensures c in hdr && c in hdr' && hdr'[c].size == hdr[c].size {
      assert BlockOk(hdr, blocks, start, end, c);
    }
    GrowKeepsTiling(hdr, hdr', blocks, start, end, size);
  }

  lemma GrowKeepsTiling(hdr: Headers, hdr': Headers, blocks: set<nat>, start: nat, end: nat, size: nat)
    requires Tiled(hdr, blocks, start, end) && 0 < start && end % ALIGN == 0 && size >= ALIGN && size % ALIGN == 0
    requires forall c :: c in blocks ==> c in hdr && c in hdr' && hdr'[c].size == hdr[c].size
    requires end in hdr' && hdr'[end].size == size
    ensures Tiled(hdr', blocks + {end}, start, end + HEADER + size)
  {
    var end', blocks' := end + HEADER + size, blocks + {end};
    forall c | c in blocks ensures c < end && BlockOk(hdr', blocks', start, end', c) {
      assert BlockOk(hdr, blocks, start, end, c);
    }
    assert BlockOk(hdr', blocks', start, end', end);
    forall c, d | c in blocks' && d in blocks' ensures Apart(hdr', c, d) {
      if c in blocks {
        assert BlockOk(hdr, blocks, start, end, c);
        if d in blocks { assert Apart(hdr, c, d); }
      }
    }
  }

  // ----- Coalescing -----

  /** Absorbing free[j + 1] into free[j], which it follows in memory. */
  ghost function Merge(hdr: Headers, free: seq<nat>, j: int): Headers
    requires 0 <= j && j + 1 < |free| && free[j] in hdr && free[j + 1] in hdr
  {
    var b, c := free[j], free[j + 1];
    SetPrev(hdr[b := hdr[b].(size := hdr[b].size + HEADER + hdr[c].size, next := At(free, j + 2))], At(free, j + 2), b)
  }

  lemma MergeKeepsList(hdr: Headers, free: seq<nat>, head: nat, j: int)
    requires Linked(hdr, free, head) && 0 <= j && j + 1 < |free| && free[j] in hdr && free[j + 1] in hdr
    ensures Linked(Merge(hdr, free, j), Remove(free, j + 1), head)
  {
    var hdr', free' := Merge(hdr, free, j), Remove(free, j + 1);
    UnlinkKeepsList(hdr, free, head, j + 1);
    var mid := SetPrev(SetNext(hdr, At(free, j), At(free, j + 2)), At(free, j + 2), At(free, j));
    RemoveMembers(free, j + 1);
    forall k | 0 <= k < |free| ensures free[k] in hdr && free[k] != 0 { assert Link(hdr, free, k); }
    ListIgnoresOthers(mid, hdr', free', head);
  }

  /** hdr' has block c of hdr absorbed by block b in front of it. */
  ghost predicate Joined(hdr: Headers, hdr': Headers, blocks: set<nat>, start: nat, end: nat, b: nat, c: nat) {
    && Tiled(hdr, blocks, start, end) && b in blocks && c in blocks && b in hdr && c in hdr && End(hdr, b) == c
    && b in hdr' && hdr'[b].size == hdr[b].size + HEADER + hdr[c].size
    && (forall d :: d in blocks && d != b ==> d in hdr' && (d in hdr ==> hdr'[d].size == hdr[d].size))
  }

  lemma MergeApart(hdr: Headers, hdr': Headers, blocks: set<nat>, start: nat, end: nat, b: nat, c: nat, d: nat, e: nat)
    requires Joined(hdr, hdr', blocks, start, end, b, c) && d in blocks && e in blocks && d != c && e != c
    ensures Apart(hdr', d, e)
  {
    if d == b {
      assert Apart(hdr, b, e) && Apart(hdr, c, e);
    } else {
      assert Apart(hdr, d, e);
    }
  }

  lemma MergeKeepsTiling(hdr: Headers, hdr': Headers, blocks: set<nat>, start: nat, end: nat, b: nat, c: nat)
    requires Joined(hdr, hdr', blocks, start, end, b, c)
    ensures Tiled(hdr', blocks - {c}, start, end)
  {
    var blocks' := blocks - {c};
    assert BlockOk(hdr, blocks, start, end, b) && BlockOk(hdr, blocks, start, end, c);
    forall d | d in blocks' ensures BlockOk(hdr', blocks', start, end, d) {
      assert BlockOk(hdr, blocks, start, end, d);
      if d != b { assert Apart(hdr, b, d) && Apart(hdr, d, b); }
    }
    forall d, e | d in blocks' && e in blocks' ensures Apart(hdr', d, e) {
      MergeApart(hdr, hdr', blocks, start, end, b, c, d, e);
    }
  }

  lemma MergeKeepsInv(hdr: Headers, blocks: set<nat>, free: seq<nat>, head: nat, start: nat, end: nat, j: int)
    requires Inv(hdr, blocks, free, head, start, end)
    requires 0 <= j && j + 1 < |free| && free[j] in hdr && free[j + 1] in hdr && End(hdr, free[j]) == free[j + 1]
    ensures var hdr' := Merge(hdr, free, j); var blocks' := blocks - {free[j + 1]};
            && Inv(hdr', blocks', Remove(free, j + 1), head, start, end)
            && Live(hdr', blocks') == Live(hdr, blocks)
  {
    var b, c, hdr' := free[j], free[j + 1], Merge(hdr, free, j);
    assert b in free && c in free;
    MergeKeepsList(hdr, free, head, j);
    MergeKeepsTiling(hdr, hdr', blocks, start, end, b, c);
    RemoveMembers(free, j + 1);
  }

  // ----- Bytes -----

  ghost predicate Same(mem: Bytes, mem': Bytes, a: nat) {
    (a in mem <==> a in mem') && (a in mem ==> mem'[a] == mem[a])
  }

  ghost predicate InPayload(live: map<nat, nat>, b: nat, a: nat) {
    b in live && b + HEADER <= a < b + HEADER + live[b]
  }

  /** No byte of a live payload differs. */
  ghost predicate Kept(mem: Bytes, mem': Bytes, live: map<nat, nat>) {
    forall b, a {:trigger InPayload(live, b, a)} :: InPayload(live, b, a) ==> Same(mem, mem', a)
  }

  ghost predicate Within(live: map<nat, nat>, hdr: Headers, blocks: set<nat>) {
    forall b :: b in live ==> b in blocks && b in hdr && hdr[b].size == live[b]
  }

  /** The header bytes at h are under no live payload. */
  ghost predicate Off(live: map<nat, nat>, h: nat) {
    forall b :: b in live ==> h <= b || b + HEADER + live[b] <= h
  }

  lemma BlocksAreOff(hdr: Headers, blocks: set<nat>, start: nat, end: nat, live: map<nat, nat>)
    requires Tiled(hdr, blocks, start, end) && Within(live, hdr, blocks)
    ensures forall h :: h in blocks ==> Off(live, h)
  {
    forall h | h in blocks ensures Off(live, h) {
      forall b | b in live ensures h <= b || b + HEADER + live[b] <= h { assert Apart(hdr, b, h); }
    }
  }

  lemma SplitIsOff(hdr: Headers, blocks: set<nat>, start: nat, end: nat, live: map<nat, nat>, b: nat, nb: nat)
    requires Tiled(hdr, blocks, start, end) && Within(live, hdr, blocks)
    requires b in blocks && b in hdr && b !in live && b < nb && nb + HEADER <= End(hdr, b)
    ensures Off(live, nb)
  {
    forall c | c in live ensures nb <= c || c + HEADER + live[c] <= nb {
      assert Apart(hdr, c, b) && Apart(hdr, b, c);
    }
  }

  lemma AgreeKeepsInv(hdr: Headers, hdr': Headers, blocks: set<nat>, free: seq<nat>, head: nat, start: nat, end: nat)
    requires Inv(hdr, blocks, free, head, start, end)
    requires forall c :: c in blocks && c in hdr ==> c in hdr' && hdr'[c] == hdr[c]
    ensures Inv(hdr', blocks, free, head, start, end) && Live(hdr', blocks) == Live(hdr, blocks)
  {
    assert forall i :: 0 <= i < |free| ==> free[i] in free;
    forall c | c in blocks ensures c in hdr { assert BlockOk(hdr, blocks, start, end, c); }
    SameSizesKeepTiling(hdr, hdr', blocks, start, end);
    ListIgnoresOthers(hdr, hdr', free, head);
  }

  /** Payload bytes are under no block header. */
  lemma PayloadOffHeaders(hdr: Headers, blocks: set<nat>, start: nat, end: nat, b: nat, a: nat)
    requires Tiled(hdr, blocks, start, end) && InPayload(Live(hdr, blocks), b, a)
    ensures forall c :: c in blocks ==> !(c <= a < c + HEADER)
  {
    forall c | c in blocks ensures !(c <= a < c + HEADER) { assert Apart(hdr, b, c) && Apart(hdr, c, b); }
  }

  /** The live blocks other than the one that ptr points into; ptr may be NULL. */
  ghost function Without(live: map<nat, nat>, ptr: nat): map<nat, nat> {
    if ptr >= HEADER then live - {ptr - HEADER} else live
  }

  ghost predicate CopiedAt(mem: Bytes, src: nat, mem': Bytes, dst: nat, k: nat) {
    (src + k in mem <==> dst + k in mem') && (src + k in mem ==> mem'[dst + k] == mem[src + k])
  }

  /** The n bytes at dst in mem' are those at src in mem. */
  ghost predicate Copied(mem: Bytes, src: nat, mem': Bytes, dst: nat, n: nat) {
    forall k: nat {:trigger CopiedAt(mem, src, mem', dst, k)} :: k < n ==> CopiedAt(mem, src, mem', dst, k)
  }

  lemma CopyStep(m0: Bytes, m: Bytes, m': Bytes, src: nat, dst: nat, i: nat, n: nat)
    requires Copied(m0, src, m, dst, i) && Outside(m0, m, dst, dst + n) && i < n
    requires src + n <= dst || dst + n <= src
    requires m' == if src + i in m then m[dst + i := m[src + i]] else m - {dst + i}
    ensures Copied(m0, src, m', dst, i + 1) && Outside(m0, m', dst, dst + n)
  {
    forall k: nat | k < i + 1 ensures CopiedAt(m0, src, m', dst, k) {
      if k < i { assert CopiedAt(m0, src, m, dst, k); }
    }
  }

  /** mem' differs from mem at most in [lo, hi). */
  ghost predicate Outside(mem: Bytes, mem': Bytes, lo: nat, hi: nat) {
    forall a :: !(lo <= a < hi) ==> (a in mem <==> a in mem') && (a in mem' && a in mem ==> mem'[a] == mem[a])
  }

  lemma KeptTwice(m0: Bytes, m1: Bytes, m2: Bytes, live: map<nat, nat>)
    requires Kept(m0, m1, live) && Kept(m1, m2, live)
    ensures Kept(m0, m2, live)
  {
  }

  lemma KeptFewer(mem: Bytes, mem': Bytes, live: map<nat, nat>, live': map<nat, nat>)
    requires Kept(mem, mem', live) && forall b :: b in live' ==> b in live && live'[b] == live[b]
    ensures Kept(mem, mem', live')
  {
    forall b, a | InPayload(live', b, a) ensures Same(mem, mem', a) { assert InPayload(live, b, a); }
  }

  lemma CopyThenFree(m0: Bytes, m1: Bytes, m2: Bytes, live: map<nat, nat>, p: nat, q: nat)
    requires p in live && q in live && p != q && live[p] <= live[q]
    requires Kept(m0, m1, live - {q}) && Kept(m1, m2, live - {p})
    requires Copied(m0, p + HEADER, m1, q + HEADER, live[p])
    ensures Copied(m0, p + HEADER, m2, q + HEADER, live[p]) && Kept(m0, m2, live - {p, q})
  {
    var src, dst := p + HEADER, q + HEADER;
    forall k: nat | k < live[p] ensures CopiedAt(m0, src, m2, dst, k) {
      assert CopiedAt(m0, src, m1, dst, k);
      assert InPayload(live - {p}, q, dst + k);
    }
    KeptFewer(m0, m1, live - {q}, live - {p, q});
    KeptFewer(m1, m2, live - {p}, live - {p, q});
  }

  /** Allocating q and then moving p's payload there keeps the bytes of all other blocks. */
  lemma MoveKeeps(m0: Bytes, m1: Bytes, m2: Bytes, live: map<nat, nat>, p: nat, q: nat, size: nat)
    requires p in live && q !in live && live[p] <= size
    requires Kept(m0, m1, live) && Kept(m1, m2, live[q := size] - {p, q})
    requires Copied(m1, p + HEADER, m2, q + HEADER, live[p])
    ensures Copied(m0, p + HEADER, m2, q + HEADER, live[p]) && Kept(m0, m2, live - {p})
  {
    var src, dst := p + HEADER, q + HEADER;
    forall k: nat | k < live[p] ensures CopiedAt(m0, src, m2, dst, k) {
      assert InPayload(live, p, src + k);
      assert CopiedAt(m1, src, m2, dst, k);
    }
    KeptFewer(m0, m1, live, live - {p});
    KeptFewer(m1, m2, live[q := size] - {p, q}, live - {p});
  }

  // ----- Requests -----

  function Round(size: nat): nat {
    (size + ALIGN - 1) / ALIGN * ALIGN
  }

  function PagesFor(n: nat): nat {
    (n + HEADER + PAGE - 1) / PAGE
  }

  lemma RoundFacts(size: nat)
    ensures Round(size) % ALIGN == 0 && size <= Round(size) < size + ALIGN && Round(Round(size)) == Round(size)
    ensures size > 0 ==> Round(size) >= ALIGN
  {
  }

  /** As few pages as hold a header and n bytes. */
  lemma PagesFacts(n: nat)
    requires n > 0
    ensures PagesFor(n) > 0 && (PagesFor(n) - 1) * PAGE < n + HEADER <= PagesFor(n) * PAGE < n + HEADER + PAGE
    ensures (PagesFor(n) * PAGE - HEADER) % ALIGN == 0
  {
  }

  /** New pages make a well-formed block. */
  lemma PagesMakeBlock(end: nat, pages: nat)
    requires end % PAGE == 0 && pages > 0
    ensures (end + pages * PAGE) % PAGE == 0 && end % ALIGN == 0
    ensures pages * PAGE - HEADER >= ALIGN && (pages * PAGE - HEADER) % ALIGN == 0
  {
  }

  /** A block for n bytes, put behind a heap that ends at `end`, would end beyond the limit, but not
      in the last page below 2^64 or past it. */
  predicate TooBig(end: nat, max: nat, n: nat) {
    max < end + HEADER + n <= WORD - PAGE
  }

  /** Such a block does end in that page or past it. */
  predicate Wraps(end: nat, n: nat) {
    end + HEADER + n > WORD - PAGE
  }

  /** The limit test of kmalloc adds whole pages in 64-bit arithmetic.  It turns a request away
      exactly if that is too big, and lets through one that wraps. */
  lemma GuardFacts(end: nat, max: nat, n: nat)
    requires end <= max < WORD && end % PAGE == 0 && max % PAGE == 0 && 0 < n && n + HEADER + PAGE <= WORD
    ensures (end + PagesFor(n) * PAGE) % WORD > max <==> TooBig(end, max, n)
    ensures end + PagesFor(n) * PAGE >= WORD <==> Wraps(end, n)
    ensures end + PagesFor(n) * PAGE <= max <==> end + HEADER + n <= max
  {
    PagesFacts(n);
    var e, m, p, w := end / PAGE, max / PAGE, PagesFor(n), WORD / PAGE;
    assert end == e * PAGE && max == m * PAGE && WORD == w * PAGE;
    PageBound(e, p, m, n);
    PageBound(e, p, w - 1, n);
  }

  lemma PageBound(e: nat, p: nat, m: nat, n: nat)
    requires p > 0 && (p - 1) * PAGE < n + HEADER <= p * PAGE
    ensures e + p <= m <==> e * PAGE + HEADER + n <= m * PAGE
  {
    if e + p <= m { assert (e + p) * PAGE <= m * PAGE; } else { assert m * PAGE <= (e + p - 1) * PAGE; }
  }

  /** A request of 2 GiB on a fresh heap is one it lets through. */
  lemma LimitLetsThrough()
    ensures var end, max := START + INITIAL_SIZE, START + MAX_SIZE;
            !TooBig(end, max, 0x8000_0000) && Wraps(end, 0x8000_0000)
            && (end + PagesFor(0x8000_0000) * PAGE) % WORD <= max
  {
    GuardFacts(START + INITIAL_SIZE, START + MAX_SIZE, 0x8000_0000);
  }

  /** The heap's end has moved, if at all, by as few pages as hold a header and n bytes. */
  ghost predicate Grew(end: nat, end': nat, n: nat, moved: bool) {
    if moved then end + HEADER + n <= end' < end + HEADER + n + PAGE else end' == end
  }

  ghost predicate Fits(hdr: Headers, free: seq<nat>, n: nat, i: int) {
    0 <= i < |free| && free[i] in hdr && hdr[free[i]].size >= n
  }

  /** i is the first free-list position with room for n bytes. */
  ghost predicate FirstFit(hdr: Headers, free: seq<nat>, n: nat, i: int) {
    Fits(hdr, free, n, i) && forall j :: 0 <= j < i ==> !Fits(hdr, free, n, j)
  }

  ghost predicate SomeFit(hdr: Headers, free: seq<nat>, n: nat) {
    exists i :: Fits(hdr, free, n, i)
  }

  /** The free list once its i-th block has served n bytes: what is left of the block, if it can hold
      a header and 16 bytes, takes its place. */
  ghost function Served(hdr: Headers, free: seq<nat>, n: nat, i: int): seq<nat>
    requires Fits(hdr, free, n, i)
  {
    if hdr[free[i]].size >= n + HEADER + ALIGN then free[i := free[i] + HEADER + n] else free[..i] + free[i + 1..]
  }

  class KernelHeap {
    const mmu: Vmm.Mmu
    var start: nat
    var end: nat
    var max: nat
    var freeList: nat
    var hdr: Headers
    var mem: Bytes
    ghost var blocks: set<nat>
    ghost var free: seq<nat>
    ghost var frames: seq<nat>

    ghost function Repr(): set<object> {
      {this} + mmu.Repr()
    }

    ghost predicate Sound()
      reads this
    {
      && start == START && max == START + MAX_SIZE && end <= max && end % PAGE == 0
      && Inv(hdr, blocks, free, freeList, start, end)
    }

    /** Every heap page up to `end` is backed. */
    ghost predicate Laid()
      reads Repr()
    {
      start == START && end == start + |frames| * PAGE && Backed(mmu, frames)
    }

    ghost predicate Valid()
      reads Repr()
    {
      this !in mmu.Repr() && Sound() && Laid() && Paved(mmu.at)
    }

    /** The next pages the heap may come to have are free for it to take, up to page m. */
    ghost predicate OpenTo(m: nat)
      reads `frames, mmu.Repr()
    {
      (mmu.pmm.Valid() && mmu.pmm.Exhausted()) || Open(mmu, |frames|, m)
    }

    /** However the heap grows, nothing is in its way. */
    ghost predicate Smooth()
      reads `frames, mmu.Repr()
    {
      OpenTo(HORIZON)
    }

    /** A request of n bytes can be met without growing, cannot be met, or makes the heap grow into
        pages that are free for it to take. */
    ghost predicate Room(n: nat)
      reads Repr()
    {
      SomeFit(hdr, free, n) || TooBig(end, max, n) || OpenTo(Last(|frames|, PagesFor(n)))
    }

    constructor (mmu: Vmm.Mmu)
      ensures this.mmu == mmu && start == 0
    {
      this.mmu := mmu;
      start, end, max, freeList, hdr, mem := 0, 0, 0, 0, map[], map[];
      blocks, free, frames := {}, [], [];
    }

    /** Writing a header in place; `live` are payloads it must not hit. */
    method Put(b: nat, h: Header, ghost live: map<nat, nat>)
      requires Off(live, b)
      modifies `hdr, `mem
      ensures hdr == old(hdr)[b := h] && Kept(old(mem), mem, live)
    {
      hdr := hdr[b := h];
      mem := map a | a in mem && !(b <= a < b + HEADER) :: mem[a];
    }

    // ----- Taking a free block -----

    method SplitOff(block: nat, n: nat, ghost i: int, ghost live: map<nat, nat>)
      requires Neighbours(hdr, free, i) && free[i] == block && hdr[block].size >= n + HEADER
      requires block + HEADER + n !in free
      requires Off(live, block) && Off(live, block + HEADER + n)
      requires Off(live, At(free, i + 1)) && Off(live, At(free, i - 1))
      modifies `hdr, `mem, `freeList
      ensures hdr == TakeSplit(old(hdr), free, i, n) && Kept(old(mem), mem, live)
      ensures freeList == if i == 0 then block + HEADER + n else old(freeList)
    {
      var h := hdr[block];
      var nb := block + HEADER + n;
      Put(nb, Header(MAGIC_FREE, h.size - HEADER - n, h.next, h.prev), live);
      if h.next != 0 { Put(h.next, hdr[h.next].(prev := nb), live); }
      if h.prev != 0 { Put(h.prev, hdr[h.prev].(next := nb), live); } else { freeList := nb; }
      Put(block, Header(MAGIC_USED, n, 0, 0), live);
    }

    method Unlink(block: nat, ghost i: int, ghost live: map<nat, nat>)
      requires Neighbours(hdr, free, i) && free[i] == block
      requires Off(live, block) && Off(live, At(free, i + 1)) && Off(live, At(free, i - 1))
      modifies `hdr, `mem, `freeList
      ensures hdr == TakeWhole(old(hdr), free, i) && Kept(old(mem), mem, live)
      ensures freeList == if i == 0 then At(free, 1) else old(freeList)
    {
      var h := hdr[block];
      if h.prev != 0 { Put(h.prev, hdr[h.prev].(next := h.next), live); } else { freeList := h.next; }
      if h.next != 0 { Put(h.next, hdr[h.next].(prev := h.prev), live); }
      Put(block, Header(MAGIC_USED, h.size, 0, 0), live);
    }
  
    method TakePart(block: nat, n: nat, ghost i: int)
      requires Sound() && Fits(hdr, free, n, i) && free[i] == block && ALIGN <= n && n % ALIGN == 0
      requires hdr[block].size >= n + HEADER + ALIGN
      modifies `hdr, `mem, `freeList, `blocks, `free
      ensures free == old(Served(hdr, free, n, i))
      ensures Sound() && block in hdr && n <= hdr[block].size < n + HEADER + ALIGN
      ensures block !in old(Live(hdr, blocks))
      ensures Live(hdr, blocks) == old(Live(hdr, blocks))[block := hdr[block].size]
      ensures Kept(old(mem), mem, old(Live(hdr, blocks)))
    {
      ghost var live, nb := Live(hdr, blocks), block + HEADER + n;
      LinkedNeighbours(hdr, free, freeList, i);
      BlocksAreOff(hdr, blocks, start, end, live);
      assert block in free;
      SplitPoint(hdr, blocks, start, end, block, nb);
      TakeSplitKeepsInv(hdr, blocks, free, freeList, start, end, i, n);
      SplitIsOff(hdr, blocks, start, end, live, block, nb);
      SplitOff(block, n, i, live);
      blocks, free := blocks + {nb}, free[i := nb];
    }

    method TakeAll(block: nat, n: nat, ghost i: int)
      requires Sound() && Fits(hdr, free, n, i) && free[i] == block
      requires hdr[block].size < n + HEADER + ALIGN
      modifies `hdr, `mem, `freeList, `blocks, `free
      ensures free == old(Served(hdr, free, n, i))
      ensures Sound() && block in hdr && n <= hdr[block].size < n + HEADER + ALIGN
      ensures block !in old(Live(hdr, blocks))
      ensures Live(hdr, blocks) == old(Live(hdr, blocks))[block := hdr[block].size]
      ensures Kept(old(mem), mem, old(Live(hdr, blocks)))
    {
      ghost var live := Live(hdr, blocks);
      LinkedNeighbours(hdr, free, freeList, i);
      BlocksAreOff(hdr, blocks, start, end, live);
      assert block in free;
      TakeWholeKeepsInv(hdr, blocks, free, freeList, start, end, i);
      Unlink(block, i, live);
      free := Remove(free, i);
    }

    /** The block found by the search: split it if the rest can hold a header and 16 bytes. */
    method TakeBlock(block: nat, n: nat, ghost i: int)
      requires Sound() && Fits(hdr, free, n, i) && free[i] == block && ALIGN <= n && n % ALIGN == 0
      modifies `hdr, `mem, `freeList, `blocks, `free
      ensures free == old(Served(hdr, free, n, i))
      ensures Sound() && block in hdr && n <= hdr[block].size < n + HEADER + ALIGN
      ensures block !in old(Live(hdr, blocks))
      ensures Live(hdr, blocks) == old(Live(hdr, blocks))[block := hdr[block].size]
      ensures Kept(old(mem), mem, old(Live(hdr, blocks)))
    {
      if hdr[block].size >= n + HEADER + ALIGN {
        TakePart(block, n, i);
      } else {
        TakeAll(block, n, i);
      }
    }

    /** The free-list walk of kmalloc.  Every block it meets carries the free magic, so the
        corruption check never fires. */
    method FindFit(n: nat) returns (block: nat, ghost i: int)
      requires Sound()
      ensures block == 0 <==> !SomeFit(hdr, free, n)
      ensures block != 0 ==> FirstFit(hdr, free, n, i) && free[i] == block
    {
      block, i := freeList, 0;
      while block != 0
        invariant 0 <= i <= |free| && block == At(free, i)
        invariant forall j :: 0 <= j < i ==> !Fits(hdr, free, n, j)
        decreases |free| - i
      {
        assert Link(hdr, free, i);
        assert free[i] in free && hdr[block].magic == MAGIC_FREE;
        if hdr[block].size >= n {
          assert Fits(hdr, free, n, i);
          return;
        }
        block, i := hdr[block].next, i + 1;
      }
      assert i < |free| ==> Link(hdr, free, i);
    }

    // ----- heap_extend -----

    /** Mapping fresh frames behind the heap; on failure the heap keeps its end.  If it comes to its
        end without going astray, the new pages were open to it; and if they are, it does.  It
        leaves every table reachable exactly if none lies in the window of the direct map that it
        takes over.  A doomed call goes astray and leaves the pages behind h as they were. */
    method Extend(pages: nat, ghost doomed: bool, ghost h: nat, ghost top: nat) returns (out: Vmm.Outcome, ok: bool)
      requires this !in mmu.Repr()
      requires Laid() && Paved(mmu.at)
      requires doomed ==> |frames| + pages <= HORIZON && !Open(mmu, |frames|, |frames| + pages)
      requires doomed ==>
        Doomed(mmu.image, mmu.at, mmu.pages, |frames|, |frames| + pages, h, top) && Quiet(mmu, |frames|)
      modifies `end, `frames, mmu.Repr()
      ensures mmu.pmm.Valid()
      ensures end == if out == Vmm.Done && ok then (old(end) + pages * PAGE) % WORD else old(end)
      ensures !mmu.astray && out == Vmm.Done ==>
        Laid() && Paved(mmu.at) && |frames| == old(|frames|) + (if ok then pages else 0) <= HORIZON
      ensures !mmu.astray && out == Vmm.Done && ok ==>
        && end == old(end) + pages * PAGE < WORD && old(Open(mmu, |frames|, |frames| + pages))
        && Spent(old(mmu.pmm.Bits()), mmu.pmm.Bits(), frames, old(|frames|))
      ensures !mmu.astray && out == Vmm.Done && !ok ==> mmu.pmm.Exhausted()
      ensures !doomed && old(OpenTo(Last(|frames|, pages))) ==> !mmu.astray && out == Vmm.Done
      ensures !mmu.astray && out == Vmm.Done && old(Smooth()) && pages > 0 ==> Smooth()
      ensures !mmu.astray && out == Vmm.Done && ok && old(PT.AllReached(true, mmu.pages, mmu.at.Values)) ==>
        (PT.AllReached(true, mmu.pages, mmu.at.Values) <==> OutOfWindow(mmu.at.Values, old(|frames|), |frames|))
      ensures !doomed && old(Trespass(mmu, |frames|)) && pages > 0 ==>
        out == Vmm.Lost || (out == Vmm.Done && !ok && mmu.pmm.Exhausted())
      ensures doomed ==>
        if out == Vmm.Done && ok then mmu.astray else (out == Vmm.Done || out == Vmm.Halted) && mmu.pmm.Exhausted()
      ensures doomed && out == Vmm.Done && ok ==>
        mmu.Sane() && mmu.at == old(mmu.at) && SameOutside(old(mmu.pages), mmu.pages, old(|frames|), h + 1)
    {
      ghost var fs, n := frames, |frames|;
      out, ok, fs := MapBehind(pages, doomed, h, top);
      if out != Vmm.Done || !ok { return out, false; }
      if !mmu.astray { EndMoves(n, pages); frames := fs; }
      end := (end + pages * PAGE) % WORD;
    }

    /** The loop of heap_extend, on this heap. */
    method MapBehind(pages: nat, ghost doomed: bool, ghost h: nat, ghost top: nat)
      returns (out: Vmm.Outcome, ok: bool, ghost fs: seq<nat>)
      requires this !in mmu.Repr() && Laid() && Paved(mmu.at)
      requires doomed ==> |frames| + pages <= HORIZON && !Open(mmu, |frames|, |frames| + pages)
      requires doomed ==>
        Doomed(mmu.image, mmu.at, mmu.pages, |frames|, |frames| + pages, h, top) && Quiet(mmu, |frames|)
      modifies mmu.Repr()
      ensures mmu.pmm.Valid()
      ensures !mmu.astray && out == Vmm.Done ==> Backed(mmu, if ok then fs else frames) && Paved(mmu.at) && |frames| <= |fs| <= HORIZON
      ensures !mmu.astray && out == Vmm.Done && ok ==>
        && |fs| == |frames| + pages && old(Open(mmu, |frames|, |frames| + pages))
        && Spent(old(mmu.pmm.Bits()), mmu.pmm.Bits(), fs, |frames|)
      ensures !mmu.astray && out == Vmm.Done && !ok ==> mmu.pmm.Exhausted()
      ensures !mmu.astray && out == Vmm.Done && old(Open(mmu, |frames|, HORIZON)) ==> Open(mmu, |fs|, HORIZON)
      ensures !doomed && old(OpenTo(Last(|frames|, pages))) ==> !mmu.astray && out == Vmm.Done
      ensures old(mmu.pmm.Exhausted()) && !doomed && pages > 0 ==> !(out == Vmm.Done && ok)
      ensures !mmu.astray && out == Vmm.Done && old(PT.AllReached(true, mmu.pages, mmu.at.Values)) ==>
        (PT.AllReached(true, mmu.pages, mmu.at.Values) <==> OutOfWindow(mmu.at.Values, |frames|, |fs|))
      ensures !doomed && old(Trespass(mmu, |frames|)) && pages > 0 ==>
        out == Vmm.Lost || (out == Vmm.Done && !ok && mmu.pmm.Exhausted())
      ensures doomed && !(out == Vmm.Done && ok) ==> (out == Vmm.Done || out == Vmm.Halted) && mmu.pmm.Exhausted()
      ensures doomed && out == Vmm.Done && ok ==>
        mmu.astray && mmu.Sane() && mmu.at == old(mmu.at) && SameOutside(old(mmu.pages), mmu.pages, |frames|, h + 1)
    {
      ghost var n, m := |frames|, Last(|frames|, pages);
      ghost var r := Run(mmu.pages, mmu.at, mmu.pmm.Bits(), frames, n, m, Open(mmu, n, m), mmu.pmm.Exhausted() && !doomed,
                         Trespass(mmu, n) && !doomed, doomed, h, top);
      out, ok, fs := MapPages(mmu, end, pages, frames, r);
      if !mmu.astray && out == Vmm.Done { Extended(r, fs, ok); }
    }

    /** What a run of heap_extend that did not go astray leaves. */
    lemma Extended(r: Run, fs: seq<nat>, ok: bool)
      requires Going(mmu, r.p, r.n, fs) && |frames| == r.n && frames <= fs && r.at == mmu.at
      ensures !ok ==> Backed(mmu, frames)
      ensures Ahead(true, r.p, r.at, r.n, HORIZON) && OutOfWindow(mmu.image, r.n, HORIZON) ==> Open(mmu, |fs|, HORIZON)
      ensures PT.AllReached(true, r.p, mmu.at.Values) ==>
        (PT.AllReached(true, mmu.pages, mmu.at.Values) <==> OutOfWindow(mmu.at.Values, r.n, |fs|))
    {
      PrefixBacked(mmu.pages, mmu.at, mmu.pmm.Bits(), frames, fs);
      forall k | k in mmu.at ensures mmu.at[k] < Pmm.MAX_PAGES { assert PT.TableOk(mmu.mem, mmu.at, mmu.role, k); }
      if Ahead(true, r.p, r.at, r.n, HORIZON) { AheadStays(true, r.p, mmu.pages, mmu.at, r.n, |fs|, HORIZON); }
      if PT.AllReached(true, r.p, mmu.at.Values) { ExtendHides(mmu, r.p, r.n, fs); }
    }

    // ----- Returning blocks -----

    /** Making b the new head of the free list. */
    method PushBlock(b: nat, size: nat, ghost live: map<nat, nat>)
      requires b != freeList && (freeList != 0 ==> freeList in hdr) && Off(live, b) && Off(live, freeList)
      modifies `hdr, `mem, `freeList
      ensures hdr == Push(old(hdr), old(freeList), b, size) && freeList == b && Kept(old(mem), mem, live)
    {
      Put(b, Header(MAGIC_FREE, size, freeList, 0), live);
      if freeList != 0 { Put(freeList, hdr[freeList].(prev := b), live); }
      freeList := b;
    }

    /** Absorbing the next free-list block, which lies right behind b in memory. */
    method Absorb(b: nat, ghost j: int)
      requires Sound() && 0 <= j && j + 1 < |free| && free[j] == b
      requires free[j] in hdr && free[j + 1] in hdr && End(hdr, free[j]) == free[j + 1]
      modifies `hdr, `mem, `blocks, `free
      ensures Sound() && free == Remove(old(free), j + 1)
      ensures b in hdr && End(hdr, b) == old(End(hdr, free[j + 1]))
      ensures forall c :: c in hdr && c != b ==> c in old(hdr) && hdr[c].size == old(hdr)[c].size
      ensures Live(hdr, blocks) == old(Live(hdr, blocks)) && Kept(old(mem), mem, old(Live(hdr, blocks)))
    {
      ghost var live := Live(hdr, blocks);
      LinkedNeighbours(hdr, free, freeList, j);
      LinkedNeighbours(hdr, free, freeList, j + 1);
      BlocksAreOff(hdr, blocks, start, end, live);
      assert b in free;
      if j + 2 < |free| { assert free[j + 2] in free; }
      MergeKeepsInv(hdr, blocks, free, freeList, start, end, j);
      ghost var c := free[j + 1];
      MergeHeaders(b, j, live);
      blocks, free := blocks - {c}, Remove(free, j + 1);
    }

    /** The header writes of a merge. */
    method MergeHeaders(b: nat, ghost j: int, ghost live: map<nat, nat>)
      requires Neighbours(hdr, free, j) && Neighbours(hdr, free, j + 1) && free[j] == b
      requires Off(live, b) && Off(live, At(free, j + 2))
      modifies `hdr, `mem
      ensures hdr == Merge(old(hdr), free, j) && Kept(old(mem), mem, live)
      ensures b in hdr && hdr[b].size == old(hdr)[b].size + HEADER + old(hdr)[free[j + 1]].size
      ensures forall c :: c in hdr && c != b ==> c in old(hdr) && hdr[c].size == old(hdr)[c].size
    {
      var c := hdr[b].next;
      var n := hdr[c].next;
      Put(b, hdr[b].(size := hdr[b].size + HEADER + hdr[c].size, next := n), live);
      if n != 0 { Put(n, hdr[n].(prev := b), live); }
    }

    /** heap_coalesce: with the list neighbour that follows block in memory, then with the one
        that precedes it. */
    method Coalesce(block: nat, ghost i: int) returns (r: nat)
      requires Sound() && 0 <= i < |free| && free[i] == block
      modifies `hdr, `mem, `blocks, `free
      ensures Sound()
      ensures Live(hdr, blocks) == old(Live(hdr, blocks)) && Kept(old(mem), mem, old(Live(hdr, blocks)))
      ensures free == old(Coalesced(hdr, free, i))
      ensures r == if old(Touches(hdr, free, i - 1)) then old(free)[i - 1] else block
      ensures r in hdr && End(hdr, r) == old(Reach(hdr, free, i))
    {
      ghost var reach, before := Reach(hdr, free, i), Touches(hdr, free, i - 1);
      LinkedNeighbours(hdr, free, freeList, i);
      if hdr[block].next != 0 && block + HEADER + hdr[block].size == hdr[block].next {
        Absorb(block, i);
      }
      assert End(hdr, block) == reach;
      LinkedNeighbours(hdr, free, freeList, i);
      assert Touches(hdr, free, i - 1) == before;
      var prev := hdr[block].prev;
      if prev != 0 && prev + HEADER + hdr[prev].size == block {
        Absorb(prev, i - 1);
        return prev;
      }
      return block;
    }

    /** kfree: of a live pointer exactly that block stops being live, and joins a block right behind
        it that was first on the list; of NULL or of a block already free nothing changes. */
    method KFree(ptr: nat)
      requires Sound() && (ptr != 0 ==> ptr >= HEADER && ptr - HEADER in blocks)
      modifies `hdr, `mem, `freeList, `blocks, `free
      ensures Sound() && Live(hdr, blocks) == Without(old(Live(hdr, blocks)), ptr)
      ensures Kept(old(mem), mem, Live(hdr, blocks))
      ensures ptr == 0 || ptr - HEADER !in old(Live(hdr, blocks)) ==>
        hdr == old(hdr) && free == old(free) && mem == old(mem)
      ensures ptr != 0 && ptr - HEADER in old(Live(hdr, blocks)) ==>
        && free == Coalesced(old(hdr), [ptr - HEADER] + old(free), 0)
        && ptr - HEADER in hdr && End(hdr, ptr - HEADER) == Reach(old(hdr), [ptr - HEADER] + old(free), 0)
      ensures ptr != 0 && ptr - HEADER in old(Live(hdr, blocks)) ==>
        if old(free) != [] && ptr + old(Live(hdr, blocks))[ptr - HEADER] == old(free)[0]
        then free == [ptr - HEADER] + old(free)[1..] else free == [ptr - HEADER] + old(free)
    {
      if ptr == 0 { return; }
      var block := ptr - HEADER;
      assert BlockOk(hdr, blocks, start, end, block);
      if hdr[block].magic != MAGIC_USED { return; }
      ghost var h0 := hdr;
      Release(block);
      ghost var f := free;
      assert Touches(hdr, f, 0) == Touches(h0, f, 0) && !Touches(hdr, f, -1);
      HeadCoalesced(h0, block, old(free));
      var _ := Coalesce(block, 0);
    }

    /** A live block becomes the head of the free list. */
    method Release(block: nat)
      requires Sound() && block in Live(hdr, blocks)
      modifies `hdr, `mem, `freeList, `free
      ensures Sound() && Live(hdr, blocks) == old(Live(hdr, blocks)) - {block} && Kept(old(mem), mem, Live(hdr, blocks))
      ensures free == [block] + old(free) && hdr.Keys == old(hdr.Keys)
      ensures forall b :: b in hdr ==> hdr[b].size == old(hdr)[b].size
    {
      ghost var live := Live(hdr, blocks) - {block};
      assert BlockOk(hdr, blocks, start, end, block);
      BlocksAreOff(hdr, blocks, start, end, live);
      if free != [] { assert Link(hdr, free, 0); assert free[0] in free; }
      FreeKeepsInv(hdr, blocks, free, freeList, start, end, block);
      PushBlock(block, hdr[block].size, live);
      free := [block] + free;
    }
  
    // ----- kmalloc -----

    /** New pages become one free block at the head of the list.  A growth that goes astray is the
        end of the heap. */
    method Grow(pages: nat) returns (out: Vmm.Outcome, ok: bool)
      requires Valid() && pages > 0 && (end + pages * PAGE <= max || end + pages * PAGE >= WORD)
      modifies Repr()
      ensures out == Vmm.Done ==> Valid() && (old(Smooth()) ==> Smooth())
      ensures out == Vmm.Done ==>
        Live(hdr, blocks) == old(Live(hdr, blocks)) && Kept(old(mem), mem, old(Live(hdr, blocks)))
      ensures out == Vmm.Done && !ok ==>
        end == old(end) && hdr == old(hdr) && blocks == old(blocks) && free == old(free) && mem == old(mem)
      ensures out == Vmm.Done && !ok ==> mmu.pmm.Exhausted()
      ensures out == Vmm.Done && ok ==> end == old(end) + pages * PAGE <= max && free == [old(end)] + old(free)
      ensures out == Vmm.Done && ok ==> old(end) in hdr && hdr[old(end)].size == pages * PAGE - HEADER
      ensures out == Vmm.Done && ok ==> old(Open(mmu, |frames|, |frames| + pages))
      ensures old(OpenTo(Last(|frames|, pages))) ==> out == Vmm.Done
    {
      var block := end;
      BackedBound(mmu.pages, mmu.at, mmu.pmm.Bits(), frames);
      out, ok := Extend(pages, false, 0, 0);
      if mmu.astray { return Vmm.Lost, false; }
      if out != Vmm.Done || !ok { return; }
      PagesMakeBlock(block, pages);
      AddBlock(block, pages * PAGE - HEADER);
    }

    method AddBlock(block: nat, size: nat)
      requires start == START && max == START + MAX_SIZE && end <= max && end % PAGE == 0
      requires Inv(hdr, blocks, free, freeList, start, block) && block % ALIGN == 0
      requires size >= ALIGN && size % ALIGN == 0 && block + HEADER + size == end
      modifies `hdr, `mem, `freeList, `blocks, `free
      ensures Sound() && free == [block] + old(free) && block in hdr && hdr[block].size == size
      ensures Live(hdr, blocks) == old(Live(hdr, blocks)) && Kept(old(mem), mem, old(Live(hdr, blocks)))
    {
      ghost var live := Live(hdr, blocks);
      BlocksAreOff(hdr, blocks, start, block, live);
      forall b | b in live ensures b + HEADER + live[b] <= block { assert BlockOk(hdr, blocks, start, block, b); }
      assert block in blocks ==> BlockOk(hdr, blocks, start, block, block);
      if free != [] { assert Link(hdr, free, 0); assert free[0] in free; }
      GrowKeepsInv(hdr, blocks, free, freeList, start, block, size);
      PushBlock(block, size, live);
      blocks, free := blocks + {block}, [block] + free;
    }

    /** Serving a request from the free list, if something fits. */
    method Serve(n: nat) returns (p: nat)
      requires Sound() && ALIGN <= n && n % ALIGN == 0
      modifies `hdr, `mem, `freeList, `blocks, `free
      ensures Sound()
      ensures p == 0 <==> !old(SomeFit(hdr, free, n))
      ensures p == 0 ==> Live(hdr, blocks) == old(Live(hdr, blocks)) && free == old(free) && hdr == old(hdr)
      ensures p != 0 ==> p >= HEADER && p - HEADER in hdr && p - HEADER !in old(Live(hdr, blocks))
      ensures p != 0 ==> Live(hdr, blocks) == old(Live(hdr, blocks))[p - HEADER := hdr[p - HEADER].size]
      ensures p != 0 ==> n <= hdr[p - HEADER].size < n + HEADER + ALIGN
      ensures p != 0 ==>
        exists i :: FirstFit(old(hdr), old(free), n, i) && p == old(free)[i] + HEADER && free == Served(old(hdr), old(free), n, i)
      ensures Kept(old(mem), mem, old(Live(hdr, blocks)))
    {
      var block;
      ghost var i;
      block, i := FindFit(n);
      if block == 0 { return 0; }
      TakeBlock(block, n, i);
      return block + HEADER;
    }

    /** Growing the heap by as many pages as a request needs.  The limit is tested in 64-bit
        arithmetic, so a request that carries the end past 2^64 gets through; it fails all the
        same, but only after taking every page the page allocator had. */
    method GrowFor(n: nat) returns (out: Vmm.Outcome, ok: bool, ghost oom: bool)
      requires Valid() && n > 0 && n + HEADER + PAGE <= WORD
      modifies Repr()
      ensures out == Vmm.Done ==> Valid() && (old(Smooth()) ==> Smooth())
      ensures out == Vmm.Done ==>
        Live(hdr, blocks) == old(Live(hdr, blocks)) && Kept(old(mem), mem, old(Live(hdr, blocks)))
      ensures out == Vmm.Done ==> (ok <==> !(TooBig(old(end), max, n) || oom)) && (oom ==> mmu.pmm.Exhausted())
      ensures out == Vmm.Done && Wraps(old(end), n) ==> oom
      ensures out == Vmm.Done && ok ==> SomeFit(hdr, free, n) && old(Open(mmu, |frames|, |frames| + PagesFor(n)))
      ensures out == Vmm.Done && ok ==> old(end) + HEADER + n <= end < old(end) + HEADER + n + PAGE
      ensures out == Vmm.Done && !ok ==> end == old(end)
      ensures TooBig(old(end), old(max), n) || old(OpenTo(Last(|frames|, PagesFor(n)))) ==> out == Vmm.Done
    {
      PagesFacts(n);
      var pages := PagesFor(n);
      GuardFacts(end, max, n);
      if (end + pages * PAGE) % WORD > max { return Vmm.Done, false, false; }
      out, ok := Grow(pages);
      oom := !ok;
      if out == Vmm.Done && ok { assert Fits(hdr, free, n, 0); }
    }

    /** kmalloc for a request already rounded.  It serves the first fit if there is one; otherwise
        it grows the heap, after which the recursive call finds the new block, so it recurses at
        most once.  `oom` says that the managers below had no page left. */
    method Allocate(n: nat) returns (out: Vmm.Outcome, p: nat, ghost oom: bool)
      requires Valid() && ALIGN <= n && n % ALIGN == 0 && n + HEADER + PAGE <= WORD
      modifies Repr()
      ensures out == Vmm.Done ==> Valid() && (old(Smooth()) ==> Smooth())
      ensures out == Vmm.Done ==> (p == 0 <==> !old(SomeFit(hdr, free, n)) && (TooBig(old(end), max, n) || oom))
      ensures out == Vmm.Done && oom ==> mmu.pmm.Exhausted()
      ensures out == Vmm.Done && !old(SomeFit(hdr, free, n)) && Wraps(old(end), n) ==> oom
      ensures out == Vmm.Done ==> Grew(old(end), end, n, p != 0 && !old(SomeFit(hdr, free, n)))
      ensures out == Vmm.Done && p == 0 ==> Live(hdr, blocks) == old(Live(hdr, blocks))
      ensures out == Vmm.Done && p != 0 ==>
        && p >= HEADER && p - HEADER in hdr && p - HEADER !in old(Live(hdr, blocks))
        && Live(hdr, blocks) == old(Live(hdr, blocks))[p - HEADER := hdr[p - HEADER].size]
        && n <= hdr[p - HEADER].size < n + HEADER + ALIGN
      ensures out == Vmm.Done && p != 0 && !old(SomeFit(hdr, free, n)) ==>
        old(Open(mmu, |frames|, |frames| + PagesFor(n)))
      ensures old(SomeFit(hdr, free, n)) ==>
        exists i :: FirstFit(old(hdr), old(free), n, i) && p == old(free)[i] + HEADER
      ensures out == Vmm.Done ==> Kept(old(mem), mem, old(Live(hdr, blocks)))
      ensures old(Room(n)) ==> out == Vmm.Done
      decreases if SomeFit(hdr, free, n) then 0 else 2
    {
      p := Serve(n);
      if p != 0 { return Vmm.Done, p, false; }
      out, p, oom := AllocateMore(n, old(mem));
    }

    /** Its second half, when nothing fits. */
    method AllocateMore(n: nat, ghost m0: Bytes) returns (out: Vmm.Outcome, p: nat, ghost oom: bool)
      requires Valid() && ALIGN <= n && n % ALIGN == 0 && n + HEADER + PAGE <= WORD && !SomeFit(hdr, free, n)
      requires Kept(m0, mem, Live(hdr, blocks))
      modifies Repr()
      ensures out == Vmm.Done ==> Valid() && (old(Smooth()) ==> Smooth())
      ensures out == Vmm.Done ==> (p == 0 <==> TooBig(old(end), max, n) || oom) && (oom ==> mmu.pmm.Exhausted())
      ensures out == Vmm.Done && Wraps(old(end), n) ==> oom
      ensures out == Vmm.Done ==> Grew(old(end), end, n, p != 0)
      ensures out == Vmm.Done && p == 0 ==> Live(hdr, blocks) == old(Live(hdr, blocks))
      ensures out == Vmm.Done && p != 0 ==>
        && p >= HEADER && p - HEADER in hdr && p - HEADER !in old(Live(hdr, blocks))
        && Live(hdr, blocks) == old(Live(hdr, blocks))[p - HEADER := hdr[p - HEADER].size]
        && n <= hdr[p - HEADER].size < n + HEADER + ALIGN
        && old(Open(mmu, |frames|, |frames| + PagesFor(n)))
      ensures out == Vmm.Done ==> Kept(m0, mem, old(Live(hdr, blocks)))
      ensures TooBig(old(end), old(max), n) || old(OpenTo(Last(|frames|, PagesFor(n)))) ==> out == Vmm.Done
      decreases 1
    {
      ghost var m1, live := mem, Live(hdr, blocks);
      var ok;
      out, ok, oom := GrowFor(n);
      if out == Vmm.Done { KeptTwice(m0, m1, mem, live); }
      if out != Vmm.Done || !ok { return out, 0, oom; }
      ghost var m2 := mem;
      out, p, oom := Allocate(n);
      KeptTwice(m0, m2, mem, live);
      oom := false;
    }

    /** kmalloc.  Unless the heap grows into pages that are not open to it, it returns: NULL exactly
        for size 0 or when nothing fits and the heap cannot grow, and otherwise one more live block,
        disjoint from all others, of at least the requested size. */
    method KMalloc(size: nat) returns (out: Vmm.Outcome, p: nat, ghost oom: bool)
      requires Valid() && size + ALIGN + HEADER + PAGE <= WORD
      modifies Repr()
      ensures out == Vmm.Done ==> Valid() && (old(Smooth()) ==> Smooth())
      ensures out == Vmm.Done ==> (p == 0 <==> size == 0 || (!old(SomeFit(hdr, free, Round(size)))
                                                             && (TooBig(old(end), max, Round(size)) || oom)))
      ensures out == Vmm.Done && oom ==> mmu.pmm.Exhausted()
      ensures out == Vmm.Done && !old(SomeFit(hdr, free, Round(size))) && Wraps(old(end), Round(size)) ==> size == 0 || oom
      ensures out == Vmm.Done ==> Grew(old(end), end, Round(size), p != 0 && !old(SomeFit(hdr, free, Round(size))))
      ensures out == Vmm.Done && p == 0 ==> Live(hdr, blocks) == old(Live(hdr, blocks))
      ensures out == Vmm.Done && p != 0 ==>
        && p >= HEADER && p - HEADER in hdr && p - HEADER !in old(Live(hdr, blocks))
        && Live(hdr, blocks) == old(Live(hdr, blocks))[p - HEADER := hdr[p - HEADER].size]
        && size <= hdr[p - HEADER].size < size + HEADER + 2 * ALIGN
      ensures out == Vmm.Done && p != 0 && !old(SomeFit(hdr, free, Round(size))) ==>
        old(Open(mmu, |frames|, |frames| + PagesFor(Round(size))))
      ensures old(SomeFit(hdr, free, Round(size))) && size != 0 ==>
        exists i :: FirstFit(old(hdr), old(free), Round(size), i) && p == old(free)[i] + HEADER
      ensures out == Vmm.Done ==> Kept(old(mem), mem, old(Live(hdr, blocks)))
      ensures size == 0 || old(Room(Round(size))) ==> out == Vmm.Done
    {
      if size == 0 { return Vmm.Done, 0, false; }
      RoundFacts(size);
      out, p, oom := Allocate(Round(size));
    }

    /** A heap that is smooth has room for any request. */
    lemma SmoothHasRoom(n: nat)
      requires Valid() && Smooth()
      ensures Room(n)
    {
      BackedBound(mmu.pages, mmu.at, mmu.pmm.Bits(), frames);
      if Open(mmu, |frames|, HORIZON) {
        OpenUpTo(mmu.pages, mmu.at, mmu.image, |frames|, Last(|frames|, PagesFor(n)), HORIZON);
      }
    }

    // ----- Payload accesses -----

    /** Storing to a byte of a live payload leaves the heap and all other live bytes alone.  None
        stands for an unspecified value. */
    method Poke(a: nat, v: Option<bv8>, ghost b: nat)
      requires Sound() && InPayload(Live(hdr, blocks), b, a)
      modifies `hdr, `mem
      ensures Sound() && Live(hdr, blocks) == old(Live(hdr, blocks))
      ensures mem == if v.Some? then old(mem)[a := v.value] else old(mem) - {a}
    {
      PayloadOffHeaders(hdr, blocks, start, end, b, a);
      ghost var hdr0 := hdr;
      hdr := map h | h in hdr && !(h <= a < h + HEADER) :: hdr[h];
      AgreeKeepsInv(hdr0, hdr, blocks, free, freeList, start, end);
      mem := if v.Some? then mem[a := v.value] else mem - {a};
    }

    method Peek(a: nat) returns (v: Option<bv8>)
      ensures v.Some? <==> a in mem
      ensures v.Some? ==> v.value == mem[a]
    {
      if a in mem { return Some(mem[a]); } else { return None; }
    }

    /** The copy loop of krealloc: n bytes from one live payload to the front of another. */
    method CopyBytes(dst: nat, src: nat, n: nat)
      requires Sound() && dst >= HEADER && src >= HEADER && dst != src
      requires dst - HEADER in Live(hdr, blocks) && n <= Live(hdr, blocks)[dst - HEADER]
      requires src - HEADER in Live(hdr, blocks) && n <= Live(hdr, blocks)[src - HEADER]
      modifies `hdr, `mem
      ensures Sound() && Live(hdr, blocks) == old(Live(hdr, blocks))
      ensures Kept(old(mem), mem, Live(hdr, blocks) - {dst - HEADER})
      ensures Copied(old(mem), src, mem, dst, n)
    {
      ghost var live := Live(hdr, blocks);
      PayloadsDisjoint(hdr, blocks, start, end, src - HEADER, dst - HEADER);
      for i := 0 to n
        invariant Sound() && Live(hdr, blocks) == live
        invariant Outside(old(mem), mem, dst, dst + n)
        invariant Copied(old(mem), src, mem, dst, i)
      {
        ghost var m := mem;
        var v := Peek(src + i);
        Poke(dst + i, v, dst - HEADER);
        CopyStep(old(mem), m, mem, src, dst, i, n);
      }
      ghost var others := live - {dst - HEADER};
      forall b, a | InPayload(others, b, a) ensures Same(old(mem), mem, a) {
        PayloadsDisjoint(hdr, blocks, start, end, b, dst - HEADER);
      }
    }

    /** memcpy from a byte sequence into a live payload. */
    method StoreBytes(dst: nat, buf: seq<bv8>, ghost b: nat)
      requires Sound() && b in Live(hdr, blocks) && b + HEADER <= dst
      requires dst + |buf| <= b + HEADER + Live(hdr, blocks)[b]
      modifies `hdr, `mem
      ensures Sound() && Live(hdr, blocks) == old(Live(hdr, blocks))
      ensures Outside(old(mem), mem, dst, dst + |buf|)
      ensures forall a :: dst <= a < dst + |buf| ==> a in mem && mem[a] == buf[a - dst]
    {
      for i := 0 to |buf|
        invariant Sound() && Live(hdr, blocks) == old(Live(hdr, blocks))
        invariant Outside(old(mem), mem, dst, dst + |buf|)
        invariant forall a :: dst <= a < dst + i ==> a in mem && mem[a] == buf[a - dst]
      {
        Poke(dst + i, Some(buf[i]), b);
      }
    }

    // ----- kzalloc, krealloc, ksize -----

    /** kzalloc: kmalloc, and every requested byte is zero. */
    method KZalloc(size: nat) returns (out: Vmm.Outcome, p: nat, ghost oom: bool)
      requires Valid() && size + ALIGN + HEADER + PAGE <= WORD
      modifies Repr()
      ensures out == Vmm.Done ==> Valid() && (old(Smooth()) ==> Smooth())
      ensures out == Vmm.Done ==> (p == 0 <==> size == 0 || (!old(SomeFit(hdr, free, Round(size)))
                                                             && (TooBig(old(end), max, Round(size)) || oom)))
      ensures out == Vmm.Done && oom ==> mmu.pmm.Exhausted()
      ensures out == Vmm.Done && p == 0 ==> Live(hdr, blocks) == old(Live(hdr, blocks))
      ensures out == Vmm.Done && p != 0 ==>
        p >= HEADER && p - HEADER in Live(hdr, blocks) && p - HEADER !in old(Live(hdr, blocks))
      ensures out == Vmm.Done && p != 0 ==>
        Live(hdr, blocks) == old(Live(hdr, blocks))[p - HEADER := Live(hdr, blocks)[p - HEADER]]
      ensures out == Vmm.Done && p != 0 ==> Live(hdr, blocks)[p - HEADER] >= size
      ensures out == Vmm.Done && p != 0 ==> forall a :: p <= a < p + size ==> a in mem && mem[a] == 0
      ensures out == Vmm.Done ==> Kept(old(mem), mem, old(Live(hdr, blocks)))
      ensures size == 0 || old(Room(Round(size))) ==> out == Vmm.Done
    {
      out, p, oom := KMalloc(size);
      if out == Vmm.Done && p != 0 {
        ghost var others, m1 := old(Live(hdr, blocks)), mem;
        assert forall b :: b in others ==> b in Live(hdr, blocks) && Live(hdr, blocks)[b] == others[b];
        ZeroFill(p, size, others);
        KeptTwice(old(mem), m1, mem, others);
      }
    }

    method ZeroFill(p: nat, size: nat, ghost others: map<nat, nat>)
      requires Sound() && p >= HEADER && p - HEADER in Live(hdr, blocks) && size <= Live(hdr, blocks)[p - HEADER]
      requires Within(others, hdr, blocks) && p - HEADER !in others
      modifies `hdr, `mem
      ensures Sound() && Live(hdr, blocks) == old(Live(hdr, blocks)) && Kept(old(mem), mem, others)
      ensures forall a :: p <= a < p + size ==> a in mem && mem[a] == 0
    {
      ghost var b := p - HEADER;
      forall c | c in others ensures c + HEADER + others[c] <= b || End(hdr, b) <= c {
        assert Apart(hdr, b, c) && Apart(hdr, c, b);
      }
      for i := 0 to size
        invariant Sound() && Live(hdr, blocks) == old(Live(hdr, blocks))
        invariant Outside(old(mem), mem, p, p + size)
        invariant forall a :: p <= a < p + i ==> a in mem && mem[a] == 0
      {
        Poke(p + i, Some(0), b);
      }
      forall c, a | InPayload(others, c, a) ensures Same(old(mem), mem, a) {}
    }

    method KSize(p: nat) returns (n: nat)
      requires Sound() && (p != 0 ==> p >= HEADER && p - HEADER in blocks)
      ensures n == if p != 0 && p - HEADER in Live(hdr, blocks) then Live(hdr, blocks)[p - HEADER] else 0
    {
      if p == 0 { return 0; }
      assert BlockOk(hdr, blocks, start, end, p - HEADER);
      if hdr[p - HEADER].magic != MAGIC_USED { return 0; }
      n := hdr[p - HEADER].size;
    }
  
    method CopyAndFree(ptr: nat, p: nat)
      requires Sound() && ptr >= HEADER && p >= HEADER && p != ptr
      requires ptr - HEADER in Live(hdr, blocks) && p - HEADER in Live(hdr, blocks)
      requires Live(hdr, blocks)[ptr - HEADER] <= Live(hdr, blocks)[p - HEADER]
      modifies `hdr, `mem, `freeList, `blocks, `free
      ensures Sound() && Live(hdr, blocks) == old(Live(hdr, blocks)) - {ptr - HEADER}
      ensures Kept(old(mem), mem, old(Live(hdr, blocks)) - {ptr - HEADER, p - HEADER})
      ensures Copied(old(mem), ptr, mem, p, old(Live(hdr, blocks))[ptr - HEADER])
    {
      ghost var live, m0 := Live(hdr, blocks), mem;
      CopyBytes(p, ptr, hdr[ptr - HEADER].size);
      ghost var m1 := mem;
      KFree(ptr);
      CopyThenFree(m0, m1, mem, live, ptr - HEADER, p - HEADER);
    }

    /** The moving branch of krealloc: allocate, copy the whole old payload, free. */
    method MoveTo(ptr: nat, newSize: nat) returns (out: Vmm.Outcome, p: nat, ghost oom: bool)
      requires Valid() && newSize + ALIGN + HEADER + PAGE <= WORD && newSize > 0
      requires ptr >= HEADER && ptr - HEADER in Live(hdr, blocks) && Live(hdr, blocks)[ptr - HEADER] < newSize
      modifies Repr()
      ensures out == Vmm.Done ==> Valid() && (old(Smooth()) ==> Smooth())
      ensures out == Vmm.Done ==> (p == 0 <==> !old(SomeFit(hdr, free, Round(newSize)))
                                               && (TooBig(old(end), max, Round(newSize)) || oom))
      ensures out == Vmm.Done && oom ==> mmu.pmm.Exhausted()
      ensures out == Vmm.Done && p == 0 ==>
        Live(hdr, blocks) == old(Live(hdr, blocks)) && Kept(old(mem), mem, old(Live(hdr, blocks)))
      ensures out == Vmm.Done && p != 0 ==>
        p >= HEADER && p - HEADER in Live(hdr, blocks) && p - HEADER !in old(Live(hdr, blocks))
      ensures out == Vmm.Done && p != 0 ==> Live(hdr, blocks)[p - HEADER] >= newSize
      ensures out == Vmm.Done && p != 0 ==>
        Live(hdr, blocks) == Without(old(Live(hdr, blocks)), ptr)[p - HEADER := Live(hdr, blocks)[p - HEADER]]
      ensures out == Vmm.Done && p != 0 ==> Copied(old(mem), ptr, mem, p, old(Live(hdr, blocks))[ptr - HEADER])
      ensures out == Vmm.Done ==> Kept(old(mem), mem, Without(old(Live(hdr, blocks)), ptr))
      ensures old(Room(Round(newSize))) ==> out == Vmm.Done
    {
      ghost var live, m0 := Live(hdr, blocks), mem;
      out, p, oom := KMalloc(newSize);
      if out != Vmm.Done { return; }
      if p == 0 {
        KeptFewer(m0, mem, live, Without(live, ptr));
        return;
      }
      ghost var m1, size := mem, hdr[p - HEADER].size;
      assert Live(hdr, blocks)[ptr - HEADER] == live[ptr - HEADER];
      CopyAndFree(ptr, p);
      MoveKeeps(m0, m1, mem, live, ptr - HEADER, p - HEADER, size);
      assert live[p - HEADER := size] - {ptr - HEADER} == Without(live, ptr)[p - HEADER := size];
    }

    /** krealloc.  NULL acts like kmalloc and size 0 like kfree; a block that is large enough
        stays; otherwise the payload moves.  A failed call changes nothing. */
    method KRealloc(ptr: nat, newSize: nat) returns (out: Vmm.Outcome, p: nat, ghost oom: bool)
      requires Valid() && newSize + ALIGN + HEADER + PAGE <= WORD
      requires ptr != 0 ==> ptr >= HEADER && ptr - HEADER in blocks
      modifies Repr()
      ensures out == Vmm.Done ==> Valid() && (old(Smooth()) ==> Smooth())
      ensures out == Vmm.Done && p == 0 && newSize != 0 ==>
        || (ptr != 0 && ptr - HEADER !in old(Live(hdr, blocks)))
        || (!old(SomeFit(hdr, free, Round(newSize))) && (TooBig(old(end), max, Round(newSize)) || oom))
      ensures out == Vmm.Done && oom ==> mmu.pmm.Exhausted()
      ensures out == Vmm.Done && p == 0 && newSize != 0 ==>
        Live(hdr, blocks) == old(Live(hdr, blocks)) && Kept(old(mem), mem, old(Live(hdr, blocks)))
      ensures newSize == 0 ==> out == Vmm.Done && p == 0 && Live(hdr, blocks) == Without(old(Live(hdr, blocks)), ptr)
      ensures out == Vmm.Done && ptr != 0 && p != 0 ==> ptr - HEADER in old(Live(hdr, blocks))
      ensures ptr != 0 && ptr - HEADER in old(Live(hdr, blocks)) && 0 < newSize <= old(Live(hdr, blocks))[ptr - HEADER] ==>
        out == Vmm.Done && p == ptr && mem == old(mem)
      ensures out == Vmm.Done && ptr != 0 && ptr - HEADER in old(Live(hdr, blocks))
              && newSize > old(Live(hdr, blocks))[ptr - HEADER] ==>
        && (p == 0 <==> !old(SomeFit(hdr, free, Round(newSize))) && (TooBig(old(end), max, Round(newSize)) || oom))
        && (p != 0 ==> p >= HEADER && p - HEADER !in old(Live(hdr, blocks)))
      ensures out == Vmm.Done && p != 0 ==>
        p >= HEADER && p - HEADER in Live(hdr, blocks) && p - HEADER !in Without(old(Live(hdr, blocks)), ptr)
      ensures out == Vmm.Done && p != 0 ==> Live(hdr, blocks)[p - HEADER] >= newSize
      ensures out == Vmm.Done && p != 0 ==>
        Live(hdr, blocks) == Without(old(Live(hdr, blocks)), ptr)[p - HEADER := Live(hdr, blocks)[p - HEADER]]
      ensures out == Vmm.Done && p != 0 && ptr != 0 ==>
        Copied(old(mem), ptr, mem, p, old(Live(hdr, blocks))[ptr - HEADER])
      ensures out == Vmm.Done ==> Kept(old(mem), mem, Without(old(Live(hdr, blocks)), ptr))
      ensures old(Room(Round(newSize))) ==> out == Vmm.Done
    {
      out, oom := Vmm.Done, false;
      if ptr == 0 {
        out, p, oom := KMalloc(newSize);
        return;
      }
      assert BlockOk(hdr, blocks, start, end, ptr - HEADER);
      if newSize == 0 {
        KFree(ptr);
        p := 0;
      } else if hdr[ptr - HEADER].magic != MAGIC_USED {
        p := 0;
      } else if hdr[ptr - HEADER].size >= newSize {
        p := ptr;
      } else {
        out, p, oom := MoveTo(ptr, newSize);
      }
    }

    // ----- heap_init -----

    /** heap_init, once the tables are loaded.  If it returns and did not go astray, the heap is one
        free block of 2 MiB on pages of its own, and those pages were open to it; if they are, it
        returns, or halts for want of pages.  If one of them is bound to hide a table that the next
        needs, it goes astray, and the pages behind are left showing what they showed. */
    method Init(ghost doomed: bool, ghost h: nat, ghost top: nat) returns (out: Vmm.Outcome)
      requires this !in mmu.Repr() && Ready()
      requires doomed ==> Doomed(mmu.image, mmu.at, mmu.pages, 0, 512, h, top) && Quiet(mmu, 0) && !Open(mmu, 0, 512)
      modifies Repr()
      ensures mmu.pmm.Valid()
      ensures !mmu.astray && out == Vmm.Done ==> Valid() && old(Open(mmu, 0, 512))
      ensures out == Vmm.Done ==> Live(hdr, blocks) == map[] && free == [START] && end == START + INITIAL_SIZE
      ensures old(Open(mmu, 0, 512)) ==> !mmu.astray && (out == Vmm.Done || (out == Vmm.Halted && mmu.pmm.Exhausted()))
      ensures old(Open(mmu, 0, HORIZON)) && out == Vmm.Done ==> Smooth()
      ensures !doomed && old(Trespass(mmu, 0)) ==> out == Vmm.Lost || (out == Vmm.Halted && mmu.pmm.Exhausted())
      ensures doomed ==> (out == Vmm.Halted && mmu.pmm.Exhausted()) || (out == Vmm.Done && mmu.astray)
      ensures doomed && out == Vmm.Done ==>
        mmu.Sane() && mmu.at == old(mmu.at) && SameOutside(old(mmu.pages), mmu.pages, 0, h + 1)
    {
      var ok;
      out, ok := LayPages(doomed, h, top);
      if out != Vmm.Done { return; }
      if !ok { return Vmm.Halted; }
      AddBlock(START, INITIAL_SIZE - HEADER);
    }

    /** heap_init up to its first block. */
    method LayPages(ghost doomed: bool, ghost h: nat, ghost top: nat) returns (out: Vmm.Outcome, ok: bool)
      requires this !in mmu.Repr() && Ready()
      requires doomed ==> Doomed(mmu.image, mmu.at, mmu.pages, 0, 512, h, top) && Quiet(mmu, 0) && !Open(mmu, 0, 512)
      modifies Repr()
      ensures mmu.pmm.Valid()
      ensures start == START && max == START + MAX_SIZE && free == [] && hdr == map[] && blocks == {} && freeList == 0
      ensures out == Vmm.Done && ok ==> end == START + INITIAL_SIZE
      ensures !mmu.astray && out == Vmm.Done && ok ==> Laid() && Paved(mmu.at) && old(Open(mmu, 0, 512))
      ensures old(Open(mmu, 0, 512)) ==> !mmu.astray && out == Vmm.Done && (ok || mmu.pmm.Exhausted())
      ensures old(Open(mmu, 0, HORIZON)) && out == Vmm.Done && ok ==> Smooth()
      ensures !doomed && old(Trespass(mmu, 0)) ==> out == Vmm.Lost || (out == Vmm.Done && !ok && mmu.pmm.Exhausted())
      ensures doomed ==>
        if out == Vmm.Done && ok then mmu.astray else (out == Vmm.Done || out == Vmm.Halted) && mmu.pmm.Exhausted()
      ensures doomed && out == Vmm.Done && ok ==>
        mmu.Sane() && mmu.at == old(mmu.at) && SameOutside(old(mmu.pages), mmu.pages, 0, h + 1)
    {
      Reset();
      if Open(mmu, 0, HORIZON) { OpenUpTo(mmu.pages, mmu.at, mmu.image, 0, 512, HORIZON); }
      out, ok := Extend(INITIAL_SIZE / PAGE, doomed, h, top);
    }

    /** The empty heap, before its first pages. */
    method Reset()
      requires this !in mmu.Repr()
      modifies this
      ensures start == end == START && max == START + MAX_SIZE && frames == [] && free == []
      ensures hdr == map[] && blocks == {} && freeList == 0 && (Ready() ==> Laid())
    {
      start, end, max := START, START, START + MAX_SIZE;
      hdr, mem, freeList := map[], map[], 0;
      blocks, free, frames := {}, [], [];
    }

    /** What vmm_init leaves for heap_init: loaded tables, with one for every heap page. */
    ghost predicate Ready()
      reads mmu.Repr()
    {
      mmu.Valid() && mmu.root != 0 && mmu.loaded && Paved(mmu.at)
    }
  }
}
