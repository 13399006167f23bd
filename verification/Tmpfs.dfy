/** The file data of fs/tmpfs/tmpfs.c: files that grow by doubling through krealloc. */
module Tmpfs {
  import opened Arith
  import opened Common
  import Heap
  import HeapPages
  import Vmm

  const MAX_FILES := 64
  const MAX_FILE_SIZE := 0x4_0000
  const FIRST_CAPACITY := 256
  const EINVAL := 22
  const ENOSPC := 28
  const ENOMEM := 12

  datatype Node = Node(data: nat, size: nat, capacity: nat)

  /** A capacity is 0 or 256 doubled some number of times, up to 256 KiB. */
  ghost predicate IsCapacity(c: nat) {
    c == 0 || (c <= MAX_FILE_SIZE && exists k: nat :: c == FIRST_CAPACITY * Pow2(k))
  }

  /** c is the least capacity that holds `need` bytes. */
  ghost predicate CapacityFor(c: nat, need: nat) {
    need <= c && c > 0 && IsCapacity(c) && (c == FIRST_CAPACITY || c / 2 < need)
  }

  /** A capacity that is enough stays. */
  ghost predicate CapacityAfter(c: nat, c': nat, need: nat) {
    if need <= c then c' == c else CapacityFor(c', need)
  }

  /** The doubling loop of tmpfs_vfs_write finds the least capacity that is enough, and passes the
      limit exactly when the request does. */
  method NewCapacity(capacity: nat, need: nat) returns (c: nat)
    requires IsCapacity(capacity) && capacity < need
    ensures c >= need && (c > MAX_FILE_SIZE <==> need > MAX_FILE_SIZE)
    ensures c <= MAX_FILE_SIZE ==> CapacityFor(c, need)
  {
    ghost var k: nat := 0;
    if capacity != 0 {
      ghost var j: nat :| capacity == FIRST_CAPACITY * Pow2(j);
      k := j + 1;
      LimitIsPower(j);
    }
    c := if capacity != 0 then capacity * 2 else FIRST_CAPACITY;
    LimitIsPower(k);
    while c < need
      invariant c == FIRST_CAPACITY * Pow2(k) && c >= FIRST_CAPACITY && (c == FIRST_CAPACITY || c / 2 < need)
      invariant c > MAX_FILE_SIZE ==> need > MAX_FILE_SIZE
      decreases need - c
    {
      LimitIsPower(k);
      c := c * 2;
      k := k + 1;
      LimitIsPower(k);
    }
  }

  lemma LimitIsPower(k: nat)
    ensures FIRST_CAPACITY * Pow2(k) > MAX_FILE_SIZE <==> k > 10
    ensures FIRST_CAPACITY * Pow2(k) >= MAX_FILE_SIZE <==> k >= 10
  {
    PowerTen();
    if k > 10 { Pow2Monotone(11, k); } else if k < 10 { Pow2Monotone(k, 9); }
  }

  lemma PowerTen()
    ensures Pow2(9) == 512 && Pow2(10) == 1024 && Pow2(11) == 2048
  {
    assert Pow2(5) == 32;
    assert Pow2(9) == 512;
  }

  /** In 64-bit arithmetic the doublings of 256 come to reach a request exactly if it is at most
      2^63; for a larger one they pass through 0 and the loop never ends. */
  lemma DoublingEnds(need: nat)
    requires 0 < need < WORD
    ensures (exists k: nat {:trigger Pow2(k)} :: FIRST_CAPACITY * Pow2(k) % WORD >= need) <==> need <= WORD / 2
  {
    BigPowers();
    if need <= WORD / 2 {
      assert FIRST_CAPACITY * Pow2(55) % WORD >= need;
    }
    forall k: nat | FIRST_CAPACITY * Pow2(k) % WORD >= need ensures need <= WORD / 2 {
      if k >= 56 { PowerFactor(k); } else { Pow2Monotone(k, 55); }
    }
  }

  lemma BigPowers()
    ensures Pow2(55) == 0x80_0000_0000_0000 && Pow2(56) == 0x100_0000_0000_0000
  {
    assert Pow2(7) == 128;
    Pow2Double(7);
    Pow2Double(14);
    Pow2Double(28);
    assert Pow2(56) == 2 * Pow2(55);
  }

  lemma {:induction false} PowerFactor(k: nat)
    requires k >= 56
    ensures FIRST_CAPACITY * Pow2(k) % WORD == 0
  {
    BigPowers();
    if k > 56 {
      PowerFactor(k - 1);
      assert FIRST_CAPACITY * Pow2(k) == 2 * (FIRST_CAPACITY * Pow2(k - 1));
    }
  }

  type Nodes = seq<Node>

  /** Node i has its own live heap block of at least its capacity. */
  ghost predicate NodeOk(nodes: Nodes, live: map<nat, nat>, i: nat)
    requires i < |nodes|
  {
    var n := nodes[i];
    && IsCapacity(n.capacity) && n.size <= n.capacity
    && (n.capacity == 0 ==> n.data == 0)
    && (n.capacity > 0 ==>
          n.data >= Heap.HEADER && n.data - Heap.HEADER in live && live[n.data - Heap.HEADER] >= n.capacity)
  }

  ghost predicate Separate(nodes: Nodes, i: nat, j: nat)
    requires i < |nodes| && j < |nodes|
  {
    i != j && nodes[i].capacity > 0 && nodes[j].capacity > 0 ==> nodes[i].data != nodes[j].data
  }

  ghost predicate NodesOk(nodes: Nodes, live: map<nat, nat>) {
    && (forall i: nat {:trigger NodeOk(nodes, live, i)} :: i < |nodes| ==> NodeOk(nodes, live, i))
    && (forall i: nat, j: nat {:trigger Separate(nodes, i, j)} :: i < |nodes| && j < |nodes| ==> Separate(nodes, i, j))
  }

  /** Byte k of a file, or None where nothing was ever written. */
  ghost function ByteAt(n: Node, mem: Heap.Bytes, k: nat): Option<bv8> {
    if k < n.size && n.data + k in mem then Some(mem[n.data + k]) else None
  }

  /** A file without unwritten gaps holds the byte sequence s. */
  ghost predicate Holds(n: Node, mem: Heap.Bytes, s: seq<bv8>) {
    n.size == |s| && forall k: nat {:trigger ByteAt(n, mem, k)} :: k < |s| ==> ByteAt(n, mem, k) == Some(s[k])
  }

  ghost function Splice(s: seq<bv8>, offset: nat, buf: seq<bv8>): seq<bv8>
    requires offset <= |s|
  {
    s[..offset] + buf + if offset + |buf| <= |s| then s[offset + |buf|..] else []
  }

  /** The bytes of node n in mem are those of node n' in mem'. */
  ghost predicate SameFile(n: Node, mem: Heap.Bytes, n': Node, mem': Heap.Bytes) {
    n'.size == n.size && forall k: nat {:trigger ByteAt(n', mem', k)} :: ByteAt(n', mem', k) == ByteAt(n, mem, k)
  }

  /** What a write of buf at offset makes of a file: buf in place, every other old byte kept. */
  ghost predicate Written(n: Node, mem: Heap.Bytes, n': Node, mem': Heap.Bytes, offset: nat, buf: seq<bv8>) {
    && n'.size == (if offset + |buf| > n.size then offset + |buf| else n.size)
    && (forall k: nat {:trigger ByteAt(n', mem', k)} :: offset <= k < offset + |buf| ==>
          ByteAt(n', mem', k) == Some(buf[k - offset]))
    && (forall k: nat {:trigger ByteAt(n', mem', k)} :: k < n.size && !(offset <= k < offset + |buf|) ==>
          ByteAt(n', mem', k) == ByteAt(n, mem, k))
  }

  /** A write that starts at or before the end splices the data into the byte sequence. */
  lemma WrittenSplices(n: Node, mem: Heap.Bytes, n': Node, mem': Heap.Bytes, offset: nat, buf: seq<bv8>, s: seq<bv8>)
    requires Holds(n, mem, s) && offset <= |s| && Written(n, mem, n', mem', offset, buf)
    ensures Holds(n', mem', Splice(s, offset, buf))
  {
    var t := Splice(s, offset, buf);
    forall k: nat | k < |t| ensures ByteAt(n', mem', k) == Some(t[k]) {
      if k < offset || k >= offset + |buf| { assert ByteAt(n, mem, k) == Some(s[k]); }
    }
  }

  // ----- Growing one file -----

  /** live' and mem' are what a successful krealloc of file i's block to q, large enough for
      `capacity` bytes, makes of live and mem. */
  ghost predicate Reallocated(nodes: Nodes, live: map<nat, nat>, mem: Heap.Bytes, live': map<nat, nat>,
                              mem': Heap.Bytes,
                              i: nat, q: nat, capacity: nat)
    requires i < |nodes|
  {
    var p := nodes[i].data;
    && q >= Heap.HEADER && q - Heap.HEADER in live' && live'[q - Heap.HEADER] >= capacity
    && q - Heap.HEADER !in Heap.Without(live, p)
    && live' == Heap.Without(live, p)[q - Heap.HEADER := live'[q - Heap.HEADER]]
    && (p != 0 ==> p - Heap.HEADER in live && Heap.Copied(mem, p, mem', q, live[p - Heap.HEADER]))
    && Heap.Kept(mem, mem', Heap.Without(live, p))
  }

  lemma GrowKeepsFile(nodes: Nodes, live: map<nat, nat>, mem: Heap.Bytes, live': map<nat, nat>, mem': Heap.Bytes,
                      i: nat, q: nat, capacity: nat)
    requires NodesOk(nodes, live) && i < |nodes| && nodes[i].capacity < capacity
    requires Reallocated(nodes, live, mem, live', mem', i, q, capacity)
    ensures SameFile(nodes[i], mem, Node(q, nodes[i].size, capacity), mem')
  {
    var n, n' := nodes[i], Node(q, nodes[i].size, capacity);
    assert NodeOk(nodes, live, i);
    forall k: nat ensures ByteAt(n', mem', k) == ByteAt(n, mem, k) {
      if k < n.size { assert Heap.CopiedAt(mem, n.data, mem', q, k); }
    }
  }

  lemma GrowKeepsOthers(nodes: Nodes, live: map<nat, nat>, mem: Heap.Bytes, live': map<nat, nat>, mem': Heap.Bytes,
                        i: nat, q: nat, capacity: nat, j: nat)
    requires NodesOk(nodes, live) && i < |nodes| && j < |nodes| && j != i
    requires Reallocated(nodes, live, mem, live', mem', i, q, capacity)
    ensures NodeOk(nodes, live', j) && SameFile(nodes[j], mem, nodes[j], mem')
    ensures nodes[j].capacity > 0 ==> nodes[j].data != q
  {
    var n := nodes[j];
    assert NodeOk(nodes, live, i) && NodeOk(nodes, live, j) && Separate(nodes, i, j);
    forall k: nat ensures ByteAt(n, mem', k) == ByteAt(n, mem, k) {
      if k < n.size { assert Heap.InPayload(Heap.Without(live, nodes[i].data), n.data - Heap.HEADER, n.data + k); }
    }
  }

  /** A grown file has the same contents, and all other files are untouched. */
  lemma GrowKeepsFiles(nodes: Nodes, live: map<nat, nat>, mem: Heap.Bytes, live': map<nat, nat>, mem': Heap.Bytes,
                       i: nat, q: nat, capacity: nat)
    requires NodesOk(nodes, live) && i < |nodes| && nodes[i].capacity < capacity && IsCapacity(capacity)
    requires Reallocated(nodes, live, mem, live', mem', i, q, capacity)
    ensures var nodes' := nodes[i := Node(q, nodes[i].size, capacity)];
            NodesOk(nodes', live') && forall j: nat :: j < |nodes| ==> SameFile(nodes[j], mem, nodes'[j], mem')
  {
    var nodes' := nodes[i := Node(q, nodes[i].size, capacity)];
    GrowKeepsFile(nodes, live, mem, live', mem', i, q, capacity);
    assert NodeOk(nodes, live, i);
    forall j: nat | j < |nodes| ensures NodeOk(nodes', live', j) && SameFile(nodes[j], mem, nodes'[j], mem') {
      if j != i { GrowKeepsOthers(nodes, live, mem, live', mem', i, q, capacity, j); }
    }
    forall j: nat, k: nat | j < |nodes| && k < |nodes| ensures Separate(nodes', j, k) {
      assert Separate(nodes, j, k);
      if j != i { GrowKeepsOthers(nodes, live, mem, live', mem', i, q, capacity, j); }
      if k != i { GrowKeepsOthers(nodes, live, mem, live', mem', i, q, capacity, k); }
    }
  }

  /** Nothing happened to the heap that any file could see. */
  lemma KeptKeepsFiles(nodes: Nodes, live: map<nat, nat>, mem: Heap.Bytes, mem': Heap.Bytes)
    requires NodesOk(nodes, live) && Heap.Kept(mem, mem', live)
    ensures forall j: nat :: j < |nodes| ==> SameFile(nodes[j], mem, nodes[j], mem')
  {
    forall j: nat | j < |nodes| ensures SameFile(nodes[j], mem, nodes[j], mem') {
      var n := nodes[j];
      assert NodeOk(nodes, live, j);
      forall k: nat ensures ByteAt(n, mem', k) == ByteAt(n, mem, k) {
        if k < n.size { assert Heap.InPayload(live, n.data - Heap.HEADER, n.data + k); }
      }
    }
  }

  // ----- Storing into one file -----

  function Sized(n: Node, offset: nat, count: nat): Node {
    n.(size := if offset + count > n.size then offset + count else n.size)
  }

  lemma StoreWrites(n: Node, mem: Heap.Bytes, mem': Heap.Bytes, offset: nat, buf: seq<bv8>)
    requires Heap.Outside(mem, mem', n.data + offset, n.data + offset + |buf|)
    requires forall a :: n.data + offset <= a < n.data + offset + |buf| ==>
      a in mem' && mem'[a] == buf[a - n.data - offset]
    ensures Written(n, mem, Sized(n, offset, |buf|), mem', offset, buf)
  {
    var n' := Sized(n, offset, |buf|);
    forall k: nat | offset <= k < offset + |buf| ensures ByteAt(n', mem', k) == Some(buf[k - offset]) {}
    forall k: nat | k < n.size && !(offset <= k < offset + |buf|) ensures ByteAt(n', mem', k) == ByteAt(n, mem, k) {}
  }

  lemma StoreMissesOthers(nodes: Nodes, hdr: Heap.Headers, blocks: set<nat>, start: nat, end: nat,
                          mem: Heap.Bytes, mem': Heap.Bytes, i: nat, offset: nat, count: nat, j: nat)
    requires NodesOk(nodes, Heap.Live(hdr, blocks)) && Heap.Tiled(hdr, blocks, start, end)
    requires i < |nodes| && j < |nodes| && i != j && offset + count <= nodes[i].capacity && 0 < nodes[i].capacity
    requires Heap.Outside(mem, mem', nodes[i].data + offset, nodes[i].data + offset + count)
    ensures SameFile(nodes[j], mem, nodes[j], mem')
  {
    var live, n := Heap.Live(hdr, blocks), nodes[j];
    assert NodeOk(nodes, live, i) && NodeOk(nodes, live, j) && Separate(nodes, i, j);
    if n.capacity > 0 {
      Heap.PayloadsDisjoint(hdr, blocks, start, end, nodes[i].data - Heap.HEADER, n.data - Heap.HEADER);
    }
    forall k: nat ensures ByteAt(n, mem', k) == ByteAt(n, mem, k) {}
  }

  lemma SizedKeepsNodes(nodes: Nodes, live: map<nat, nat>, i: nat, offset: nat, count: nat)
    requires NodesOk(nodes, live) && i < |nodes| && offset + count <= nodes[i].capacity
    ensures NodesOk(nodes[i := Sized(nodes[i], offset, count)], live)
  {
    var nodes' := nodes[i := Sized(nodes[i], offset, count)];
    forall j: nat | j < |nodes| ensures NodeOk(nodes', live, j) { assert NodeOk(nodes, live, j); }
    forall j: nat, k: nat | j < |nodes| && k < |nodes| ensures Separate(nodes', j, k) { assert Separate(nodes, j, k); }
  }

  lemma WriteAfterGrow(n: Node, mem: Heap.Bytes, n1: Node, mem1: Heap.Bytes, n2: Node, mem2: Heap.Bytes,
                       offset: nat, buf: seq<bv8>)
    requires SameFile(n, mem, n1, mem1) && Written(n1, mem1, n2, mem2, offset, buf)
    ensures Written(n, mem, n2, mem2, offset, buf)
  {
    forall k: nat | k < n.size && !(offset <= k < offset + |buf|) ensures ByteAt(n2, mem2, k) == ByteAt(n, mem, k) {
      assert ByteAt(n1, mem1, k) == ByteAt(n, mem, k);
    }
  }

  /** A heap that has no free block for the capacity a file needs, and no room or pages to grow. */
  ghost predicate NoRoom(hdr: Heap.Headers, free: seq<nat>, end: nat, exhausted: bool, need: nat) {
    exists c: nat {:trigger CapacityFor(c, need)} ::
      && CapacityFor(c, need) && c <= MAX_FILE_SIZE && !Heap.SomeFit(hdr, free, Heap.Round(c))
      && (Heap.TooBig(end, HeapPages.START + HeapPages.MAX_SIZE, Heap.Round(c)) || exhausted)
  }

  // ----- How much is read -----

  /** The cast to int. */
  function AsInt(c: nat): int {
    var low := c % 0x1_0000_0000;
    if low < 0x8000_0000 then low else low - 0x1_0000_0000
  }

  function CountToCopy(size: nat, offset: nat, count: nat): nat {
    if offset >= size then 0 else if (offset + count) % WORD > size then size - offset else count
  }

  predicate Inside(size: nat, offset: nat, n: nat) {
    n == 0 || offset + n <= size
  }

  lemma ReadFacts(size: nat, offset: nat, count: nat)
    requires size <= MAX_FILE_SIZE && offset < WORD && count < WORD
    ensures var n := CountToCopy(size, offset, count);
            && (Inside(size, offset, n) <==> offset >= size || offset + count < WORD)
            && (Inside(size, offset, n) ==>
                  AsInt(n) == n <= count && (n == count || offset + n >= size))
  {
  }

  /** A request that wraps: 2^64 - 1 bytes are copied out of a file of 2. */
  lemma ReadCanOverrun()
    ensures CountToCopy(2, 1, WORD - 1) == WORD - 1 && !Inside(2, 1, WORD - 1)
  {
  }

  class FileSystem {
    const heap: Heap.KernelHeap
    var nodes: Nodes

    ghost function Repr(): set<object> {
      {this} + heap.Repr()
    }

    ghost function Live(): map<nat, nat>
      reads heap
    {
      Heap.Live(heap.hdr, heap.blocks)
    }

    ghost predicate Valid()
      reads Repr()
    {
      this !in heap.Repr() && heap.Valid() && NodesOk(nodes, Live())
    }

    constructor (heap: Heap.KernelHeap)
      requires heap.Valid()
      ensures Valid() && this.heap == heap && |nodes| == MAX_FILES
      ensures forall i: nat :: i < MAX_FILES ==> nodes[i] == Node(0, 0, 0)
    {
      this.heap := heap;
      nodes := seq(MAX_FILES, i => Node(0, 0, 0));
    }

    /** tmpfs_vfs_read: the bytes from offset up to the end of the file.  The end of the request is
        computed in 64-bit arithmetic, so it stays inside the file exactly if that does not wrap. */
    method Read(file: Option<nat>, offset: nat, count: nat) returns (r: int, buf: seq<Option<bv8>>)
      requires Valid() && (file.Some? ==> file.value < |nodes|) && offset < WORD && count < WORD
      ensures file.None? ==> r == -EINVAL && buf == []
      ensures file.Some? ==> r == AsInt(|buf|) && |buf| == CountToCopy(nodes[file.value].size, offset, count)
      ensures file.Some? ==> (Inside(nodes[file.value].size, offset, |buf|) <==>
                              offset >= nodes[file.value].size || offset + count < WORD)
      ensures file.Some? && Inside(nodes[file.value].size, offset, |buf|) ==>
        && r == |buf| <= count && (|buf| == count || offset + |buf| >= nodes[file.value].size)
        && forall k: nat :: k < |buf| ==> buf[k] == ByteAt(nodes[file.value], heap.mem, offset + k)
    {
      if file.None? { return -EINVAL, []; }
      var n := nodes[file.value];
      assert NodeOk(nodes, Live(), file.value);
      ReadFacts(n.size, offset, count);
      if offset >= n.size { return 0, []; }
      var c := if (offset + count) % WORD > n.size then n.size - offset else count;
      buf := [];
      for i := 0 to c
        invariant |buf| == i
        invariant forall k: nat :: k < i && offset + k < n.size ==> buf[k] == ByteAt(n, heap.mem, offset + k)
      {
        var b := heap.Peek(n.data + offset + i);
        assert n.data + offset + i == n.data + (offset + i);
        buf := buf + [b];
      }
      return AsInt(c), buf;
    }

    /** The heap has room for whatever capacity a file of `need` bytes may be given. */
    ghost predicate RoomFor(need: nat)
      reads heap.Repr()
    {
      forall c: nat {:trigger CapacityFor(c, need)} :: CapacityFor(c, need) && c <= MAX_FILE_SIZE ==> heap.Room(Heap.Round(c))
    }

    lemma SmoothHasRoomFor(need: nat)
      requires Valid() && heap.Smooth()
      ensures RoomFor(need)
    {
      forall c: nat | CapacityFor(c, need) && c <= MAX_FILE_SIZE ensures heap.Room(Heap.Round(c)) {
        heap.SmoothHasRoom(Heap.Round(c));
      }
    }

    /** Moving a file's bytes to a block of the new capacity. */
    method Enlarge(i: nat, capacity: nat, ghost need: nat) returns (out: Vmm.Outcome, err: int)
      requires Valid() && i < |nodes| && nodes[i].capacity < need
      requires CapacityFor(capacity, need) && need <= capacity <= MAX_FILE_SIZE
      modifies Repr()
      ensures out == Vmm.Done ==> Valid() && |nodes| == |old(nodes)| && (old(heap.Smooth()) ==> heap.Smooth())
      ensures out == Vmm.Done ==> err == 0 || err == -ENOMEM
      ensures out == Vmm.Done && err == -ENOMEM ==>
        NoRoom(old(heap.hdr), old(heap.free), old(heap.end), heap.mmu.pmm.Exhausted(), need)
      ensures out == Vmm.Done ==>
        if err == 0 then nodes[i].capacity == capacity && nodes == old(nodes)[i := nodes[i]] else nodes == old(nodes)
      ensures out == Vmm.Done ==>
        forall j: nat :: j < |nodes| ==> SameFile(old(nodes[j]), old(heap.mem), nodes[j], heap.mem)
      ensures old(RoomFor(need)) ==> out == Vmm.Done
    {
      var n := nodes[i];
      ghost var live, mem := Live(), heap.mem;
      assert NodeOk(nodes, live, i);
      var data;
      ghost var oom;
      out, data, oom := heap.KRealloc(n.data, capacity);
      if out != Vmm.Done { return out, 0; }
      if data == 0 {
        KeptKeepsFiles(nodes, live, mem, heap.mem);
        return Vmm.Done, -ENOMEM;
      }
      GrowKeepsFiles(nodes, live, mem, Live(), heap.mem, i, data, capacity);
      nodes := nodes[i := Node(data, n.size, capacity)];
      return Vmm.Done, 0;
    }

    /** The growing branch of tmpfs_vfs_write; no file changes its contents. */
    method Reserve(i: nat, need: nat) returns (out: Vmm.Outcome, err: int)
      requires Valid() && i < |nodes| && nodes[i].capacity < need <= WORD / 2
      modifies Repr()
      ensures out == Vmm.Done ==> Valid() && |nodes| == |old(nodes)| && (old(heap.Smooth()) ==> heap.Smooth())
      ensures out == Vmm.Done ==> err == 0 || err == -ENOSPC || err == -ENOMEM
      ensures out == Vmm.Done ==> (err == -ENOSPC <==> need > MAX_FILE_SIZE)
      ensures out == Vmm.Done && err == -ENOMEM ==>
        NoRoom(old(heap.hdr), old(heap.free), old(heap.end), heap.mmu.pmm.Exhausted(), need)
      ensures out == Vmm.Done && err == 0 ==> CapacityFor(nodes[i].capacity, need) && nodes == old(nodes)[i := nodes[i]]
      ensures out == Vmm.Done && err != 0 ==> nodes == old(nodes)
      ensures out == Vmm.Done ==>
        forall j: nat :: j < |nodes| ==> SameFile(old(nodes[j]), old(heap.mem), nodes[j], heap.mem)
      ensures need > MAX_FILE_SIZE || old(RoomFor(need)) ==> out == Vmm.Done
    {
      assert NodeOk(nodes, Live(), i);
      var capacity := NewCapacity(nodes[i].capacity, need);
      if capacity > MAX_FILE_SIZE {
        KeptKeepsFiles(nodes, Live(), heap.mem, heap.mem);
        return Vmm.Done, -ENOSPC;
      }
      out, err := Enlarge(i, capacity, need);
    }

    /** Room for `need` bytes, growing the file if it has to. */
    method MakeRoom(i: nat, need: nat) returns (out: Vmm.Outcome, err: int)
      requires Valid() && i < |nodes| && need <= WORD / 2
      modifies Repr()
      ensures out == Vmm.Done ==> Valid() && |nodes| == |old(nodes)| && (old(heap.Smooth()) ==> heap.Smooth())
      ensures out == Vmm.Done ==> err == 0 || err == -ENOSPC || err == -ENOMEM
      ensures out == Vmm.Done ==> (err == -ENOSPC <==> need > MAX_FILE_SIZE)
      ensures out == Vmm.Done && err == -ENOMEM ==>
        NoRoom(old(heap.hdr), old(heap.free), old(heap.end), heap.mmu.pmm.Exhausted(), need)
      ensures out == Vmm.Done && err == 0 ==>
        nodes[i].capacity >= need && CapacityAfter(old(nodes[i]).capacity, nodes[i].capacity, need)
      ensures out == Vmm.Done ==>
        forall j: nat :: j < |nodes| ==> SameFile(old(nodes[j]), old(heap.mem), nodes[j], heap.mem)
      ensures need <= old(nodes[i].capacity) || need > MAX_FILE_SIZE ==> out == Vmm.Done
      ensures old(heap.Smooth() || RoomFor(need)) ==> out == Vmm.Done
    {
      assert NodeOk(nodes, Live(), i);
      if need > nodes[i].capacity {
        if heap.Smooth() { SmoothHasRoomFor(need); }
        out, err := Reserve(i, need);
      } else {
        KeptKeepsFiles(nodes, Live(), heap.mem, heap.mem);
        return Vmm.Done, 0;
      }
    }

    /** memcpy and the size update of tmpfs_vfs_write. */
    method Store(i: nat, offset: nat, buf: seq<bv8>)
      requires Valid() && i < |nodes| && offset + |buf| <= nodes[i].capacity
      modifies `nodes, heap`hdr, heap`mem
      ensures Valid() && nodes == old(nodes)[i := Sized(old(nodes[i]), offset, |buf|)]
      ensures Written(old(nodes[i]), old(heap.mem), nodes[i], heap.mem, offset, buf)
      ensures forall j: nat :: j < |nodes| && j != i ==> SameFile(old(nodes[j]), old(heap.mem), nodes[j], heap.mem)
    {
      ghost var live, mem := Live(), heap.mem;
      assert NodeOk(nodes, live, i);
      SizedKeepsNodes(nodes, live, i, offset, |buf|);
      if nodes[i].capacity > 0 {
        heap.StoreBytes(nodes[i].data + offset, buf, nodes[i].data - Heap.HEADER);
        forall j: nat | j < |nodes| && j != i ensures SameFile(nodes[j], mem, nodes[j], heap.mem) {
          StoreMissesOthers(nodes, heap.hdr, heap.blocks, heap.start, heap.end, mem, heap.mem, i, offset, |buf|, j);
        }
      } else {
        KeptKeepsFiles(nodes, live, mem, mem);
      }
      StoreWrites(nodes[i], mem, heap.mem, offset, buf);
      nodes := nodes[i := Sized(nodes[i], offset, |buf|)];
    }

    /** tmpfs_vfs_write.  It returns unless the heap has to grow into pages not open to it.  It fails
        with -ENOSPC exactly when the write would end beyond 256 KiB; a failed write changes no
        file; a successful one writes its own file only. */
    method Write(file: Option<nat>, offset: nat, buf: seq<bv8>) returns (out: Vmm.Outcome, r: int)
      requires Valid() && (file.Some? ==> file.value < |nodes|) && offset + |buf| <= WORD / 2
      modifies Repr()
      ensures out == Vmm.Done ==> Valid() && |nodes| == |old(nodes)| && (old(heap.Smooth()) ==> heap.Smooth())
      ensures file.None? ==> out == Vmm.Done && r == -EINVAL
      ensures out == Vmm.Done && file.Some? ==> r == |buf| || r == -ENOSPC || r == -ENOMEM
      ensures out == Vmm.Done && file.Some? ==> (r == -ENOSPC <==> offset + |buf| > MAX_FILE_SIZE)
      ensures out == Vmm.Done && r == -ENOMEM ==>
        NoRoom(old(heap.hdr), old(heap.free), old(heap.end), heap.mmu.pmm.Exhausted(), offset + |buf|)
      ensures out == Vmm.Done && r < 0 ==>
        forall j: nat :: j < |nodes| ==> SameFile(old(nodes[j]), old(heap.mem), nodes[j], heap.mem)
      ensures out == Vmm.Done && r >= 0 ==>
        Written(old(nodes[file.value]), old(heap.mem), nodes[file.value], heap.mem, offset, buf)
      ensures out == Vmm.Done && r >= 0 ==> forall j: nat :: j < |nodes| && j != file.value ==>
        SameFile(old(nodes[j]), old(heap.mem), nodes[j], heap.mem)
      ensures out == Vmm.Done && r >= 0 ==>
        CapacityAfter(old(nodes[file.value]).capacity, nodes[file.value].capacity, offset + |buf|)
      ensures file.Some? && (offset + |buf| <= old(nodes[file.value].capacity) || offset + |buf| > MAX_FILE_SIZE) ==>
        out == Vmm.Done
      ensures old(heap.Smooth() || RoomFor(offset + |buf|)) ==> out == Vmm.Done
    {
      ghost var nodes0, mem0 := nodes, heap.mem;
      if file.None? {
        KeptKeepsFiles(nodes, Live(), mem0, mem0);
        return Vmm.Done, -EINVAL;
      }
      var i := file.value;
      out, r := MakeRoom(i, offset + |buf|);
      if out != Vmm.Done || r < 0 { return; }
      ghost var nodes1, mem1 := nodes, heap.mem;
      Store(i, offset, buf);
      WriteAfterGrow(nodes0[i], mem0, nodes1[i], mem1, nodes[i], heap.mem, offset, buf);
      return Vmm.Done, |buf|;
    }
  }
}
