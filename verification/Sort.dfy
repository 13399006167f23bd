/** heapsort and bsearch (lib/sort.c) over one flat byte array cut into elements of equal size.

    The elements are seen as a sequence of byte strings; swaps are made byte by byte. */
module Sort {

  type Element = seq<bv8>
  type Comparator = (Element, Element) -> int

  const INT_MAX: nat := 0x7FFF_FFFF

  // ----- The order -----

  ghost predicate SignsAgree(cmp: Comparator, x: Element, y: Element) {
    cmp(x, y) < 0 <==> cmp(y, x) > 0
  }

  ghost predicate Composes(cmp: Comparator, x: Element, y: Element, z: Element) {
    cmp(x, y) <= 0 && cmp(y, z) <= 0 ==> cmp(x, z) <= 0
  }

  /** cmp is a total preorder. */
  ghost predicate IsOrder(cmp: Comparator) {
    && (forall x, y {:trigger SignsAgree(cmp, x, y)} :: SignsAgree(cmp, x, y))
    && (forall x, y, z {:trigger Composes(cmp, x, y, z)} :: Composes(cmp, x, y, z))
  }

  ghost predicate Leq(cmp: Comparator, x: Element, y: Element) {
    cmp(x, y) <= 0
  }

  ghost predicate InOrderAt(cmp: Comparator, v: seq<Element>, i: nat, j: nat) {
    i < j < |v| ==> Leq(cmp, v[i], v[j])
  }

  /** Every element from index e on is at least all those before it. */
  ghost predicate OrderedFrom(cmp: Comparator, v: seq<Element>, e: nat) {
    forall i: nat, j: nat {:trigger InOrderAt(cmp, v, i, j)} :: e <= j ==> InOrderAt(cmp, v, i, j)
  }

  ghost predicate Sorted(cmp: Comparator, v: seq<Element>) {
    OrderedFrom(cmp, v, 0)
  }

  // ----- Elements of a flat array -----

  ghost predicate Fits(bytes: seq<bv8>, n: nat, size: nat) {
    n * size <= |bytes|
  }

  lemma Offset(i: nat, n: nat, size: nat)
    requires i < n
    ensures i * size + size <= n * size
  {
    assert (n - i - 1) * size >= 0;
    assert (n - i - 1) * size == n * size - i * size - size;
  }

  ghost function At(bytes: seq<bv8>, n: nat, size: nat, i: nat): (x: Element)
    requires Fits(bytes, n, size) && i < n
    ensures |x| == size
  {
    Offset(i, n, size);
    bytes[i * size..i * size + size]
  }

  ghost function View(bytes: seq<bv8>, n: nat, size: nat): (v: seq<Element>)
    requires Fits(bytes, n, size)
    ensures |v| == n
  {
    seq(n, i requires 0 <= i < n => At(bytes, n, size, i))
  }

  function Swapped<T>(v: seq<T>, i: nat, j: nat): seq<T>
    requires i < |v| && j < |v|
  {
    v[i := v[j]][j := v[i]]
  }

  /** The byte at k after exchanging the blocks of size bytes at x and y. */
  function Exchanged(bytes: seq<bv8>, x: nat, y: nat, size: nat, k: nat): bv8
    requires x + size <= |bytes| && y + size <= |bytes| && k < |bytes|
  {
    if x <= k < x + size then bytes[y + k - x] else if y <= k < y + size then bytes[x + k - y] else bytes[k]
  }

  ghost predicate IsExchange(b: seq<bv8>, b': seq<bv8>, x: nat, y: nat, size: nat)
    requires x + size <= |b| && y + size <= |b|
  {
    |b'| == |b| && forall k :: 0 <= k < |b'| ==> b'[k] == Exchanged(b, x, y, size, k)
  }

  method SwapBytes(a: array<bv8>, x: nat, y: nat, size: nat)
    requires x + size <= a.Length && y + size <= a.Length && (x + size <= y || y + size <= x)
    modifies a
    ensures IsExchange(old(a[..]), a[..], x, y, size)
  {
    var i := 0;
    while i < size
      invariant 0 <= i <= size && IsExchange(old(a[..]), a[..], x, y, i)
    {
      var tmp := a[x + i];
      a[x + i] := a[y + i];
      a[y + i] := tmp;
      i := i + 1;
    }
  }

  lemma ExchangedBlock(b: seq<bv8>, b': seq<bv8>, x: nat, y: nat, size: nat, z: nat)
    requires x + size <= |b| && y + size <= |b| && z + size <= |b| && IsExchange(b, b', x, y, size)
    requires x + size <= y || y + size <= x
    ensures z == x ==> b'[z..z + size] == b[y..y + size]
    ensures z == y ==> b'[z..z + size] == b[x..x + size]
    ensures (x + size <= z || z + size <= x) && (y + size <= z || z + size <= y) ==> b'[z..z + size] == b[z..z + size]
  {
  }

  lemma BlocksApart(i: nat, j: nat, n: nat, size: nat)
    requires i < n && j < n && i != j
    ensures i * size + size <= j * size || j * size + size <= i * size
    ensures i * size + size <= n * size && j * size + size <= n * size
  {
    Offset(i, n, size);
    Offset(j, n, size);
    if i < j { Offset(i, j, size); } else { Offset(j, i, size); }
  }

  lemma ExchangeLeaves(b: seq<bv8>, b': seq<bv8>, n: nat, size: nat, i: nat, j: nat, x: nat, y: nat, m: nat)
    requires Fits(b, n, size) && i < n && j < n && i != j && m < n && m != i && m != j
    requires x == i * size && y == j * size && x + size <= |b| && y + size <= |b| && IsExchange(b, b', x, y, size)
    ensures At(b', n, size, m) == At(b, n, size, m)
  {
    var z := m * size;
    BlocksApart(i, m, n, size);
    BlocksApart(j, m, n, size);
    BlocksApart(i, j, n, size);
    BlockKept(b, b', x, y, size, z);
  }

  lemma BlockKept(b: seq<bv8>, b': seq<bv8>, x: nat, y: nat, size: nat, z: nat)
    requires x + size <= |b| && y + size <= |b| && z + size <= |b| && IsExchange(b, b', x, y, size)
    requires (x + size <= z || z + size <= x) && (y + size <= z || z + size <= y)
    ensures b'[z..z + size] == b[z..z + size]
  {
  }

  /** Exchanging two blocks swaps two elements and no others. */
  lemma ExchangeSwapsAt(b: seq<bv8>, b': seq<bv8>, n: nat, size: nat, i: nat, j: nat, x: nat, y: nat, m: nat)
    requires Fits(b, n, size) && i < n && j < n && i != j && m < n
    requires x == i * size && y == j * size && x + size <= |b| && y + size <= |b| && IsExchange(b, b', x, y, size)
    ensures At(b', n, size, m) == At(b, n, size, if m == i then j else if m == j then i else m)
  {
    if m == i || m == j {
      BlocksApart(i, j, n, size);
      ExchangedBlock(b, b', x, y, size, x);
      ExchangedBlock(b, b', x, y, size, y);
    } else {
      ExchangeLeaves(b, b', n, size, i, j, x, y, m);
    }
  }

  lemma ExchangeSwaps(b: seq<bv8>, b': seq<bv8>, n: nat, size: nat, i: nat, j: nat, x: nat, y: nat)
    requires Fits(b, n, size) && i < n && j < n && i != j
    requires x == i * size && y == j * size && x + size <= |b| && y + size <= |b| && IsExchange(b, b', x, y, size)
    ensures View(b', n, size) == Swapped(View(b, n, size), i, j)
  {
    var v, v' := View(b, n, size), View(b', n, size);
    forall m: nat | m < n ensures v'[m] == v[if m == i then j else if m == j then i else m] {
      ExchangeSwapsAt(b, b', n, size, i, j, x, y, m);
    }
  }

  lemma ExchangeKeepsRest(b: seq<bv8>, b': seq<bv8>, x: nat, y: nat, size: nat, m: nat)
    requires x + size <= m <= |b| && y + size <= m && IsExchange(b, b', x, y, size)
    ensures b'[m..] == b[m..]
  {
  }

  method SwapElements(a: array<bv8>, n: nat, size: nat, i: nat, j: nat)
    requires Fits(a[..], n, size) && i < n && j < n && i != j
    modifies a
    ensures View(a[..], n, size) == Swapped(old(View(a[..], n, size)), i, j)
    ensures a[..][n * size..] == old(a[..])[n * size..]
  {
    BlocksApart(i, j, n, size);
    var x, y := i * size, j * size;
    SwapBytes(a, x, y, size);
    ExchangeSwaps(old(a[..]), a[..], n, size, i, j, x, y);
    ExchangeKeepsRest(old(a[..]), a[..], x, y, size, n * size);
  }

  method Compare(a: array<bv8>, n: nat, size: nat, cmp: Comparator, i: nat, j: nat) returns (c: int)
    requires Fits(a[..], n, size) && i < n && j < n
    ensures c == cmp(View(a[..], n, size)[i], View(a[..], n, size)[j])
  {
    Offset(i, n, size);
    Offset(j, n, size);
    var x, y := i * size, j * size;
    assert a[..][x..x + size] == a[x..x + size] && a[..][y..y + size] == a[y..y + size];
    c := cmp(a[x..x + size], a[y..y + size]);
  }

  // ----- Heaps -----

  function Parent(c: nat): nat
    requires c >= 1
  {
    (c - 1) / 2
  }

  ghost predicate HeapAt(cmp: Comparator, v: seq<Element>, s: nat, c: nat) {
    1 <= c < |v| && Parent(c) >= s ==> Leq(cmp, v[c], v[Parent(c)])
  }

  /** No element up to e is greater than its parent, if that is at s or later. */
  ghost predicate HeapFrom(cmp: Comparator, v: seq<Element>, s: nat, e: nat) {
    forall c: nat {:trigger HeapAt(cmp, v, s, c)} :: c <= e ==> HeapAt(cmp, v, s, c)
  }

  ghost predicate UnderAt(cmp: Comparator, v: seq<Element>, s: nat, root: nat, c: nat) {
    1 <= c < |v| && Parent(c) == root && 1 <= root && Parent(root) >= s ==> Leq(cmp, v[c], v[Parent(root)])
  }

  /** A heap but for the children of root, which are still below root's parent. */
  ghost predicate HeapBut(cmp: Comparator, v: seq<Element>, s: nat, e: nat, root: nat) {
    && (forall c: nat {:trigger HeapAt(cmp, v, s, c)} :: 1 <= c <= e && Parent(c) != root ==> HeapAt(cmp, v, s, c))
    && (forall c: nat {:trigger UnderAt(cmp, v, s, root, c)} :: c <= e ==> UnderAt(cmp, v, s, root, c))
  }

  lemma SiftStarts(cmp: Comparator, v: seq<Element>, s: nat, e: nat)
    requires HeapFrom(cmp, v, s + 1, e)
    ensures HeapBut(cmp, v, s, e, s)
  {
    forall c: nat | 1 <= c <= e && Parent(c) != s ensures HeapAt(cmp, v, s, c) {
      assert HeapAt(cmp, v, s + 1, c);
    }
  }

  /** Moving the greatest child of root up leaves the one exception at that child's place. */
  lemma SiftStep(cmp: Comparator, v: seq<Element>, s: nat, e: nat, root: nat, k: nat)
    requires HeapBut(cmp, v, s, e, root) && s <= root && 1 <= k <= e < |v| && Parent(k) == root
    requires Leq(cmp, v[root], v[k])
    requires forall c: nat :: 1 <= c <= e && Parent(c) == root ==> Leq(cmp, v[c], v[k])
    ensures HeapBut(cmp, Swapped(v, root, k), s, e, k)
  {
    var w := Swapped(v, root, k);
    forall c: nat | 1 <= c <= e && Parent(c) != k ensures HeapAt(cmp, w, s, c) {
      if Parent(c) != root { assert HeapAt(cmp, v, s, c); }
      if c == root { assert UnderAt(cmp, v, s, root, k); }
    }
    forall c: nat | c <= e ensures UnderAt(cmp, w, s, k, c) {
      if 1 <= c && Parent(c) == k { assert HeapAt(cmp, v, s, c); }
    }
  }

  lemma SiftEnds(cmp: Comparator, v: seq<Element>, s: nat, e: nat, root: nat)
    requires HeapBut(cmp, v, s, e, root) && root <= e < |v|
    requires forall c: nat :: 1 <= c <= e && Parent(c) == root ==> Leq(cmp, v[c], v[root])
    ensures HeapFrom(cmp, v, s, e)
  {
  }

  lemma {:induction false} RootIsGreatest(cmp: Comparator, v: seq<Element>, e: nat, c: nat)
    requires IsOrder(cmp) && HeapFrom(cmp, v, 0, e) && c <= e < |v|
    ensures Leq(cmp, v[c], v[0])
  {
    if c == 0 {
      assert SignsAgree(cmp, v[0], v[0]);
    } else {
      RootIsGreatest(cmp, v, e, Parent(c));
      assert HeapAt(cmp, v, 0, c);
      assert Composes(cmp, v[c], v[Parent(c)], v[0]);
    }
  }

  /** w rearranges the first e + 1 elements of v. */
  ghost predicate Rearranged(v: seq<Element>, w: seq<Element>, e: nat) {
    e < |v| && |w| == |v| && multiset(w[..e + 1]) == multiset(v[..e + 1]) && w[e + 1..] == v[e + 1..]
  }

  lemma SwapRearranges(v: seq<Element>, i: nat, j: nat, e: nat)
    requires i <= e && j <= e && e < |v|
    ensures Rearranged(v, Swapped(v, i, j), e)
  {
    assert Swapped(v, i, j)[..e + 1] == Swapped(v[..e + 1], i, j);
  }

  lemma RearrangedIsPermutation(v: seq<Element>, w: seq<Element>, e: nat)
    requires Rearranged(v, w, e)
    ensures multiset(w) == multiset(v)
  {
    assert v == v[..e + 1] + v[e + 1..] && w == w[..e + 1] + w[e + 1..];
  }

  /** Rearranging below e leaves what is from e on in place. */
  lemma RearrangedStaysOrdered(cmp: Comparator, v: seq<Element>, w: seq<Element>, e: nat)
    requires Rearranged(v, w, e) && OrderedFrom(cmp, v, e + 1)
    ensures OrderedFrom(cmp, w, e + 1)
  {
    forall i: nat, j: nat | e + 1 <= j ensures InOrderAt(cmp, w, i, j) {
      if i < j < |w| {
        assert w[j] == w[e + 1..][j - e - 1] == v[e + 1..][j - e - 1] == v[j];
        if i <= e {
          assert w[i] == w[..e + 1][i];
          assert w[i] in multiset(v[..e + 1]);
          var i': nat :| i' <= e && v[..e + 1][i'] == w[i];
          assert InOrderAt(cmp, v, i', j);
        } else {
          assert w[i] == w[e + 1..][i - e - 1] == v[e + 1..][i - e - 1] == v[i];
          assert InOrderAt(cmp, v, i, j);
        }
      }
    }
  }

  /** Moving the root of the heap to its end extends the ordered part. */
  lemma TakeGreatest(cmp: Comparator, v: seq<Element>, e: nat)
    requires IsOrder(cmp) && 0 < e < |v| && HeapFrom(cmp, v, 0, e) && OrderedFrom(cmp, v, e + 1)
    ensures OrderedFrom(cmp, Swapped(v, 0, e), e) && HeapFrom(cmp, Swapped(v, 0, e), 1, e - 1)
  {
    var w := Swapped(v, 0, e);
    SwapRearranges(v, 0, e, e);
    RearrangedStaysOrdered(cmp, v, w, e);
    forall i: nat, j: nat | e <= j ensures InOrderAt(cmp, w, i, j) {
      if j == e {
        if i < e { RootIsGreatest(cmp, v, e, if i == 0 then e else i); }
      } else {
        assert InOrderAt(cmp, w, i, j);
      }
    }
    forall c: nat | c <= e - 1 ensures HeapAt(cmp, w, 1, c) {
      assert HeapAt(cmp, v, 0, c);
    }
  }

  /** The child of root to move up, or root itself. */
  method Greatest(a: array<bv8>, n: nat, size: nat, cmp: Comparator, root: nat, end: nat) returns (k: nat)
    requires Fits(a[..], n, size) && IsOrder(cmp) && end < n && root * 2 + 1 <= end
    ensures var v := View(a[..], n, size);
            && (k == root || (1 <= k <= end && Parent(k) == root))
            && Leq(cmp, v[root], v[k])
            && forall c: nat :: 1 <= c <= end && Parent(c) == root ==> Leq(cmp, v[c], v[k])
  {
    ghost var v := View(a[..], n, size);
    var child := root * 2 + 1;
    k := root;
    assert SignsAgree(cmp, v[root], v[root]) && SignsAgree(cmp, v[root], v[child]) && SignsAgree(cmp, v[child], v[child]);
    assert SignsAgree(cmp, v[child], v[root]);
    var c := Compare(a, n, size, cmp, k, child);
    if c < 0 { k := child; }
    if child + 1 <= end {
      assert SignsAgree(cmp, v[k], v[child + 1]) && SignsAgree(cmp, v[child + 1], v[k]);
      assert SignsAgree(cmp, v[child + 1], v[child + 1]);
      assert Composes(cmp, v[root], v[k], v[child + 1]) && Composes(cmp, v[child], v[k], v[child + 1]);
      c := Compare(a, n, size, cmp, k, child + 1);
      if c < 0 { k := child + 1; }
    }
  }

  /** sift_down turns a heap from start + 1 on into one from start on. */
  method SiftDown(a: array<bv8>, n: nat, size: nat, cmp: Comparator, start: nat, end: nat)
    requires Fits(a[..], n, size) && IsOrder(cmp) && start <= end < n
    requires HeapFrom(cmp, View(a[..], n, size), start + 1, end)
    modifies a
    ensures HeapFrom(cmp, View(a[..], n, size), start, end)
    ensures Rearranged(old(View(a[..], n, size)), View(a[..], n, size), end)
    ensures a[..][n * size..] == old(a[..])[n * size..]
  {
    ghost var v0, rest := View(a[..], n, size), a[..][n * size..];
    SiftStarts(cmp, v0, start, end);
    var root := start;
    while root * 2 + 1 <= end
      invariant start <= root <= end
      invariant HeapBut(cmp, View(a[..], n, size), start, end, root)
      invariant Rearranged(v0, View(a[..], n, size), end) && a[..][n * size..] == rest
      decreases end - root
    {
      ghost var v := View(a[..], n, size);
      var k := Greatest(a, n, size, cmp, root, end);
      if k == root {
        SiftEnds(cmp, v, start, end, root);
        return;
      }
      SiftStep(cmp, v, start, end, root, k);
      SwapRearranges(v, root, k, end);
      SwapElements(a, n, size, root, k);
      root := k;
    }
    SiftEnds(cmp, View(a[..], n, size), start, end, root);
  }

  /** heapsort sorts in place, for every comparator that is a total preorder and every element
      size; the cast of the count to int is what limits it. */
  method HeapSort(a: array<bv8>, nmemb: nat, size: nat, cmp: Comparator)
    requires Fits(a[..], nmemb, size) && IsOrder(cmp) && nmemb <= INT_MAX
    modifies a
    ensures Sorted(cmp, View(a[..], nmemb, size))
    ensures multiset(View(a[..], nmemb, size)) == multiset(old(View(a[..], nmemb, size)))
    ensures a[..][nmemb * size..] == old(a[..])[nmemb * size..]
  {
    if nmemb <= 1 { return; }
    BuildHeap(a, nmemb, size, cmp);
    SortHeap(a, nmemb, size, cmp);
  }

  /** The conversion of a size_t to a 32-bit int. */
  function ToInt(n: nat): int {
    var low := n % 0x1_0000_0000;
    if low <= INT_MAX then low else low - 0x1_0000_0000
  }

  /** Below the last parent there is nothing to order. */
  lemma LeavesAreHeap(cmp: Comparator, v: seq<Element>, start: int)
    requires |v| >= 2 && start == (|v| - 2) / 2
    ensures 0 <= start < |v| && HeapFrom(cmp, v, start + 1, |v| - 1)
  {
  }

  method BuildHeap(a: array<bv8>, nmemb: nat, size: nat, cmp: Comparator)
    requires Fits(a[..], nmemb, size) && IsOrder(cmp) && 2 <= nmemb <= INT_MAX
    modifies a
    ensures HeapFrom(cmp, View(a[..], nmemb, size), 0, nmemb - 1)
    ensures multiset(View(a[..], nmemb, size)) == multiset(old(View(a[..], nmemb, size)))
    ensures a[..][nmemb * size..] == old(a[..])[nmemb * size..]
  {
    ghost var bag, rest := multiset(View(a[..], nmemb, size)), a[..][nmemb * size..];
    var count := ToInt(nmemb);
    var start := (count - 2) / 2;
    LeavesAreHeap(cmp, View(a[..], nmemb, size), start);
    while start >= 0
      invariant -1 <= start < nmemb
      invariant HeapFrom(cmp, View(a[..], nmemb, size), start + 1, nmemb - 1)
      invariant multiset(View(a[..], nmemb, size)) == bag && a[..][nmemb * size..] == rest
    {
      ghost var v := View(a[..], nmemb, size);
      SiftDown(a, nmemb, size, cmp, start, nmemb - 1);
      RearrangedIsPermutation(v, View(a[..], nmemb, size), nmemb - 1);
      start := start - 1;
    }
  }

  method SortHeap(a: array<bv8>, nmemb: nat, size: nat, cmp: Comparator)
    requires Fits(a[..], nmemb, size) && IsOrder(cmp) && nmemb >= 2
    requires HeapFrom(cmp, View(a[..], nmemb, size), 0, nmemb - 1)
    modifies a
    ensures Sorted(cmp, View(a[..], nmemb, size))
    ensures multiset(View(a[..], nmemb, size)) == multiset(old(View(a[..], nmemb, size)))
    ensures a[..][nmemb * size..] == old(a[..])[nmemb * size..]
  {
    ghost var bag, rest := multiset(View(a[..], nmemb, size)), a[..][nmemb * size..];
    var end := nmemb - 1;
    while end > 0
      invariant 0 <= end < nmemb
      invariant HeapFrom(cmp, View(a[..], nmemb, size), 0, end)
      invariant OrderedFrom(cmp, View(a[..], nmemb, size), end + 1)
      invariant multiset(View(a[..], nmemb, size)) == bag && a[..][nmemb * size..] == rest
    {
      ghost var v := View(a[..], nmemb, size);
      TakeGreatest(cmp, v, end);
      SwapRearranges(v, 0, end, end);
      SwapElements(a, nmemb, size, 0, end);
      ghost var w := View(a[..], nmemb, size);
      RearrangedIsPermutation(v, w, end);
      end := end - 1;
      SiftDown(a, nmemb, size, cmp, 0, end);
      RearrangedIsPermutation(w, View(a[..], nmemb, size), end);
      RearrangedStaysOrdered(cmp, w, View(a[..], nmemb, size), end);
    }
    assert forall j: nat :: InOrderAt(cmp, View(a[..], nmemb, size), j, 0);
  }

  /** bsearch on a sorted array finds an element equal to the key exactly if there is one. */
  method BinarySearch(key: Element, a: array<bv8>, nmemb: nat, size: nat, cmp: Comparator) returns (r: int)
    requires Fits(a[..], nmemb, size) && IsOrder(cmp) && Sorted(cmp, View(a[..], nmemb, size))
    ensures r >= 0 ==> r < nmemb && cmp(key, View(a[..], nmemb, size)[r]) == 0
    ensures r < 0 ==> forall i: nat :: i < nmemb ==> cmp(key, View(a[..], nmemb, size)[i]) != 0
  {
    ghost var v := View(a[..], nmemb, size);
    var lo, hi := 0, nmemb;
    while lo < hi
      invariant 0 <= lo <= hi <= nmemb
      invariant forall i: nat :: i < lo ==> cmp(key, v[i]) > 0
      invariant forall i: nat :: hi <= i < nmemb ==> cmp(key, v[i]) < 0
    {
      var mid := lo + (hi - lo) / 2;
      Offset(mid, nmemb, size);
      var x := mid * size;
      assert a[..][x..x + size] == a[x..x + size];
      var c := cmp(key, a[x..x + size]);
      assert c == cmp(key, v[mid]);
      if c == 0 { return mid; }
      Halves(cmp, key, v, mid);
      if c < 0 {
        hi := mid;
      } else {
        lo := mid + 1;
      }
    }
    return -1;
  }

  lemma Halves(cmp: Comparator, key: Element, v: seq<Element>, mid: nat)
    requires IsOrder(cmp) && Sorted(cmp, v) && mid < |v|
    ensures cmp(key, v[mid]) < 0 ==> forall i: nat :: mid <= i < |v| ==> cmp(key, v[i]) < 0
    ensures cmp(key, v[mid]) > 0 ==> forall i: nat :: i <= mid ==> cmp(key, v[i]) > 0
  {
    assert SignsAgree(cmp, key, v[mid]) && SignsAgree(cmp, v[mid], key);
    forall i: nat | i < |v|
      ensures cmp(key, v[mid]) < 0 && mid <= i ==> cmp(key, v[i]) < 0
      ensures cmp(key, v[mid]) > 0 && i <= mid ==> cmp(key, v[i]) > 0
    {
      assert SignsAgree(cmp, key, v[i]) && SignsAgree(cmp, v[i], key);
      assert InOrderAt(cmp, v, mid, i) && InOrderAt(cmp, v, i, mid);
      assert Composes(cmp, v[mid], v[i], key) && Composes(cmp, key, v[i], v[mid]);
    }
  }
}
