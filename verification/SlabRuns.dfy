/** Whole runs of a client of a slab cache (lib/slab.c): objects allocated, written and freed
    in any order. */
module SlabRuns {
  import opened Slab
  import Pmm

  /** A client's calls; each names the variable that holds the pointer.  Put writes a word to the
      object held, allocating one first if there is none; Drop frees the object held. */
  datatype Op = Put(slot: nat, w: nat) | Drop(slot: nat)

  /** The word last put into a variable's object. */
  function LastPut(ops: seq<Op>, i: nat): nat {
    if ops == [] then 0
    else var op := ops[|ops| - 1]; if op.Put? && op.slot == i then op.w else LastPut(ops[..|ops| - 1], i)
  }

  ghost predicate SlotOk(live: map<nat, (nat, nat)>, word: Words, slots: seq<nat>, ops: seq<Op>, i: nat)
    requires i < |slots|
  {
    slots[i] != 0 ==> slots[i] in live && slots[i] in word && word[slots[i]] == LastPut(ops, i)
  }

  ghost predicate DifferAt(slots: seq<nat>, i: nat, j: nat)
    requires i < |slots| && j < |slots|
  {
    i != j && slots[i] != 0 ==> slots[i] != slots[j]
  }

  /** The variables hold NULL or pairwise different live objects, which are all there are, and
      each object holds the word last put there. */
  ghost predicate Held(live: map<nat, (nat, nat)>, word: Words, slots: seq<nat>, ops: seq<Op>) {
    && (forall i: nat {:trigger SlotOk(live, word, slots, ops, i)} :: i < |slots| ==> SlotOk(live, word, slots, ops, i))
    && (forall i: nat, j: nat {:trigger DifferAt(slots, i, j)} :: i < |slots| && j < |slots| ==> DifferAt(slots, i, j))
    && (forall o :: o in live ==> o in slots)
  }

  /** Putting w through variable i, which then holds p, or failing to. */
  lemma PutKeeps(live: map<nat, (nat, nat)>, word: Words, slots: seq<nat>, ops: seq<Op>,
                 live': map<nat, (nat, nat)>, word': Words, i: nat, w: nat, p: nat)
    requires Held(live, word, slots, ops) && i < |slots| && 0 !in live
    requires if slots[i] != 0 then p == slots[i] && live' == live else p in live' && p !in live && live' == live[p := live'[p]]
    requires p != 0 && p in word' && word'[p] == w && WordsKept(live - {p}, word, word')
    ensures Held(live', word', slots[i := p], ops + [Put(i, w)])
  {
    var slots', ops' := slots[i := p], ops + [Put(i, w)];
    assert ops'[..|ops|] == ops;
    forall j: nat | j < |slots| ensures SlotOk(live', word', slots', ops', j) {
      assert SlotOk(live, word, slots, ops, j) && DifferAt(slots, j, i);
    }
    forall j: nat, k: nat | j < |slots| && k < |slots| ensures DifferAt(slots', j, k) {
      assert DifferAt(slots, j, k) && SlotOk(live, word, slots, ops, j) && SlotOk(live, word, slots, ops, k);
      assert DifferAt(slots, j, i) && DifferAt(slots, k, i);
    }
    forall o | o in live' ensures o in slots' {
      if o == p { assert slots'[i] == p; } else { var j :| 0 <= j < |slots| && slots[j] == o; assert slots'[j] == o; }
    }
  }

  /** Variable i holding nothing, after a failed allocation or a free. */
  lemma EmptyKeeps(live: map<nat, (nat, nat)>, word: Words, slots: seq<nat>, ops: seq<Op>, word': Words, i: nat, op: Op)
    requires Held(live, word, slots, ops) && i < |slots| && op.slot == i && 0 !in live
    requires WordsKept(live - {slots[i]}, word, word')
    ensures Held(live - {slots[i]}, word', slots[i := 0], ops + [op])
  {
    var live', slots', ops' := live - {slots[i]}, slots[i := 0], ops + [op];
    assert ops'[..|ops|] == ops;
    forall j: nat | j < |slots| ensures SlotOk(live', word', slots', ops', j) {
      assert SlotOk(live, word, slots, ops, j) && DifferAt(slots, j, i);
    }
    forall j: nat, k: nat | j < |slots| && k < |slots| ensures DifferAt(slots', j, k) { assert DifferAt(slots, j, k); }
    forall o | o in live' ensures o in slots' {
      var j :| 0 <= j < |slots| && slots[j] == o;
      assert slots'[j] == o;
    }
  }

  /** A set whose members all occur in a sequence is no larger than it. */
  lemma {:induction false} MembersBound(keys: set<nat>, s: seq<nat>)
    requires forall o :: o in keys ==> o in s
    ensures |keys| <= |s|
  {
    if s == [] {
      assert keys == {};
    } else {
      var last, r := s[|s| - 1], s[..|s| - 1];
      forall o | o in keys - {last} ensures o in r {
        var j :| 0 <= j < |s| && s[j] == o;
        assert r[j] == o;
      }
      MembersBound(keys - {last}, r);
    }
  }

  /** As long as a variable holds nothing there are fewer objects than variables. */
  lemma FewerThanSlots(live: map<nat, (nat, nat)>, word: Words, slots: seq<nat>, ops: seq<Op>, i: nat)
    requires Held(live, word, slots, ops) && i < |slots| && slots[i] == 0 && 0 !in live
    ensures |live| < |slots|
  {
    var keys := live.Keys;
    assert 0 !in keys && |live| == |keys|;
    MembersBound(keys + {0}, slots);
  }

  /** The pages of a cache of objects of the given size, once p0 and now p, for a client that never
      holds more than n: none was taken while an object was free, and each came from the PMM. */
  ghost predicate Thrifty(size: nat, p0: nat, bits0: seq<bool>, p: nat, bits: seq<bool>, n: nat)
    requires size > 0 && |bits0| == |bits| == Pmm.MAX_PAGES
  {
    && p0 <= p && (p > p0 ==> (p - 1) * Count(size) < n)
    && Pmm.Taken(bits) == Pmm.Taken(bits0) + p - p0
  }

  lemma TakingIsThrifty(size: nat, p: nat, bits: seq<bool>, bits': seq<bool>, a: nat, n: nat)
    requires size > 0 && |bits| == |bits'| == Pmm.MAX_PAGES && TookPage(bits, bits', a) && p * Count(size) < n
    ensures Thrifty(size, p, bits, p + 1, bits', n)
  {
    Pmm.TakenUpdate(bits, (a - VBASE) / PAGE, true);
  }

  /** An object for variable i. */
  method AllocFor(cache: Cache, i: nat, w: nat, slots: seq<nat>, ghost ops: seq<Op>) returns (p: nat)
    requires cache.Valid() && i < |slots| && slots[i] == 0 && Held(cache.live, cache.word, slots, ops)
    modifies cache.Repr()
    ensures cache.Valid() && WordsKept(old(cache.live), old(cache.word), cache.word)
    ensures if p == 0 then cache.live == old(cache.live)
            else && p !in old(cache.live) && p in cache.live && cache.live == old(cache.live)[p := cache.live[p]]
                 && p in cache.word && cache.word[p] == w
    ensures Thrifty(cache.size, old(cache.Pages()), old(cache.pmm.Bits()), cache.Pages(), cache.pmm.Bits(), |slots|)
  {
    cache.ZeroIsNotLive();
    FewerThanSlots(cache.live, cache.word, slots, ops, i);
    ghost var pages, bits := cache.Pages(), cache.pmm.Bits();
    p := cache.Alloc(w);
    if cache.Pages() != pages {
      TakingIsThrifty(cache.size, pages, bits, cache.pmm.Bits(), cache.live[p].0, |slots|);
    }
  }

  method DoPut(cache: Cache, i: nat, w: nat, slots: seq<nat>, ghost ops: seq<Op>) returns (slots': seq<nat>)
    requires cache.Valid() && i < |slots| && Held(cache.live, cache.word, slots, ops)
    modifies cache.Repr()
    ensures cache.Valid() && |slots'| == |slots| && Held(cache.live, cache.word, slots', ops + [Put(i, w)])
    ensures Thrifty(cache.size, old(cache.Pages()), old(cache.pmm.Bits()), cache.Pages(), cache.pmm.Bits(), |slots|)
  {
    cache.ZeroIsNotLive();
    ghost var live, word := cache.live, cache.word;
    assert SlotOk(live, word, slots, ops, i);
    var p := slots[i];
    if p == 0 {
      p := AllocFor(cache, i, w, slots, ops);
    } else {
      cache.Scribble(p, w);
    }
    slots' := slots[i := p];
    if p == 0 {
      assert live - {slots[i]} == live;
      EmptyKeeps(live, word, slots, ops, cache.word, i, Put(i, w));
    } else {
      PutKeeps(live, word, slots, ops, cache.live, cache.word, i, w, p);
    }
  }

  method DoDrop(cache: Cache, i: nat, slots: seq<nat>, ghost ops: seq<Op>) returns (slots': seq<nat>)
    requires cache.Valid() && i < |slots| && Held(cache.live, cache.word, slots, ops)
    modifies cache.Repr()
    ensures cache.Valid() && |slots'| == |slots| && Held(cache.live, cache.word, slots', ops + [Drop(i)])
    ensures cache.Pages() == old(cache.Pages()) && cache.pmm.Bits() == old(cache.pmm.Bits())
  {
    cache.ZeroIsNotLive();
    ghost var live, word := cache.live, cache.word;
    assert SlotOk(live, word, slots, ops, i);
    cache.Free(slots[i]);
    EmptyKeeps(live, word, slots, ops, cache.word, i, Drop(i));
    slots' := slots[i := 0];
  }

  /** Whatever a client does with the objects it holds, they stay live, apart from each other and
      the only ones in use, and each still holds the word last put there.  For n variables the cache
      takes no page beyond those that n objects need. */
  method Execute(cache: Cache, ops: seq<Op>, n: nat) returns (slots: seq<nat>)
    requires cache.Valid() && cache.live == map[] && forall k :: 0 <= k < |ops| ==> ops[k].slot < n
    modifies cache.Repr()
    ensures cache.Valid() && |slots| == n && Held(cache.live, cache.word, slots, ops)
    ensures Thrifty(cache.size, old(cache.Pages()), old(cache.pmm.Bits()), cache.Pages(), cache.pmm.Bits(), n)
    ensures forall i, j :: 0 <= i < j < n && slots[i] != 0 && slots[j] != 0 ==>
      slots[i] + cache.size <= slots[j] || slots[j] + cache.size <= slots[i]
  {
    slots := seq(n, i => 0);
    for k := 0 to |ops|
      invariant cache.Valid() && |slots| == n && Held(cache.live, cache.word, slots, ops[..k])
      invariant Thrifty(cache.size, old(cache.Pages()), old(cache.pmm.Bits()), cache.Pages(), cache.pmm.Bits(), n)
    {
      assert ops[..k + 1] == ops[..k] + [ops[k]];
      match ops[k] {
        case Put(i, w) => slots := DoPut(cache, i, w, slots, ops[..k]);
        case Drop(i) => slots := DoDrop(cache, i, slots, ops[..k]);
      }
    }
    assert ops[..|ops|] == ops;
    forall i: nat, j: nat | i < j < n && slots[i] != 0 && slots[j] != 0
      ensures slots[i] + cache.size <= slots[j] || slots[j] + cache.size <= slots[i] {
      assert SlotOk(cache.live, cache.word, slots, ops, i) && SlotOk(cache.live, cache.word, slots, ops, j);
      assert DifferAt(slots, i, j);
      LiveApart(cache.slabs, cache.word, cache.stack, cache.pmm.Bits(), cache.size, cache.live, slots[i], slots[j]);
    }
  }
}
