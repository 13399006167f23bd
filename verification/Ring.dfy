/** The single-producer single-consumer ring of include/gOS/ring_buffer.h, as a protocol between two
    parties whose steps interleave arbitrarily, and as the class the header defines.

    Each call is cut where another party could run: the check of the shared indices, the access
    to the buffer, and the publication of the own index.  The keyboard driver
    (drivers/keyboard/keyboard.c) runs the same protocol with a capacity of 256. */
module Ring {
  import opened Arith

  // ----- The protocol -----

  datatype Producer = PIdle | PChecked(byte: bv8) | PWrote(byte: bv8)
  datatype Consumer = CIdle | CChecked | CRead(byte: bv8)

  /** accepted and consumed are the bytes of all successful pushes and pops so far, in order. */
  datatype State = State(
    capacity: nat, buffer: seq<bv8>, head: nat, tail: nat,
    producer: Producer, consumer: Consumer,
    accepted: seq<bv8>, consumed: seq<bv8>)

  datatype Action = PushCheck(byte: bv8) | PushStore | PushPublish | PopCheck | PopLoad | PopPublish

  predicate Full(s: State)
    requires s.capacity > 0
  {
    (s.head + 1) % s.capacity == s.tail
  }

  predicate Empty(s: State) {
    s.head == s.tail
  }

  /** One step; an action whose party is elsewhere in its code does nothing. */
  function Step(s: State, a: Action): State
    requires s.capacity > 0 && s.head < |s.buffer| && s.tail < |s.buffer|
  {
    match (a, s.producer, s.consumer)
    case (PushCheck(b), PIdle, _) => if Full(s) then s else s.(producer := PChecked(b))
    case (PushStore, PChecked(b), _) => s.(buffer := s.buffer[s.head := b], producer := PWrote(b))
    case (PushPublish, PWrote(b), _) =>
      s.(head := (s.head + 1) % s.capacity, producer := PIdle, accepted := s.accepted + [b])
    case (PopCheck, _, CIdle) => if Empty(s) then s else s.(consumer := CChecked)
    case (PopLoad, _, CChecked) => s.(consumer := CRead(s.buffer[s.tail]))
    case (PopPublish, _, CRead(b)) =>
      s.(tail := (s.tail + 1) % s.capacity, consumer := CIdle, consumed := s.consumed + [b])
    case _ => s
  }

  function Init(capacity: nat, buffer: seq<bv8>): State {
    State(capacity, buffer, 0, 0, PIdle, CIdle, [], [])
  }

  // ----- Indices modulo the capacity -----

  lemma NextIndex(x: nat, c: nat)
    requires c > 0
    ensures (x % c + 1) % c == (x + 1) % c
  {
    if c > 1 {
      RemainderAdd(x, 1, c);
      Wrapped(x % c + 1, c);
    }
  }

  lemma Wrapped(x: nat, c: nat)
    requires x < 2 * c
    ensures x % c == if x < c then x else x - c
  {
    if x < c {
      RemainderUnique(x, c, 0, x);
    } else {
      RemainderUnique(x, c, 1, x - c);
    }
  }

  /** Positions less than a capacity apart have different indices. */
  lemma IndicesDiffer(x: nat, y: nat, c: nat)
    requires c > 0 && x < y < x + c
    ensures x % c != y % c
  {
    RemainderAdd(x, y - x, c);
  }

  // ----- The invariant -----

  ghost predicate StoredAt(s: State, k: nat)
    requires s.capacity > 0 && k < |s.accepted|
  {
    k % s.capacity < |s.buffer| && s.buffer[k % s.capacity] == s.accepted[k]
  }

  ghost predicate Inv(s: State) {
    && s.capacity > 0 && |s.buffer| == s.capacity
    && s.consumed <= s.accepted && |s.accepted| < |s.consumed| + s.capacity
    && s.head == |s.accepted| % s.capacity && s.tail == |s.consumed| % s.capacity
    && (forall k: nat {:trigger StoredAt(s, k)} :: |s.consumed| <= k < |s.accepted| ==> StoredAt(s, k))
    && (!s.producer.PIdle? ==> |s.accepted| + 1 < |s.consumed| + s.capacity)
    && (s.producer.PWrote? ==> s.buffer[s.head] == s.producer.byte)
    && (!s.consumer.CIdle? ==> |s.consumed| < |s.accepted|)
    && (s.consumer.CRead? ==> s.consumer.byte == s.accepted[|s.consumed|])
  }

  /** The full and empty tests are exact. */
  lemma TestsAreExact(s: State)
    requires Inv(s)
    ensures Full(s) <==> |s.accepted| + 1 == |s.consumed| + s.capacity
    ensures Empty(s) <==> |s.accepted| == |s.consumed|
  {
    var a, c, n := |s.accepted|, |s.consumed|, s.capacity;
    NextIndex(a, n);
    if a > c { IndicesDiffer(c, a, n); }
    if a + 1 < c + n {
      IndicesDiffer(c, a + 1, n);
    } else {
      assert c + n == a + 1;
      assert c + n == (c / n + 1) * n + c % n;
      RemainderUnique(c + n, n, c / n + 1, c % n);
    }
  }

  lemma StepKeepsInv(s: State, a: Action)
    requires Inv(s)
    ensures Inv(Step(s, a))
  {
    var t := Step(s, a);
    TestsAreExact(s);
    NextIndex(|s.accepted|, s.capacity);
    NextIndex(|s.consumed|, s.capacity);
    forall k: nat | |t.consumed| <= k < |t.accepted| ensures StoredAt(t, k) {
      if k < |s.accepted| {
        assert StoredAt(s, k);
        IndicesDiffer(k, |s.accepted|, s.capacity);
      }
    }
    if a == PopLoad && s.consumer == CChecked { assert StoredAt(s, |s.consumed|); }
  }

  // ----- Whole runs -----

  /** The state after any interleaving of the two parties. */
  ghost function Run(s: State, actions: seq<Action>): (t: State)
    requires Inv(s)
    ensures Inv(t) && t.capacity == s.capacity && s.accepted <= t.accepted && s.consumed <= t.consumed
  {
    if actions == [] then s
    else Next(Run(s, actions[..|actions| - 1]), actions[|actions| - 1])
  }

  ghost function Next(s: State, a: Action): (t: State)
    requires Inv(s)
    ensures Inv(t) && t.capacity == s.capacity && s.accepted <= t.accepted && s.consumed <= t.consumed
  {
    StepKeepsInv(s, a);
    Step(s, a)
  }

  /** Whatever the interleaving, what was popped is a prefix of what was pushed, and at most
      capacity - 1 bytes are in flight, all of them intact in the buffer. */
  lemma RunIsFifo(capacity: nat, buffer: seq<bv8>, actions: seq<Action>)
    requires capacity > 0 && |buffer| == capacity
    ensures var t := Run(Init(capacity, buffer), actions);
            && t.consumed <= t.accepted && |t.accepted| - |t.consumed| <= capacity - 1
            && forall k: nat :: |t.consumed| <= k < |t.accepted| ==> t.buffer[k % capacity] == t.accepted[k]
  {
    var t := Run(Init(capacity, buffer), actions);
    forall k: nat | |t.consumed| <= k < |t.accepted| ensures t.buffer[k % capacity] == t.accepted[k] {
      assert StoredAt(t, k);
    }
  }

  /** The bytes the producer tried to push. */
  ghost function Offered(actions: seq<Action>): seq<bv8> {
    if actions == [] then []
    else
      var a := actions[|actions| - 1];
      Offered(actions[..|actions| - 1]) + if a.PushCheck? then [a.byte] else []
  }

  /** s can be obtained from t by leaving out elements. */
  ghost predicate Subsequence(s: seq<bv8>, t: seq<bv8>) {
    if s == [] then true
    else t != [] && (if s[|s| - 1] == t[|t| - 1] then Subsequence(s[..|s| - 1], t[..|t| - 1]) else Subsequence(s, t[..|t| - 1]))
  }

  lemma {:induction false} SubsequenceGrows(s: seq<bv8>, t: seq<bv8>, b: bv8)
    requires Subsequence(s, t)
    ensures Subsequence(s, t + [b]) && Subsequence(s + [b], t + [b])
    decreases |t|, 1
  {
    assert (t + [b])[..|t|] == t && (s + [b])[..|s|] == s;
    if s != [] && s[|s| - 1] == b {
      SubsequenceDrops(s, t);
    }
  }

  lemma {:induction false} SubsequenceDrops(s: seq<bv8>, t: seq<bv8>)
    requires s != [] && Subsequence(s, t)
    ensures Subsequence(s[..|s| - 1], t)
    decreases |t|, 0
  {
    var s', t', b := s[..|s| - 1], t[..|t| - 1], t[|t| - 1];
    assert t == t' + [b];
    if s[|s| - 1] == b {
      SubsequenceGrows(s', t', b);
    } else {
      SubsequenceDrops(s, t');
      SubsequenceGrows(s', t', b);
    }
  }

  /** The bytes accepted, with the one being pushed. */
  ghost function Taken(s: State): seq<bv8> {
    s.accepted + if s.producer.PIdle? then [] else [s.producer.byte]
  }

  lemma StepTakes(s: State, a: Action)
    requires Inv(s)
    ensures Taken(Step(s, a)) == Taken(s) || (a.PushCheck? && Taken(Step(s, a)) == Taken(s) + [a.byte])
  {
    assert a.PushCheck? && s.producer.PIdle? ==> Taken(s) == s.accepted;
  }

  /** Nothing is pushed that was not offered, and in no other order. */
  lemma {:induction false} AcceptedAreOffered(capacity: nat, buffer: seq<bv8>, actions: seq<Action>)
    requires capacity > 0 && |buffer| == capacity
    ensures Subsequence(Taken(Run(Init(capacity, buffer), actions)), Offered(actions))
  {
    if actions != [] {
      var before := actions[..|actions| - 1];
      AcceptedAreOffered(capacity, buffer, before);
      var m, a := Run(Init(capacity, buffer), before), actions[|actions| - 1];
      StepOffers(m, a, Offered(before));
      assert Offered(actions) == if a.PushCheck? then Offered(before) + [a.byte] else Offered(before);
    }
  }

  lemma StepOffers(s: State, a: Action, offered: seq<bv8>)
    requires Inv(s) && Subsequence(Taken(s), offered)
    ensures Subsequence(Taken(Step(s, a)), if a.PushCheck? then offered + [a.byte] else offered)
  {
    StepTakes(s, a);
    if a.PushCheck? { SubsequenceGrows(Taken(s), offered, a.byte); }
  }

  lemma RunStep(s: State, xs: seq<Action>, a: Action)
    requires Inv(s)
    ensures Run(s, xs + [a]) == Step(Run(s, xs), a)
  {
    assert (xs + [a])[..|xs + [a]| - 1] == xs;
  }

  /** The steps of one call made without interruption. */
  function PushSteps(b: bv8): seq<Action> { [PushCheck(b)] + [PushStore] + [PushPublish] }
  function PopSteps(): seq<Action> { [PopCheck] + [PopLoad] + [PopPublish] }

  /** A call from start to end is its three steps. */
  lemma RunThree(s: State, a: Action, b: Action, c: Action)
    requires Inv(s)
    ensures Inv(Step(s, a)) && Inv(Step(Step(s, a), b))
    ensures Run(s, [a] + [b] + [c]) == Step(Step(Step(s, a), b), c)
  {
    assert [] + [a] == [a];
    RunStep(s, [], a);
    RunStep(s, [a], b);
    RunStep(s, [a] + [b], c);
    StepKeepsInv(s, a);
    StepKeepsInv(Step(s, a), b);
  }

  /** The interrupt handler, which the reader cannot interrupt, stores a byte unless capacity - 1
      are waiting, wherever in its own code the reader was stopped. */
  lemma InterruptStores(s: State, b: bv8)
    requires Inv(s) && s.producer.PIdle?
    ensures var t := Run(s, PushSteps(b));
            && t.producer.PIdle? && t.consumer == s.consumer && t.consumed == s.consumed
            && t.accepted == if |s.accepted| - |s.consumed| < s.capacity - 1 then s.accepted + [b] else s.accepted
  {
    RunThree(s, PushCheck(b), PushStore, PushPublish);
    TestsAreExact(s);
  }

  /** A pop run to its end delivers the oldest byte waiting. */
  lemma PopDelivers(s: State)
    requires Inv(s) && s.consumer.CIdle?
    ensures var t := Run(s, PopSteps());
            && t.consumer.CIdle? && t.accepted == s.accepted && t.producer == s.producer
            && t.consumed == if |s.consumed| < |s.accepted| then s.accepted[..|s.consumed| + 1] else s.consumed
  {
    RunThree(s, PopCheck, PopLoad, PopPublish);
    PopTakesOldest(s);
  }

  lemma PopTakesOldest(s: State)
    requires Inv(s) && s.consumer.CIdle?
    ensures Inv(Step(s, PopCheck)) && Inv(Step(Step(s, PopCheck), PopLoad))
    ensures var t := Step(Step(Step(s, PopCheck), PopLoad), PopPublish);
            && t.consumer.CIdle? && t.accepted == s.accepted && t.producer == s.producer
            && t.consumed == if |s.consumed| < |s.accepted| then s.accepted[..|s.consumed| + 1] else s.consumed
  {
    TestsAreExact(s);
    StepKeepsInv(s, PopCheck);
    StepKeepsInv(Step(s, PopCheck), PopLoad);
    var n := |s.consumed|;
    if n < |s.accepted| {
      assert StoredAt(s, n);
      assert s.accepted[..n + 1] == s.accepted[..n] + [s.accepted[n]];
    }
  }

  /** The state after n pops, each run to its end. */
  ghost function Drained(s: State, n: nat): State
    requires Inv(s)
    decreases n
  {
    if n == 0 then s else Drained(Run(s, PopSteps()), n - 1)
  }

  /** Draining delivers exactly what was accepted: nothing is lost, repeated or reordered. */
  lemma {:induction false} DrainDelivers(s: State, n: nat)
    requires Inv(s) && s.consumer.CIdle? && n == |s.accepted| - |s.consumed|
    ensures Drained(s, n).consumed == s.accepted
    decreases n
  {
    if n > 0 {
      PopDelivers(s);
      DrainDelivers(Run(s, PopSteps()), n - 1);
    }
  }

  // ----- The ring as a sequence -----

  /** The array index i places after t. */
  function Index(t: nat, i: nat, c: nat): (r: nat)
    requires t < c && i < c
    ensures r < c && r == (t + i) % c
  {
    Wrapped(t + i, c);
    if t + i < c then t + i else t + i - c
  }

  /** n bytes from index t on, wrapping round. */
  function Window(buffer: seq<bv8>, t: nat, n: nat): (w: seq<bv8>)
    requires t < |buffer| && n <= |buffer|
    ensures |w| == n
  {
    seq(n, i requires 0 <= i < n => buffer[Index(t, i, |buffer|)])
  }

  /** ring_buffer_size */
  function SizeOf(head: nat, tail: nat, capacity: nat): (n: nat)
    requires head < capacity && tail < capacity
    ensures n < capacity && Index(tail, n, capacity) == head
  {
    if head >= tail then head - tail else capacity - tail + head
  }

  /** In every reachable state the window from tail to head holds exactly the bytes in flight. */
  lemma WindowIsOutstanding(s: State)
    requires Inv(s)
    ensures SizeOf(s.head, s.tail, s.capacity) == |s.accepted| - |s.consumed|
    ensures Window(s.buffer, s.tail, |s.accepted| - |s.consumed|) == s.accepted[|s.consumed|..]
  {
    var a, c, n := |s.accepted|, |s.consumed|, s.capacity;
    IndexOfPosition(c, a - c, n);
    forall i: nat | i < a - c ensures s.buffer[Index(s.tail, i, n)] == s.accepted[c + i] {
      IndexOfPosition(c, i, n);
      assert StoredAt(s, c + i);
    }
  }

  lemma IndexOfPosition(x: nat, i: nat, c: nat)
    requires i < c
    ensures Index(x % c, i, c) == (x + i) % c
  {
    RemainderAdd(x, i, c);
  }

  lemma PushExtends(buffer: seq<bv8>, t: nat, n: nat, b: bv8)
    requires t < |buffer| && n < |buffer| - 1
    ensures Window(buffer[Index(t, n, |buffer|) := b], t, n + 1) == Window(buffer, t, n) + [b]
  {
  }

  lemma PopShifts(buffer: seq<bv8>, t: nat, n: nat)
    requires t < |buffer| && 0 < n < |buffer|
    ensures Window(buffer, t, n) == [buffer[t]] + Window(buffer, Index(t, 1, |buffer|), n - 1)
  {
    var c := |buffer|;
    forall i: nat | 1 <= i < n ensures Index(t, i, c) == Index(Index(t, 1, c), i - 1, c) {
    }
  }

  // ----- The class -----

  class RingBuffer {
    var buffer: array<bv8>
    var capacity: nat
    var head: nat
    var tail: nat

    ghost predicate Valid()
      reads this
    {
      buffer.Length == capacity && head < capacity && tail < capacity
    }

    /** The bytes held, oldest first. */
    ghost function Contents(): seq<bv8>
      requires Valid()
      reads this, buffer
    {
      Window(buffer[..], tail, SizeOf(head, tail, capacity))
    }

    constructor (buf: array<bv8>)
      requires buf.Length > 0
      ensures Valid() && buffer == buf && capacity == buf.Length && Contents() == []
    {
      buffer, capacity, head, tail := buf, buf.Length, 0, 0;
    }

    method Clear()
      requires Valid()
      modifies this`head, this`tail
      ensures Valid() && Contents() == []
    {
      head, tail := 0, 0;
    }

    method IsEmpty() returns (e: bool)
      requires Valid()
      ensures e <==> Contents() == []
    {
      e := head == tail;
    }

    method IsFull() returns (f: bool)
      requires Valid()
      ensures f <==> |Contents()| == capacity - 1
    {
      Wrapped(head + 1, capacity);
      f := (head + 1) % capacity == tail;
    }

    method Size() returns (n: nat)
      requires Valid()
      ensures n == |Contents()|
    {
      n := if head >= tail then head - tail else capacity - tail + head;
    }

    /** ring_buffer_push appends, unless capacity - 1 bytes are held. */
    method Push(byte: bv8) returns (ok: bool)
      requires Valid()
      modifies this`head, buffer
      ensures Valid() && ok == (|old(Contents())| < capacity - 1)
      ensures Contents() == if ok then old(Contents()) + [byte] else old(Contents())
    {
      var full := IsFull();
      if full { return false; }
      ghost var n := SizeOf(head, tail, capacity);
      PushExtends(buffer[..], tail, n, byte);
      Wrapped(head + 1, capacity);
      buffer[head] := byte;
      head := (head + 1) % capacity;
      assert buffer[..] == old(buffer[..])[old(head) := byte];
      return true;
    }

    /** ring_buffer_pop removes the oldest byte, unless there is none. */
    method Pop() returns (ok: bool, byte: bv8)
      requires Valid()
      modifies this`tail
      ensures Valid() && ok == (old(Contents()) != [])
      ensures old(Contents()) == if ok then [byte] + Contents() else Contents()
    {
      var empty := IsEmpty();
      if empty { return false, 0; }
      PopShifts(buffer[..], tail, SizeOf(head, tail, capacity));
      byte := buffer[tail];
      tail := (tail + 1) % capacity;
      ok := true;
    }
  }
}
