/** The round-robin scheduler and process table (proc/scheduler.c, proc/proc.c).

    The events of a run are given as functions on an abstract state whose ready queue is a sequence
    of process-table slots.  The class Kernel runs the same events in place on the table and on
    the queue's next/prev links, and is proved to compute those functions.  Slot 0 is the idle
    process.  Stack allocation and the timer are parameters. */
module Scheduler {

  const MAX_PROCESSES: nat := 256
  const PID_LIMIT: nat := 0x1_0000_0000

  datatype Status = Unused | Ready | Running | Blocked | Zombie
  datatype Proc = Proc(pid: nat, status: Status, wake: nat)
  datatype Sched = Sched(procs: seq<Proc>, queue: seq<nat>, current: nat, ticks: nat, nextPid: nat)

  /** Create carries whether the stack allocation succeeds, Sleep the computed wake time. */
  datatype Event = Create(stack: bool) | Sleep(wake: nat) | Exit | Tick | Yield

  // ----- The queue -----

  ghost predicate Differ(q: seq<nat>, i: nat, j: nat) {
    i < j < |q| ==> q[i] != q[j]
  }

  ghost predicate Distinct(q: seq<nat>) {
    forall i: nat, j: nat {:trigger Differ(q, i, j)} :: Differ(q, i, j)
  }

  lemma DistinctJoin(q: seq<nat>, r: seq<nat>)
    requires Distinct(q) && Distinct(r) && forall x :: x in q ==> x !in r
    ensures Distinct(q + r)
  {
    forall i: nat, j: nat ensures Differ(q + r, i, j) {
      if i < j < |q + r| {
        if j < |q| {
          assert Differ(q, i, j);
        } else if i >= |q| {
          assert Differ(r, i - |q|, j - |q|);
        } else {
          assert q[i] in q && r[j - |q|] in r;
        }
      }
    }
  }

  lemma DistinctLess(q: seq<nat>, k: nat)
    requires Distinct(q) && k < |q|
    ensures Distinct(q[..k] + q[k + 1..]) && q[k] !in q[..k] + q[k + 1..]
  {
    var q' := q[..k] + q[k + 1..];
    forall i: nat, j: nat ensures Differ(q', i, j) {
      assert Differ(q, if i < k then i else i + 1, if j < k then j else j + 1);
    }
    forall i: nat | i < |q'| ensures q'[i] != q[k] {
      assert Differ(q, i, k) && Differ(q, k, i + 1);
    }
  }

  predicate Below(q: seq<nat>, n: nat) {
    forall k :: 0 <= k < |q| ==> q[k] < n
  }

  function Without(q: seq<nat>, i: nat): seq<nat> {
    if q == [] then [] else if q[0] == i then q[1..] else [q[0]] + Without(q[1..], i)
  }

  lemma TailSlices(q: seq<nat>, k: nat)
    requires 0 < k < |q|
    ensures q[..k] == [q[0]] + q[1..][..k - 1] && q[1..][k - 1] == q[k] && q[1..][k..] == q[k + 1..]
  {
    forall i | 0 <= i < k ensures q[..k][i] == ([q[0]] + q[1..][..k - 1])[i] { }
  }

  lemma {:induction false} WithoutFirst(q: seq<nat>, k: nat)
    requires k < |q| && q[k] !in q[..k]
    ensures Without(q, q[k]) == q[..k] + q[k + 1..]
  {
    if k > 0 {
      var r := q[1..];
      TailSlices(q, k);
      assert q[..k][0] == q[0] && q[0] in q[..k];
      forall x | x in r[..k - 1] ensures x in q[..k] { }
      WithoutFirst(r, k - 1);
    }
  }

  lemma WithoutAt(q: seq<nat>, k: nat)
    requires k < |q| && Distinct(q)
    ensures Without(q, q[k]) == q[..k] + q[k + 1..]
  {
    DistinctLess(q, k);
    assert forall x :: x in q[..k] ==> x in q[..k] + q[k + 1..];
    WithoutFirst(q, k);
  }

  lemma WithoutGone(q: seq<nat>, i: nat)
    requires Distinct(q) && i in q
    ensures i !in Without(q, i)
  {
    var k: nat :| k < |q| && q[k] == i;
    WithoutAt(q, k);
    DistinctLess(q, k);
  }

  /** The queue from its first ready process on. */
  function FromReady(procs: seq<Proc>, q: seq<nat>): (r: seq<nat>)
    requires Below(q, |procs|)
    ensures Below(r, |procs|)
  {
    if q == [] || procs[q[0]].status == Ready then q else FromReady(procs, q[1..])
  }

  // ----- Events -----

  predicate InRange(s: Sched) {
    0 < |s.procs| && s.current < |s.procs| && Below(s.queue, |s.procs|)
  }

  function SetStatus(procs: seq<Proc>, i: nat, status: Status): seq<Proc>
    requires i < |procs|
  {
    procs[i := procs[i].(status := status)]
  }

  /** scheduler_remove of a process that is not queued empties the queue. */
  function Requeued(q: seq<nat>, i: nat): seq<nat> {
    (if i in q then Without(q, i) else []) + [i]
  }

  lemma {:induction false} WithoutRange(q: seq<nat>, i: nat, n: nat)
    requires Below(q, n)
    ensures Below(Without(q, i), n)
  {
    if q != [] && q[0] != i { WithoutRange(q[1..], i, n); }
  }

  /** The current process, if still running, goes to the back. */
  function Preempted(s: Sched): (t: Sched)
    requires InRange(s)
    ensures InRange(t)
  {
    if s.procs[s.current].status == Running then
      WithoutRange(s.queue, s.current, |s.procs|);
      s.(procs := SetStatus(s.procs, s.current, Ready), queue := Requeued(s.queue, s.current))
    else s
  }

  /** The first ready process, or idle, runs. */
  function Dispatched(s: Sched): (t: Sched)
    requires InRange(s)
    ensures InRange(t)
  {
    var q := FromReady(s.procs, s.queue);
    var next := if q == [] then 0 else q[0];
    s.(procs := SetStatus(s.procs, next, Running), queue := q, current := next)
  }

  function Yielded(s: Sched): (t: Sched)
    requires InRange(s)
    ensures InRange(t)
  {
    if s.queue == [] then s else Dispatched(Preempted(s))
  }

  predicate Due(p: Proc, ticks: nat) {
    p.status == Blocked && 0 < p.wake <= ticks
  }

  /** The slots below n that are due, in table order. */
  function DueSlots(procs: seq<Proc>, ticks: nat, n: nat): (r: seq<nat>)
    requires n <= |procs|
    ensures Below(r, n) && forall k :: 0 <= k < |r| ==> 0 < r[k]
  {
    if n == 0 then []
    else DueSlots(procs, ticks, n - 1) + if n > 1 && Due(procs[n - 1], ticks) then [n - 1] else []
  }

  function Awake(p: Proc, i: nat, ticks: nat, n: nat): Proc {
    if 0 < i < n && Due(p, ticks) then p.(status := Ready, wake := 0) else p
  }

  function Awakened(procs: seq<Proc>, ticks: nat, n: nat): seq<Proc> {
    seq(|procs|, i requires 0 <= i < |procs| => Awake(procs[i], i, ticks, n))
  }

  function Woken(s: Sched): (t: Sched)
    requires InRange(s)
    ensures InRange(t)
  {
    var n := |s.procs|;
    s.(procs := Awakened(s.procs, s.ticks, n), queue := s.queue + DueSlots(s.procs, s.ticks, n))
  }

  /** The state that an event other than a creation passes to scheduler_yield when a process other
      than idle runs. */
  function Handed(s: Sched, e: Event): (t: Sched)
    requires InRange(s)
    ensures InRange(t)
  {
    var p := s.procs[s.current];
    match e
    case Sleep(wake) => s.(procs := s.procs[s.current := Proc(p.pid, Blocked, wake)])
    case Exit => s.(procs := SetStatus(s.procs, s.current, Zombie))
    case Tick => Woken(s.(ticks := s.ticks + 1))
    case _ => s
  }

  /** The lowest unused slot from i on. */
  function FreeSlot(procs: seq<Proc>, i: nat): (k: nat)
    requires i <= |procs|
    ensures i <= k <= |procs| && (k < |procs| ==> procs[k].status == Unused)
    ensures forall j :: i <= j < k ==> procs[j].status != Unused
    decreases |procs| - i
  {
    if i == |procs| || procs[i].status == Unused then i else FreeSlot(procs, i + 1)
  }

  function Created(s: Sched, stack: bool): (t: Sched)
    requires InRange(s)
    ensures InRange(t)
  {
    var k := FreeSlot(s.procs, 1);
    if k == |s.procs| then s
    else
      var t := s.(nextPid := (s.nextPid + 1) % PID_LIMIT);
      if stack then t.(procs := s.procs[k := Proc(s.nextPid, Ready, 0)], queue := s.queue + [k])
      else t.(procs := s.procs[k := Proc(s.nextPid, Unused, s.procs[k].wake)])
  }

  function Next(s: Sched, e: Event): (t: Sched)
    requires InRange(s)
    ensures InRange(t)
  {
    match e
    case Create(stack) => Created(s, stack)
    case Yield => Yielded(s)
    case Tick =>
      var w := Handed(s, e);
      if w.queue != [] && w.procs[w.current].pid != 0 then Yielded(w) else w
    case _ => if s.procs[s.current].pid == 0 then s else Yielded(Handed(s, e))
  }

  // ----- The invariant -----

  /** The queue holds exactly the ready processes other than idle, and the current one. */
  ghost predicate SlotOk(s: Sched, i: nat)
    requires i < |s.procs|
  {
    var p := s.procs[i];
    && (i in s.queue <==> i > 0 && (p.status == Ready || i == s.current))
    && (p.status == Running ==> i == s.current)
    && (p.status != Unused ==> (p.pid == 0 <==> i == 0))
  }

  /** The invariant up to the current process having just stopped running. */
  ghost predicate Stopped(s: Sched) {
    && InRange(s) && Distinct(s.queue)
    && (forall i: nat {:trigger SlotOk(s, i)} :: i < |s.procs| ==> SlotOk(s, i))
    && s.procs[s.current].status != Unused
    && (s.current > 0 ==> s.procs[0].status == Ready && s.queue != [] && s.queue[0] == s.current && s.procs[s.current].status != Ready)
    && (s.current == 0 ==> s.procs[0].status == Ready || s.procs[0].status == Running)
  }

  ghost predicate Inv(s: Sched) {
    Stopped(s) && (s.current > 0 ==> s.procs[s.current].status == Running)
  }

  /** Idle yields while running with processes waiting. */
  predicate IdleYields(s: Sched)
    requires InRange(s)
  {
    s.current == 0 && s.procs[0].status == Running && s.queue != []
  }

  function Initial(): Sched {
    Sched(seq(MAX_PROCESSES, i => Proc(0, if i == 0 then Ready else Unused, 0)), [], 0, 0, 1)
  }

  lemma InitialInv()
    ensures Inv(Initial()) && PidsUnique(Initial())
  {
    var s := Initial();
    forall i: nat | i < |s.procs| ensures SlotOk(s, i) {
    }
  }

  /** The state after a yield, in closed form. */
  function Turned(s: Sched): Sched
    requires InRange(s) && s.queue != []
  {
    var c := s.current;
    var running := s.procs[c].status == Running;
    var procs := if running then SetStatus(s.procs, c, Ready) else s.procs;
    var q := if c == 0 then s.queue else s.queue[1..] + if running then [c] else [];
    var next := if q == [] || q[0] >= |procs| then 0 else q[0];
    s.(procs := SetStatus(procs, next, Running), queue := q, current := next)
  }

  lemma YieldIsTurn(s: Sched)
    requires Stopped(s) && !IdleYields(s) && s.queue != []
    ensures Yielded(s) == Turned(s)
  {
    var p := Preempted(s);
    var rest := s.queue[1..];
    assert SlotOk(s, s.current);
    assert SlotOk(s, s.queue[0]);
    if s.current > 0 && rest != [] {
      assert rest[0] == s.queue[1] && Differ(s.queue, 0, 1);
      assert SlotOk(s, s.queue[1]);
    }
    assert FromReady(p.procs, p.queue) == Turned(s).queue;
  }

  ghost predicate Eligible(s: Sched, q: seq<nat>, i: nat)
    requires i < |s.procs|
  {
    i in q <==> i > 0 && (s.procs[i].status == Ready || s.procs[i].status == Running)
  }

  lemma TurnDistinct(s: Sched)
    requires Stopped(s) && s.queue != []
    ensures Distinct(Turned(s).queue)
  {
    var c, rest := s.current, s.queue[1..];
    if c > 0 {
      DistinctLess(s.queue, 0);
      assert s.queue[..0] + rest == rest;
      DistinctJoin(rest, [c]);
      assert rest + [] == rest;
    }
  }

  lemma TurnMember(s: Sched, i: nat)
    requires Stopped(s) && s.queue != []
    ensures var c := s.current;
            i in Turned(s).queue <==>
              if c == 0 then i in s.queue
              else (i in s.queue && i != c) || (i == c && s.procs[c].status == Running)
  {
    var c, rest := s.current, s.queue[1..];
    if c > 0 {
      DistinctLess(s.queue, 0);
      assert s.queue[..0] + rest == rest && s.queue == [c] + rest;
      assert c !in rest;
    }
  }

  lemma TurnQueue(s: Sched)
    requires Stopped(s) && !IdleYields(s) && s.queue != []
    ensures var q := Turned(s).queue;
            && Distinct(q) && Below(q, |s.procs|)
            && forall i: nat {:trigger Eligible(s, q, i)} :: i < |s.procs| ==> Eligible(s, q, i)
  {
    TurnDistinct(s);
    var q := Turned(s).queue;
    assert SlotOk(s, s.current) && SlotOk(s, 0);
    forall i: nat | i < |s.procs| ensures Eligible(s, q, i) {
      TurnMember(s, i);
      assert SlotOk(s, i);
    }
  }

  /** The process switched to was ready or running. */
  lemma TurnTarget(s: Sched)
    requires Stopped(s) && !IdleYields(s) && s.queue != []
    ensures var t := Turned(s);
            && (t.queue == [] ==> t.current == 0)
            && (t.queue != [] ==> t.current == t.queue[0] > 0 && Eligible(s, t.queue, t.current))
  {
    TurnQueue(s);
    var q := Turned(s).queue;
    if q != [] { assert q[0] in q && Eligible(s, q, q[0]); }
  }

  lemma TurnSlot(s: Sched, i: nat)
    requires Stopped(s) && !IdleYields(s) && s.queue != [] && i < |s.procs|
    ensures SlotOk(Turned(s), i)
  {
    TurnQueue(s);
    TurnTarget(s);
    assert SlotOk(s, s.current) && SlotOk(s, 0);
    assert SlotOk(s, i) && Eligible(s, Turned(s).queue, i);
  }

  lemma TurnKeepsInv(s: Sched)
    requires Stopped(s) && !IdleYields(s) && s.queue != []
    ensures Inv(Turned(s))
  {
    var t := Turned(s);
    TurnQueue(s);
    TurnTarget(s);
    assert SlotOk(s, s.current) && SlotOk(s, 0);
    forall i: nat | i < |t.procs| ensures SlotOk(t, i) {
      TurnSlot(s, i);
    }
  }

  lemma YieldKeepsInv(s: Sched)
    requires Stopped(s) && !IdleYields(s)
    ensures Inv(Yielded(s))
  {
    if s.queue != [] {
      YieldIsTurn(s);
      TurnKeepsInv(s);
    }
  }

  /** Yielding keeps the invariant exactly when it is not idle that yields while running with
      processes waiting: those processes would drop out of the queue. */
  lemma YieldKeepsInvIff(s: Sched)
    requires Inv(s)
    ensures Inv(Yielded(s)) <==> !IdleYields(s)
  {
    if IdleYields(s) {
      var t := Yielded(s);
      assert SlotOk(s, 0);
      assert t.queue == [0];
      assert !SlotOk(t, 0);
    } else {
      YieldKeepsInv(s);
    }
  }

  lemma {:induction false} DueSlotsAre(procs: seq<Proc>, ticks: nat, n: nat)
    requires n <= |procs|
    ensures Distinct(DueSlots(procs, ticks, n))
    ensures forall i: nat :: i in DueSlots(procs, ticks, n) <==> 0 < i < n && Due(procs[i], ticks)
    ensures forall i: nat, j: nat :: i < j < |DueSlots(procs, ticks, n)| ==> DueSlots(procs, ticks, n)[i] < DueSlots(procs, ticks, n)[j]
  {
    if n > 0 {
      DueSlotsAre(procs, ticks, n - 1);
      var r := DueSlots(procs, ticks, n - 1);
      if n > 1 && Due(procs[n - 1], ticks) {
        DistinctJoin(r, [n - 1]);
      } else {
        assert r + [] == r;
      }
    }
  }

  lemma WakingStarts(procs: seq<Proc>, ticks: nat)
    requires |procs| >= 1
    ensures Awakened(procs, ticks, 1) == procs && DueSlots(procs, ticks, 1) == []
  {
    assert DueSlots(procs, ticks, 0) == [];
  }

  ghost predicate SleepersOut(procs: seq<Proc>, q: seq<nat>, ticks: nat) {
    forall i: nat {:trigger Due(procs[i], ticks)} :: i < |procs| && Due(procs[i], ticks) ==> i !in q
  }

  /** One round of the loop over the table. */
  lemma WakingStep(procs: seq<Proc>, q: seq<nat>, ticks: nat, i: nat)
    requires 1 <= i < |procs| && SleepersOut(procs, q, ticks)
    ensures Awakened(procs, ticks, i)[i] == procs[i]
    ensures Awakened(procs, ticks, i + 1) == Awakened(procs, ticks, i)[i := Awake(procs[i], 1, ticks, 2)]
    ensures DueSlots(procs, ticks, i + 1) == DueSlots(procs, ticks, i) + if Due(procs[i], ticks) then [i] else []
    ensures Due(procs[i], ticks) ==> i !in q + DueSlots(procs, ticks, i)
  {
    DueSlotsAre(procs, ticks, i);
  }

  lemma WakingKeepsInv(s: Sched)
    requires Inv(s)
    ensures Inv(Woken(s))
  {
    var t := Woken(s);
    var due := DueSlots(s.procs, s.ticks, |s.procs|);
    DueSlotsAre(s.procs, s.ticks, |s.procs|);
    forall i: nat | i < |t.procs| ensures SlotOk(t, i) {
      assert SlotOk(s, i);
    }
    forall k: nat | k < |s.queue| ensures s.queue[k] !in due {
      assert SlotOk(s, s.queue[k]);
    }
    DistinctJoin(s.queue, due);
    assert SlotOk(s, s.current) && SlotOk(s, 0);
  }

  lemma TicksKeepInv(s: Sched, ticks: nat)
    requires Inv(s)
    ensures Inv(s.(ticks := ticks))
  {
    var u := s.(ticks := ticks);
    forall i: nat | i < |u.procs| ensures SlotOk(u, i) {
      assert SlotOk(s, i);
    }
  }

  lemma TickedInv(s: Sched)
    requires Inv(s)
    ensures Inv(Woken(s.(ticks := s.ticks + 1)))
  {
    TicksKeepInv(s, s.ticks + 1);
    WakingKeepsInv(s.(ticks := s.ticks + 1));
  }

  /** Pids count up from 1, so a new process is not taken for idle until the counter wraps. */
  lemma CreateKeepsInv(s: Sched, stack: bool)
    requires Inv(s) && s.nextPid != 0
    ensures Inv(Created(s, stack))
  {
    var t := Created(s, stack);
    var k := FreeSlot(s.procs, 1);
    forall i: nat | i < |t.procs| ensures SlotOk(t, i) {
      assert SlotOk(s, i);
    }
    if k < |s.procs| {
      assert SlotOk(s, k);
      DistinctJoin(s.queue, [k]);
      assert SlotOk(s, s.current);
    }
  }

  lemma StopKeeps(s: Sched, p: Proc)
    requires Inv(s) && s.current > 0 && p.pid == s.procs[s.current].pid && (p.status == Blocked || p.status == Zombie)
    ensures Stopped(s.(procs := s.procs[s.current := p]))
  {
    var t := s.(procs := s.procs[s.current := p]);
    forall i: nat | i < |t.procs| ensures SlotOk(t, i) {
      assert SlotOk(s, i);
    }
  }

  // ----- Whole runs -----

  /** Idle does not yield while running with processes waiting, and the 32-bit pid counter has not
      wrapped to 0. */
  predicate Allowed(s: Sched, e: Event)
    requires InRange(s)
  {
    match e
    case Yield => !IdleYields(s)
    case Create(_) => s.nextPid != 0
    case _ => true
  }

  lemma HandedStopped(s: Sched, e: Event)
    requires Inv(s) && s.current > 0 && !e.Create?
    ensures Stopped(Handed(s, e)) && Handed(s, e).current == s.current && s.queue <= Handed(s, e).queue
  {
    var p := s.procs[s.current];
    match e
    case Tick => TickedInv(s);
    case Exit => StopKeeps(s, p.(status := Zombie));
    case Sleep(wake) => StopKeeps(s, Proc(p.pid, Blocked, wake));
    case Yield =>
  }

  lemma EventIsYield(s: Sched, e: Event)
    requires Inv(s) && s.current > 0 && !e.Create?
    ensures Next(s, e) == Yielded(Handed(s, e))
  {
    HandedStopped(s, e);
    assert SlotOk(s, s.current);
    assert SlotOk(Handed(s, e), s.current);
  }

  lemma EventKeepsInv(s: Sched, e: Event)
    requires Inv(s) && Allowed(s, e)
    ensures Inv(Next(s, e))
  {
    assert SlotOk(s, s.current);
    if e.Create? {
      CreateKeepsInv(s, e.stack);
    } else if s.current > 0 {
      HandedStopped(s, e);
      EventIsYield(s, e);
      YieldKeepsInv(Handed(s, e));
    } else if e == Tick {
      TickedInv(s);
    } else if e == Yield {
      YieldKeepsInv(s);
    }
  }

  ghost function Run(s: Sched, events: seq<Event>): (t: Sched)
    requires InRange(s)
    ensures InRange(t)
    decreases |events|
  {
    if events == [] then s else Run(Next(s, events[0]), events[1..])
  }

  ghost predicate AllowedRun(s: Sched, events: seq<Event>)
    requires InRange(s)
    decreases |events|
  {
    events != [] ==> Allowed(s, events[0]) && AllowedRun(Next(s, events[0]), events[1..])
  }

  lemma {:induction false} RunKeepsInv(s: Sched, events: seq<Event>)
    requires Inv(s) && AllowedRun(s, events)
    ensures Inv(Run(s, events))
    decreases |events|
  {
    if events != [] {
      EventKeepsInv(s, events[0]);
      RunKeepsInv(Next(s, events[0]), events[1..]);
    }
  }

  /** From start-up on, the ready queue has no duplicates and holds exactly the ready processes
      other than idle, with the running one, if it is not idle, at its head. */
  lemma QueueIsReadySet(events: seq<Event>)
    requires AllowedRun(Initial(), events)
    ensures var t := Run(Initial(), events);
            && Distinct(t.queue)
            && (forall i: nat :: i < |t.procs| ==>
                  (i in t.queue <==> i > 0 && (t.procs[i].status == Ready || t.procs[i].status == Running)))
            && (t.current > 0 ==> t.procs[t.current].status == Running && t.queue != [] && t.queue[0] == t.current)
  {
    InitialInv();
    RunKeepsInv(Initial(), events);
    var t := Run(Initial(), events);
    forall i: nat | i < |t.procs|
      ensures i in t.queue <==> i > 0 && (t.procs[i].status == Ready || t.procs[i].status == Running)
    {
      assert SlotOk(t, i);
    }
  }

  // ----- Process identifiers -----

  ghost predicate SameName(s: Sched, t: Sched, i: nat)
    requires i < |s.procs| && i < |t.procs|
  {
    t.procs[i].pid == s.procs[i].pid && (t.procs[i].status == Unused <==> s.procs[i].status == Unused)
  }

  /** Both states have the same processes under the same pids. */
  ghost predicate SameNames(s: Sched, t: Sched) {
    && |t.procs| == |s.procs| && t.nextPid == s.nextPid
    && forall i: nat {:trigger SameName(s, t, i)} :: i < |s.procs| ==> SameName(s, t, i)
  }

  lemma TurnKeepsNames(s: Sched)
    requires Stopped(s) && !IdleYields(s) && s.queue != []
    ensures SameNames(s, Turned(s))
  {
    TurnTarget(s);
    assert SlotOk(s, s.current);
  }

  lemma EventKeepsNames(s: Sched, e: Event)
    requires Inv(s) && Allowed(s, e) && !e.Create?
    ensures SameNames(s, Next(s, e))
  {
    assert SlotOk(s, s.current);
    var h := if s.current > 0 || e == Tick then Handed(s, e) else s;
    forall i: nat | i < |s.procs| ensures SameName(s, h, i) {
    }
    if s.current > 0 {
      HandedStopped(s, e);
      EventIsYield(s, e);
    } else if e == Tick {
      TickedInv(s);
      assert SlotOk(h, h.current);
    }
    if h.queue != [] && (s.current > 0 || e == Yield) {
      YieldIsTurn(h);
      TurnKeepsNames(h);
      forall i: nat | i < |s.procs| ensures SameName(s, Turned(h), i) {
        assert SameName(s, h, i) && SameName(h, Turned(h), i);
      }
    }
  }

  ghost predicate NamedOk(s: Sched, i: nat)
    requires i < |s.procs|
  {
    i > 0 && s.procs[i].status != Unused ==> 0 < s.procs[i].pid < if s.nextPid == 0 then PID_LIMIT else s.nextPid
  }

  ghost predicate NamesDiffer(s: Sched, i: nat, j: nat)
    requires i < |s.procs| && j < |s.procs|
  {
    i != j && s.procs[i].status != Unused && s.procs[j].status != Unused ==> s.procs[i].pid != s.procs[j].pid
  }

  /** No two processes share a pid. */
  ghost predicate PidsUnique(s: Sched) {
    && s.nextPid < PID_LIMIT
    && (forall i: nat {:trigger NamedOk(s, i)} :: i < |s.procs| ==> NamedOk(s, i))
    && (forall i: nat, j: nat {:trigger NamesDiffer(s, i, j)} :: i < |s.procs| && j < |s.procs| ==> NamesDiffer(s, i, j))
  }

  lemma SameNamesUnique(s: Sched, t: Sched)
    requires SameNames(s, t) && PidsUnique(s)
    ensures PidsUnique(t)
  {
    forall i: nat | i < |t.procs| ensures NamedOk(t, i) {
      assert SameName(s, t, i) && NamedOk(s, i);
    }
    forall i: nat, j: nat | i < |t.procs| && j < |t.procs| ensures NamesDiffer(t, i, j) {
      assert SameName(s, t, i) && SameName(s, t, j) && NamesDiffer(s, i, j);
    }
  }

  lemma CreateNamesUnique(s: Sched, stack: bool)
    requires Inv(s) && PidsUnique(s) && s.nextPid != 0
    ensures PidsUnique(Created(s, stack))
  {
    var t := Created(s, stack);
    var k := FreeSlot(s.procs, 1);
    assert SlotOk(s, 0);
    forall i: nat | i < |t.procs| ensures NamedOk(t, i) {
      assert NamedOk(s, i);
    }
    forall i: nat, j: nat | i < |t.procs| && j < |t.procs| ensures NamesDiffer(t, i, j) {
      assert NamesDiffer(s, i, j) && NamedOk(s, i) && NamedOk(s, j) && SlotOk(s, i) && SlotOk(s, j);
    }
  }

  /** Over every run from start-up, no two processes share a pid. */
  lemma {:induction false} RunKeepsPids(s: Sched, events: seq<Event>)
    requires Inv(s) && PidsUnique(s) && AllowedRun(s, events)
    ensures PidsUnique(Run(s, events))
    decreases |events|
  {
    if events != [] {
      var e := events[0];
      EventKeepsInv(s, e);
      if e.Create? {
        CreateNamesUnique(s, e.stack);
      } else {
        EventKeepsNames(s, e);
        SameNamesUnique(s, Next(s, e));
      }
      RunKeepsPids(Next(s, e), events[1..]);
    }
  }

  // ----- Processes that have stopped -----

  /** Slot i holds p, a process that sleeps or has exited. */
  ghost predicate Resting(s: Sched, i: nat, p: Proc) {
    0 < i < |s.procs| && s.procs[i] == p && (p.status == Blocked || p.status == Zombie)
  }

  ghost predicate Asleep(s: Sched, i: nat, wake: nat) {
    0 < i < |s.procs| && s.procs[i].status == Blocked && s.procs[i].wake == wake
  }

  lemma RestingNotQueued(s: Sched, i: nat, p: Proc)
    requires Inv(s) && Resting(s, i, p)
    ensures i !in s.queue && i != s.current
  {
    assert SlotOk(s, i);
  }

  lemma YieldLeavesResting(s: Sched, i: nat, p: Proc)
    requires Stopped(s) && !IdleYields(s) && Resting(s, i, p) && i != s.current
    ensures Resting(Yielded(s), i, p)
  {
    if s.queue != [] {
      YieldIsTurn(s);
      TurnTarget(s);
    }
  }

  /** Only a tick that reaches its wake time disturbs a process that has stopped. */
  lemma EventLeavesResting(s: Sched, e: Event, i: nat, p: Proc)
    requires Inv(s) && Allowed(s, e) && Resting(s, i, p) && (e == Tick ==> !Due(p, s.ticks + 1))
    ensures Resting(Next(s, e), i, p)
  {
    RestingNotQueued(s, i, p);
    assert SlotOk(s, s.current);
    if s.current > 0 && !e.Create? {
      HandedStopped(s, e);
      EventIsYield(s, e);
      YieldLeavesResting(Handed(s, e), i, p);
    } else if e == Yield {
      YieldLeavesResting(s, i, p);
    }
  }

  /** A process that sleeps or exits is stopped as it asked, and the next one in the queue runs, or
      idle; nothing else changes. */
  lemma StopHandsOver(s: Sched, e: Event)
    requires Inv(s) && s.current > 0 && (e.Sleep? || e == Exit)
    ensures var t, c := Next(s, e), s.current;
            var p := if e.Sleep? then Proc(s.procs[c].pid, Blocked, e.wake) else Proc(s.procs[c].pid, Zombie, s.procs[c].wake);
            && Resting(t, c, p) && c !in t.queue && c != t.current
            && t.queue == s.queue[1..] && t.current == (if |s.queue| > 1 then s.queue[1] else 0)
            && t.procs == s.procs[c := p][t.current := Proc(s.procs[t.current].pid, Running, s.procs[t.current].wake)]
            && t.ticks == s.ticks && t.nextPid == s.nextPid
  {
    var c := s.current;
    var h := Handed(s, e);
    HandedStopped(s, e);
    EventIsYield(s, e);
    YieldIsTurn(h);
    TurnTarget(h);
    YieldLeavesNone(h);
    EventKeepsInv(s, e);
    RestingNotQueued(Next(s, e), c, h.procs[c]);
  }

  /** A yield by a process that has stopped does not touch it. */
  lemma YieldLeavesNone(s: Sched)
    requires Stopped(s) && s.current > 0 && (s.procs[s.current].status == Blocked || s.procs[s.current].status == Zombie)
    ensures Yielded(s).procs[s.current] == s.procs[s.current]
  {
    YieldIsTurn(s);
    TurnTarget(s);
    TurnMember(s, Turned(s).current);
  }

  /** A process that has exited stays a zombie and never runs again, whatever the others do. */
  lemma {:induction false} ZombieStays(s: Sched, events: seq<Event>, i: nat, p: Proc)
    requires Inv(s) && AllowedRun(s, events) && Resting(s, i, p) && p.status == Zombie
    ensures var t := Run(s, events); Resting(t, i, p) && i !in t.queue && i != t.current
    decreases |events|
  {
    if events == [] {
      RestingNotQueued(s, i, p);
    } else {
      EventKeepsInv(s, events[0]);
      EventLeavesResting(s, events[0], i, p);
      ZombieStays(Next(s, events[0]), events[1..], i, p);
    }
  }

  /** So proc_exit is final. */
  lemma ExitIsFinal(s: Sched, events: seq<Event>)
    requires Inv(s) && s.current > 0 && AllowedRun(Next(s, Exit), events)
    ensures var t, i := Run(Next(s, Exit), events), s.current;
            && i < |t.procs| && t.procs[i].status == Zombie && t.procs[i].pid == s.procs[i].pid
            && i !in t.queue && i != t.current
  {
    StopHandsOver(s, Exit);
    EventKeepsInv(s, Exit);
    ZombieStays(Next(s, Exit), events, s.current, Next(s, Exit).procs[s.current]);
  }

  // ----- The other events -----

  /** What a tick makes of a process: it wakes a sleeper whose time has come. */
  function AtTick(p: Proc, i: nat, ticks: nat): Proc {
    if i > 0 && p.status == Blocked && 0 < p.wake <= ticks then Proc(p.pid, Ready, 0) else p
  }

  ghost predicate TickedSlot(s: Sched, t: Sched, i: nat)
    requires i < |s.procs| == |t.procs|
  {
    var p := AtTick(s.procs[i], i, s.ticks + 1);
    t.procs[i] == if s.current > 0 && i == t.current then Proc(p.pid, Running, p.wake)
                  else if s.current > 0 && i == s.current then Proc(p.pid, Ready, p.wake)
                  else p
  }

  /** A tick wakes the sleepers whose time has come and queues them at the back in table order.  The
      running process, if it is not idle, then goes behind them, and the next one runs. */
  lemma TickTurns(s: Sched)
    requires Inv(s)
    ensures var t, c, due := Next(s, Tick), s.current, DueSlots(s.procs, s.ticks + 1, |s.procs|);
            && t.ticks == s.ticks + 1 && t.nextPid == s.nextPid && |t.procs| == |s.procs|
            && t.queue == (if c == 0 then s.queue + due else s.queue[1..] + due + [c])
            && t.current == (if c == 0 then 0 else t.queue[0])
            && forall i: nat {:trigger TickedSlot(s, t, i)} :: i < |s.procs| ==> TickedSlot(s, t, i)
  {
    TickQueue(s);
    var t := Next(s, Tick);
    forall i: nat | i < |s.procs| ensures TickedSlot(s, t, i) { TickSlot(s, i); }
  }

  lemma TickQueue(s: Sched)
    requires Inv(s)
    ensures var t, c, due := Next(s, Tick), s.current, DueSlots(s.procs, s.ticks + 1, |s.procs|);
            && t.ticks == s.ticks + 1 && t.nextPid == s.nextPid && |t.procs| == |s.procs|
            && t.queue == (if c == 0 then s.queue + due else s.queue[1..] + due + [c])
            && t.current == (if c == 0 then 0 else t.queue[0])
  {
    var w := Handed(s, Tick);
    TickedInv(s);
    assert SlotOk(s, s.current) && SlotOk(w, w.current);
    if s.current > 0 {
      TickIsTurn(s, w);
      TailOfJoin(s.queue, DueSlots(s.procs, s.ticks + 1, |s.procs|));
    }
  }

  lemma TailOfJoin(q: seq<nat>, r: seq<nat>)
    requires q != []
    ensures (q + r)[1..] == q[1..] + r
  {
    var t, u := (q + r)[1..], q[1..] + r;
    assert |t| == |u|;
    forall i | 0 <= i < |t| ensures t[i] == u[i] { assert t[i] == (q + r)[i + 1]; }
  }

  lemma TickSlot(s: Sched, i: nat)
    requires Inv(s) && i < |s.procs|
    ensures |Next(s, Tick).procs| == |s.procs| && TickedSlot(s, Next(s, Tick), i)
  {
    var w := Handed(s, Tick);
    TickedInv(s);
    assert SlotOk(s, s.current) && SlotOk(w, w.current);
    assert w.procs[i] == AtTick(s.procs[i], i, s.ticks + 1);
    if s.current > 0 { TickIsTurn(s, w); }
  }

  lemma TickIsTurn(s: Sched, w: Sched)
    requires Inv(s) && s.current > 0 && w == Handed(s, Tick)
    ensures Next(s, Tick) == Turned(w) && w.procs[s.current] == s.procs[s.current] && s.procs[s.current].status == Running
    ensures s.queue != [] && w.queue == s.queue + DueSlots(s.procs, s.ticks + 1, |s.procs|)
    ensures Turned(w).queue == w.queue[1..] + [s.current]
    ensures Turned(w).queue != [] && Turned(w).current == Turned(w).queue[0]
  {
    HandedStopped(s, Tick);
    EventIsYield(s, Tick);
    YieldIsTurn(w);
    TurnTarget(w);
  }

  /** proc_create takes the lowest unused slot, gives it the next pid and queues it at the back.
      Without a stack it has only used up the pid. */
  lemma CreateAdds(s: Sched, stack: bool, k: nat)
    requires Inv(s) && 0 < k < |s.procs| && s.procs[k].status == Unused
    requires forall j :: 0 < j < k ==> s.procs[j].status != Unused
    ensures var t := Next(s, Create(stack));
            && t.current == s.current && t.ticks == s.ticks && t.nextPid == (s.nextPid + 1) % PID_LIMIT
            && t.queue == (if stack then s.queue + [k] else s.queue)
            && t.procs == s.procs[k := if stack then Proc(s.nextPid, Ready, 0) else Proc(s.nextPid, Unused, s.procs[k].wake)]
  {
    var f := FreeSlot(s.procs, 1);
    assert f == k;
  }

  lemma EventTicks(s: Sched, e: Event)
    requires InRange(s)
    ensures Next(s, e).ticks == s.ticks + if e == Tick then 1 else 0
  {
  }

  /** A sleeper stays blocked and out of the queue through any run in which no tick has reached its
      wake time. */
  lemma {:induction false} SleeperSleeps(s: Sched, events: seq<Event>, i: nat, wake: nat)
    requires Inv(s) && AllowedRun(s, events) && Asleep(s, i, wake)
    ensures var t := Run(s, events);
            && t.ticks >= s.ticks
            && (t.ticks < wake || t.ticks == s.ticks ==> Asleep(t, i, wake) && i !in t.queue && i != t.current)
    decreases |events|
  {
    if events == [] {
      RestingNotQueued(s, i, s.procs[i]);
    } else {
      var e := events[0];
      EventKeepsInv(s, e);
      EventTicks(s, e);
      if e != Tick || s.ticks + 1 < wake {
        EventLeavesResting(s, e, i, s.procs[i]);
        SleeperSleeps(Next(s, e), events[1..], i, wake);
      } else {
        RunTicks(Next(s, e), events[1..]);
      }
    }
  }

  lemma {:induction false} RunTicks(s: Sched, events: seq<Event>)
    requires InRange(s)
    ensures Run(s, events).ticks >= s.ticks
    decreases |events|
  {
    if events != [] {
      EventTicks(s, events[0]);
      RunTicks(Next(s, events[0]), events[1..]);
    }
  }

  /** The first tick that reaches the wake time enqueues the sleeper, once. */
  lemma SleeperWakes(s: Sched, i: nat, wake: nat)
    requires Inv(s) && Asleep(s, i, wake) && 0 < wake <= s.ticks + 1
    ensures var t := Next(s, Tick);
            && Distinct(t.queue) && i in t.queue
            && (t.procs[i].status == Ready || t.procs[i].status == Running) && t.procs[i].wake == 0
  {
    var w := Handed(s, Tick);
    SleeperDue(s, i, wake);
    assert SlotOk(w, i) && SlotOk(w, w.current);
    if w.current > 0 {
      EventIsYield(s, Tick);
      YieldKeepsReady(w, i);
    } else {
      assert Next(s, Tick) == w;
    }
  }

  lemma SleeperDue(s: Sched, i: nat, wake: nat)
    requires Inv(s) && Asleep(s, i, wake) && 0 < wake <= s.ticks + 1
    ensures var w := Handed(s, Tick); Inv(w) && w.procs[i].status == Ready && w.procs[i].wake == 0
  {
    TickedInv(s);
  }

  lemma TurnKeepsReady(s: Sched, i: nat)
    requires Stopped(s) && s.current > 0 && 0 < i < |s.procs| && s.procs[i].status == Ready
    ensures var t := Turned(s);
            && Distinct(t.queue) && i in t.queue
            && (t.procs[i].status == Ready || t.procs[i].status == Running) && t.procs[i].wake == s.procs[i].wake
  {
    TurnQueue(s);
    assert Eligible(s, Turned(s).queue, i);
  }

  lemma YieldKeepsReady(s: Sched, i: nat)
    requires Stopped(s) && s.current > 0 && 0 < i < |s.procs| && s.procs[i].status == Ready
    ensures var t := Yielded(s);
            && Distinct(t.queue) && i in t.queue
            && (t.procs[i].status == Ready || t.procs[i].status == Running) && t.procs[i].wake == s.procs[i].wake
  {
    TurnKeepsReady(s, i);
    YieldIsTurn(s);
  }

  // ----- Fairness -----

  ghost function Yields(s: Sched, k: nat): Sched
    requires InRange(s)
    decreases k
  {
    if k == 0 then s else Yields(Yielded(s), k - 1)
  }

  function Rotated(q: seq<nat>, k: nat): seq<nat>
    requires q != []
    decreases k
  {
    if k == 0 then q else Rotated(q[1..] + [q[0]], k - 1)
  }

  /** From a state in which a process other than idle runs, k yields rotate the queue by k. */
  lemma {:induction false} YieldsRotate(s: Sched, k: nat)
    requires Inv(s) && s.current > 0
    ensures var t := Yields(s, k); Inv(t) && t.current > 0 && t.queue == Rotated(s.queue, k)
    decreases k
  {
    if k > 0 {
      YieldRotates(s);
      YieldsRotate(Yielded(s), k - 1);
    }
  }

  lemma YieldRotates(s: Sched)
    requires Inv(s) && s.current > 0
    ensures var t := Yielded(s); Inv(t) && t.current > 0 && t.queue == s.queue[1..] + [s.queue[0]]
  {
    YieldIsTurn(s);
    TurnKeepsInv(s);
    TurnTarget(s);
  }

  lemma {:induction false} RotatedIs(q: seq<nat>, k: nat)
    requires q != [] && k <= |q|
    ensures Rotated(q, k) == q[k..] + q[..k]
    decreases k
  {
    if k == 0 {
      assert q[0..] + q[..0] == q;
    } else {
      var r := q[1..] + [q[0]];
      RotatedIs(r, k - 1);
      assert r[k - 1..] == q[k..] + [q[0]];
      assert q[..k] == [q[0]] + r[..k - 1];
    }
  }

  /** In any n consecutive yields, n being the length of the queue, the queued processes run once
      each, in queue order. */
  lemma EveryoneRunsOnce(s: Sched, k: nat)
    requires Inv(s) && s.current > 0 && k < |s.queue|
    ensures Yields(s, k).current == s.queue[k]
    ensures forall j: nat :: j < |s.queue| && j != k ==> Yields(s, j).current != s.queue[k]
  {
    RunsAt(s, k);
    forall j: nat | j < |s.queue| && j != k ensures Yields(s, j).current != s.queue[k] {
      RunsAt(s, j);
      assert Differ(s.queue, j, k) && Differ(s.queue, k, j);
    }
  }

  lemma RunsAt(s: Sched, k: nat)
    requires Inv(s) && s.current > 0 && k < |s.queue|
    ensures Yields(s, k).current == s.queue[k]
  {
    YieldsRotate(s, k);
    RotatedIs(s.queue, k);
  }

  /** After as many yields as there are queued processes the queue is as it was. */
  lemma YieldsComeRound(s: Sched)
    requires Inv(s) && s.current > 0
    ensures Yields(s, |s.queue|).queue == s.queue
  {
    YieldsRotate(s, |s.queue|);
    RotatedWhole(s.queue);
  }

  lemma RotatedWhole(q: seq<nat>)
    requires q != []
    ensures Rotated(q, |q|) == q
  {
    RotatedIs(q, |q|);
    assert q[|q|..] + q[..|q|] == q;
  }

  /** Whatever other processes do, each tick, yield, sleep or exit of the running process moves a
      waiting one up by one place; new and woken processes go behind it. */
  lemma PositionDrops(s: Sched, e: Event, p: nat)
    requires Inv(s) && Allowed(s, e) && s.current > 0 && p < |s.queue|
    ensures var t := Next(s, e);
            if e.Create? then t.current == s.current && p < |t.queue| && t.queue[p] == s.queue[p]
            else p > 0 ==> t.current > 0 && p - 1 < |t.queue| && t.queue[p - 1] == s.queue[p]
  {
    if p > 0 && !e.Create? {
      HandedStopped(s, e);
      EventIsYield(s, e);
      TurnMovesUp(Handed(s, e), p);
    }
  }

  lemma TurnMovesUp(s: Sched, p: nat)
    requires Stopped(s) && s.current > 0 && 0 < p < |s.queue|
    ensures var t := Yielded(s); t.current > 0 && p - 1 < |t.queue| && t.queue[p - 1] == s.queue[p]
  {
    YieldIsTurn(s);
    TurnTarget(s);
  }

  /** The events that give up the processor. */
  ghost function Switches(events: seq<Event>): nat {
    if events == [] then 0 else (if events[0].Create? then 0 else 1) + Switches(events[1..])
  }

  /** A process p places back in the queue is the current one after p switches. */
  lemma {:induction false} BoundedWaiting(s: Sched, events: seq<Event>, p: nat)
    requires Inv(s) && AllowedRun(s, events) && s.current > 0 && p < |s.queue| && Switches(events) == p
    ensures Run(s, events).current == s.queue[p]
    decreases |events|
  {
    if events != [] {
      EventKeepsInv(s, events[0]);
      PositionDrops(s, events[0], p);
      BoundedWaiting(Next(s, events[0]), events[1..], if events[0].Create? then p else p - 1);
    }
  }

  /** Once idle runs it is never switched away from: a tick does not preempt it, and of the
      events allowed none does either. */
  lemma {:induction false} IdleKeepsRunning(s: Sched, events: seq<Event>)
    requires Inv(s) && AllowedRun(s, events) && s.current == 0 && s.procs[0].status == Running
    ensures Run(s, events).current == 0
    decreases |events|
  {
    if events != [] {
      assert SlotOk(s, 0);
      EventKeepsInv(s, events[0]);
      IdleKeepsRunning(Next(s, events[0]), events[1..]);
    }
  }

  /** A state with one process besides idle. */
  predicate Pair(s: Sched, idle: Status, p: Proc, queue: seq<nat>, current: nat, ticks: nat) {
    && |s.procs| == MAX_PROCESSES && s.procs[0] == Proc(0, idle, 0) && s.procs[1] == p
    && (forall i :: 2 <= i < MAX_PROCESSES ==> s.procs[i].status == Unused)
    && s.queue == queue && s.current == current && s.ticks == ticks
  }

  lemma {:induction false} NoneDue(procs: seq<Proc>, ticks: nat, n: nat)
    requires 2 <= n <= |procs| && forall i :: 2 <= i < n ==> !Due(procs[i], ticks)
    ensures DueSlots(procs, ticks, n) == if Due(procs[1], ticks) then [1] else []
  {
    if n > 2 {
      NoneDue(procs, ticks, n - 1);
    } else {
      assert DueSlots(procs, ticks, 1) == [];
    }
  }

  lemma PairYields(s: Sched)
    requires Pair(s, Ready, Proc(1, Ready, 0), [1], 0, 0)
    ensures InRange(s) && Pair(Next(s, Yield), Ready, Proc(1, Running, 0), [1], 1, 0)
  {
  }

  lemma PairSleeps(s: Sched)
    requires Pair(s, Ready, Proc(1, Running, 0), [1], 1, 0)
    ensures InRange(s) && Pair(Next(s, Sleep(1)), Running, Proc(1, Blocked, 1), [], 0, 0)
  {
    var h := Handed(s, Sleep(1));
    assert h.queue[1..] == [] && FromReady(h.procs, h.queue) == FromReady(h.procs, []);
  }

  lemma PairWakes(s: Sched)
    requires Pair(s, Running, Proc(1, Blocked, 1), [], 0, 0)
    ensures InRange(s) && Pair(Next(s, Tick), Running, Proc(1, Ready, 0), [1], 0, 1)
  {
    NoneDue(s.procs, 1, MAX_PROCESSES);
  }

  lemma LoneSleeper() returns (s1: Sched, s2: Sched, s3: Sched, s4: Sched)
    ensures InRange(s1) && InRange(s2) && InRange(s3) && InRange(s4)
    ensures s1 == Next(Initial(), Create(true)) && s2 == Next(s1, Yield)
    ensures s3 == Next(s2, Sleep(1)) && s4 == Next(s3, Tick)
    ensures !IdleYields(s1) && IdleYields(s4)
  {
    s1 := Next(Initial(), Create(true));
    PairYields(s1);
    s2 := Next(s1, Yield);
    PairSleeps(s2);
    s3 := Next(s2, Sleep(1));
    PairWakes(s3);
    s4 := Next(s3, Tick);
  }

  /** A process is created, runs, sleeps for one tick and is woken while idle runs: the state in
      which a yield by idle drops it from the queue is reachable. */
  lemma IdleYieldReachable()
    ensures exists events :: AllowedRun(Initial(), events) && IdleYields(Run(Initial(), events))
  {
    var s1, s2, s3, s4 := LoneSleeper();
    var e4 := [Tick];
    var e3 := [Sleep(1)] + e4;
    var e2 := [Yield] + e3;
    var e1 := [Create(true)] + e2;
    assert Run(s4, []) == s4 && AllowedRun(s4, []);
    assert Run(s3, e4) == s4 && AllowedRun(s3, e4);
    assert Run(s2, e3) == s4 && AllowedRun(s2, e3) by { assert e3[1..] == e4; }
    assert Run(s1, e2) == s4 && AllowedRun(s1, e2) by { assert e2[1..] == e3; }
    assert Run(Initial(), e1) == s4 && AllowedRun(Initial(), e1) by { assert e1[1..] == e2; }
  }

  // ----- The linked queue -----

  const NIL: int := -1

  /** The next and prev fields of a table slot. */
  datatype Link = Link(next: int, prev: int)

  ghost predicate LinkAt(l: seq<Link>, q: seq<nat>, k: nat)
    requires k < |q|
  {
    q[k] < |l| && l[q[k]] == Link(if k + 1 < |q| then q[k + 1] else NIL, if k > 0 then q[k - 1] else NIL)
  }

  /** The links, from head and tail, spell out the queue in both directions. */
  ghost predicate Linked(l: seq<Link>, q: seq<nat>, head: int, tail: int) {
    && Distinct(q) && Below(q, |l|)
    && head == (if q == [] then NIL else q[0]) && tail == (if q == [] then NIL else q[|q| - 1])
    && forall k: nat {:trigger LinkAt(l, q, k)} :: k < |q| ==> LinkAt(l, q, k)
  }

  /** Slots outside the queue have no links. */
  ghost predicate Detached(l: seq<Link>, q: seq<nat>) {
    forall i :: 0 <= i < |l| && i !in q ==> l[i] == Link(NIL, NIL)
  }

  /** The writes of scheduler_add, as one table. */
  function Appended(l: seq<Link>, tail: int, i: nat): seq<Link>
    requires i < |l|
  {
    var l1 := l[i := Link(NIL, tail)];
    if 0 <= tail < |l| then l1[tail := l1[tail].(next := i)] else l1
  }

  lemma AddLinks(l: seq<Link>, q: seq<nat>, head: int, tail: int, i: nat)
    requires Linked(l, q, head, tail) && i < |l| && i !in q
    ensures Linked(Appended(l, tail, i), q + [i], if q == [] then i else head, i)
    ensures Detached(l, q) ==> Detached(Appended(l, tail, i), q + [i])
  {
    forall k: nat | k < |q| + 1 ensures LinkAt(Appended(l, tail, i), q + [i], k) {
      if k < |q| { assert LinkAt(l, q, k) && Differ(q, k, |q| - 1) && q[k] in q; }
    }
    if q != [] { assert LinkAt(l, q, |q| - 1); }
    DistinctJoin(q, [i]);
  }

  /** The writes of scheduler_remove, as one table. */
  function Unlinked(l: seq<Link>, i: nat): seq<Link>
    requires i < |l|
  {
    var n, p := l[i].next, l[i].prev;
    var l1 := if 0 <= p < |l| then l[p := l[p].(next := n)] else l;
    var l2 := if 0 <= n < |l| then l1[n := l1[n].(prev := p)] else l1;
    l2[i := Link(NIL, NIL)]
  }

  lemma RemoveLinkAt(l: seq<Link>, q: seq<nat>, head: int, tail: int, k: nat, j: nat)
    requires Linked(l, q, head, tail) && k < |q| && j < |q| && j != k
    ensures LinkAt(Unlinked(l, q[k]), q[..k] + q[k + 1..], if j < k then j else j - 1)
  {
    assert LinkAt(l, q, k) && LinkAt(l, q, j);
    assert Differ(q, j, k) && Differ(q, k, j);
    if k > 0 { assert Differ(q, k - 1, k) && Differ(q, k - 1, j) && Differ(q, j, k - 1); }
    assert Differ(q, k, k + 1) && Differ(q, k + 1, j) && Differ(q, j, k + 1);
  }

  lemma RemoveLinks(l: seq<Link>, q: seq<nat>, head: int, tail: int, k: nat)
    requires Linked(l, q, head, tail) && k < |q|
    ensures var link := l[q[k]];
            Linked(Unlinked(l, q[k]), q[..k] + q[k + 1..],
              if link.prev == NIL then link.next else head, if link.next == NIL then link.prev else tail)
  {
    var q' := q[..k] + q[k + 1..];
    assert LinkAt(l, q, k);
    DistinctLess(q, k);
    forall j: nat | j < |q'| ensures LinkAt(Unlinked(l, q[k]), q', j) {
      RemoveLinkAt(l, q, head, tail, k, if j < k then j else j + 1);
    }
  }

  lemma RemoveDetaches(l: seq<Link>, q: seq<nat>, head: int, tail: int, k: nat)
    requires Linked(l, q, head, tail) && k < |q| && Detached(l, q)
    ensures Detached(Unlinked(l, q[k]), q[..k] + q[k + 1..])
  {
    var q', l' := q[..k] + q[k + 1..], Unlinked(l, q[k]);
    assert LinkAt(l, q, k);
    forall i | 0 <= i < |l'| && i !in q' ensures l'[i] == Link(NIL, NIL) {
      if i != q[k] {
        assert k > 0 ==> q'[k - 1] == q[k - 1];
        assert k + 1 < |q| ==> q'[k] == q[k + 1];
        assert q == q[..k] + [q[k]] + q[k + 1..];
      }
    }
  }

  lemma RemoveMember(l: seq<Link>, q: seq<nat>, head: int, tail: int, i: nat)
    requires Linked(l, q, head, tail) && i in q
    ensures i < |l| && NIL <= l[i].next < |l| && NIL <= l[i].prev < |l|
    ensures Linked(Unlinked(l, i), Without(q, i),
              if l[i].prev == NIL then l[i].next else head, if l[i].next == NIL then l[i].prev else tail)
    ensures Detached(l, q) ==> Detached(Unlinked(l, i), Without(q, i))
  {
    var k: nat :| k < |q| && q[k] == i;
    assert LinkAt(l, q, k);
    RemoveLinks(l, q, head, tail, k);
    WithoutAt(q, k);
    if Detached(l, q) { RemoveDetaches(l, q, head, tail, k); }
  }

  // ----- The kernel's state -----

  /** proc_sleep's wake time, in 64-bit arithmetic. */
  function WakeTime(pitTicks: nat, ms: nat, hz: nat): (t: nat)
    ensures pitTicks + ms * hz < 0x1_0000_0000_0000_0000 ==> t == pitTicks + ms * hz / 1000
  {
    WakeAfter(pitTicks, ms * hz)
  }

  function WakeAfter(pitTicks: nat, product: nat): (t: nat)
    ensures pitTicks + product < 0x1_0000_0000_0000_0000 ==> t == pitTicks + product / 1000
  {
    (pitTicks + product % 0x1_0000_0000_0000_0000 / 1000) % 0x1_0000_0000_0000_0000
  }

  class Kernel {
    /** g_process_table: the scheduling fields, and the queue links. */
    const procs: array<Proc>
    const links: array<Link>
    var head: int
    var tail: int
    var current: nat
    var ticks: nat
    var nextPid: nat
    ghost var queue: seq<nat>

    ghost predicate Valid()
      reads this, procs, links
    {
      && procs.Length == MAX_PROCESSES && links.Length == MAX_PROCESSES && current < MAX_PROCESSES
      && Linked(links[..], queue, head, tail)
    }

    ghost function State(): (s: Sched)
      requires Valid()
      reads this, procs, links
      ensures InRange(s)
    {
      Sched(procs[..], queue, current, ticks, nextPid)
    }

    /** What every event keeps. */
    ghost predicate Sound()
      reads this, procs, links
    {
      Valid() && Detached(links[..], queue) && Inv(State())
    }

    constructor ()
      ensures Sound() && State() == Initial()
      ensures fresh(procs) && fresh(links)
    {
      procs := new Proc[MAX_PROCESSES](i => Proc(0, Unused, 0));
      links := new Link[MAX_PROCESSES](i => Link(NIL, NIL));
      head, tail, current, ticks, nextPid, queue := NIL, NIL, 0, 0, 1, [];
      new;
      procs[0] := Proc(0, Ready, 0);
      InitialInv();
      assert procs[..] == Initial().procs;
    }

    /** scheduler_add */
    method Add(i: nat)
      requires Valid() && i < MAX_PROCESSES && (procs[i].status == Ready ==> i !in queue)
      modifies this`head, this`tail, this`queue, links
      ensures Valid()
      ensures queue == old(queue) + if procs[i].status == Ready then [i] else []
      ensures old(Detached(links[..], queue)) ==> Detached(links[..], queue)
    {
      if procs[i].status != Ready { return; }
      ghost var l := links[..];
      links[i] := Link(NIL, tail);
      if tail != NIL {
        links[tail] := links[tail].(next := i);
      } else {
        head := i;
      }
      AddLinks(l, queue, old(head), tail, i);
      assert links[..] == Appended(l, tail, i);
      tail := i;
      queue := queue + [i];
    }

    /** The writes of scheduler_remove. */
    method Unlink(i: nat)
      requires i < links.Length
      requires NIL <= links[i].next < links.Length && NIL <= links[i].prev < links.Length
      modifies this`head, this`tail, links
      ensures links[..] == Unlinked(old(links[..]), i)
      ensures head == if old(links[i].prev) == NIL then old(links[i].next) else old(head)
      ensures tail == if old(links[i].next) == NIL then old(links[i].prev) else old(tail)
    {
      var prev, next := links[i].prev, links[i].next;
      if prev != NIL {
        links[prev] := links[prev].(next := next);
      } else {
        head := next;
      }
      if next != NIL {
        links[next] := links[next].(prev := prev);
      } else {
        tail := prev;
      }
      links[i] := Link(NIL, NIL);
    }

    /** scheduler_remove: of a slot that is not queued, and so has no links, it empties the queue. */
    method Remove(i: nat)
      requires Valid() && i < MAX_PROCESSES && (i in queue || links[i] == Link(NIL, NIL))
      modifies this`head, this`tail, this`queue, links
      ensures Valid()
      ensures queue == if i in old(queue) then Without(old(queue), i) else []
      ensures i in old(queue) && old(Detached(links[..], queue)) ==> Detached(links[..], queue)
    {
      ghost var l, q := links[..], queue;
      if i in q { RemoveMember(l, q, head, tail, i); }
      Unlink(i);
      queue := if i in q then Without(q, i) else [];
    }

    /** The first half of scheduler_yield. */
    method Preempt()
      requires Valid() && Detached(links[..], queue)
      modifies this`head, this`tail, this`queue, links, procs
      ensures Valid() && State() == Preempted(old(State()))
      ensures old(procs[current].status == Running ==> current in queue) ==> Detached(links[..], queue)
    {
      if procs[current].status == Running {
        procs[current] := procs[current].(status := Ready);
        if current in queue { WithoutGone(queue, current); }
        Remove(current);
        Add(current);
      }
    }

    /** The loop that drops processes that are not ready from the front. */
    method Skip() returns (next: int)
      requires Valid()
      modifies this`head, this`tail, this`queue, links
      ensures Valid() && queue == FromReady(procs[..], old(queue))
      ensures old(Detached(links[..], queue)) ==> Detached(links[..], queue)
      ensures next == if queue == [] then NIL else queue[0]
    {
      next := head;
      while next != NIL && procs[next].status != Ready
        invariant Valid() && next == head
        invariant old(Detached(links[..], queue)) ==> Detached(links[..], queue)
        invariant FromReady(procs[..], queue) == FromReady(procs[..], old(queue))
        decreases |queue|
      {
        var toRemove := next;
        assert LinkAt(links[..], queue, 0);
        next := links[next].next;
        Remove(toRemove);
      }
    }

    /** scheduler_yield.  If the running process is not queued, as only idle is not, the other
        processes drop out of the queue but keep their links. */
    method YieldNow()
      requires Valid() && Detached(links[..], queue)
      modifies this, links, procs
      ensures Valid() && State() == Yielded(old(State()))
      ensures Detached(links[..], queue) || old(procs[current].status == Running && current !in queue && queue != [])
    {
      if head == NIL { return; }
      Preempt();
      var next := Skip();
      if next == NIL { next := 0; }
      procs[next] := procs[next].(status := Running);
      if next != current { current := next; }
    }

    /** An event's last step, from a state in which the running process has just stopped. */
    method GiveUp()
      requires Valid() && Detached(links[..], queue) && Stopped(State()) && !IdleYields(State())
      modifies this, links, procs
      ensures Sound() && State() == Yielded(old(State()))
    {
      assert SlotOk(State(), current);
      YieldKeepsInv(State());
      YieldNow();
    }

    /** One round of the wake loop. */
    method WakeOne(i: nat)
      requires Valid() && Detached(links[..], queue) && i < MAX_PROCESSES && (Due(procs[i], ticks) ==> i !in queue)
      modifies this`head, this`tail, this`queue, links, procs
      ensures Valid() && Detached(links[..], queue)
      ensures procs[..] == old(procs[..])[i := Awake(old(procs[i]), 1, ticks, 2)]
      ensures queue == old(queue) + if old(Due(procs[i], ticks)) then [i] else []
    {
      if procs[i].status == Blocked && procs[i].wake > 0 && procs[i].wake <= ticks {
        procs[i] := procs[i].(status := Ready, wake := 0);
        Add(i);
      }
    }

    /** The wake loop of scheduler_tick. */
    method WakeLoop()
      requires Valid() && Detached(links[..], queue)
      requires SleepersOut(procs[..], queue, ticks)
      modifies this`head, this`tail, this`queue, links, procs
      ensures Valid() && Detached(links[..], queue) && State() == Woken(old(State()))
    {
      ghost var before, q := procs[..], queue;
      WakingStarts(before, ticks);
      var i := 1;
      while i < MAX_PROCESSES
        invariant 1 <= i <= MAX_PROCESSES && Valid() && Detached(links[..], queue)
        invariant procs[..] == Awakened(before, ticks, i) && queue == q + DueSlots(before, ticks, i)
      {
        WakingStep(before, q, ticks, i);
        assert procs[i] == procs[..][i];
        WakeOne(i);
        i := i + 1;
      }
    }

    method WakeDue()
      requires Sound()
      modifies this`head, this`tail, this`queue, links, procs
      ensures Sound() && State() == Woken(old(State()))
    {
      ghost var s := State();
      forall i: nat | i < |s.procs| ensures Due(s.procs[i], ticks) ==> i !in queue {
        assert SlotOk(s, i);
      }
      WakingKeepsInv(s);
      WakeLoop();
    }

    /** scheduler_tick */
    method TickNow()
      requires Sound()
      modifies this, links, procs
      ensures Sound() && State() == Next(old(State()), Tick)
    {
      ghost var s := State();
      TicksKeepInv(s, ticks + 1);
      ticks := ticks + 1;
      WakeDue();
      ghost var w := State();
      assert w == Handed(s, Tick);
      assert SlotOk(w, w.current);
      if head != NIL && procs[current].pid != 0 {
        GiveUp();
      }
    }

    /** proc_create; the slot's stack, name and saved registers are not part of this model. */
    method CreateNow(stack: bool) returns (slot: int)
      requires Sound() && Allowed(State(), Create(stack))
      modifies this, links, procs
      ensures Sound() && State() == Next(old(State()), Create(stack))
      ensures slot >= 0 <==> stack && exists i :: 1 <= i < MAX_PROCESSES && old(procs[i].status == Unused)
      ensures slot >= 0 ==> slot < MAX_PROCESSES && old(procs[slot].status == Unused) && procs[slot].status == Ready
    {
      ghost var s := State();
      EventKeepsInv(s, Create(stack));
      var k := FindSlot();
      if k < 0 { return -1; }
      assert SlotOk(s, k);
      FillSlot(k, stack);
      assert procs[..] == Next(s, Create(stack)).procs;
      if !stack { return -1; }
      Add(k);
      return k;
    }

    /** The fields proc_create sets, and its way out when no stack can be had. */
    method FillSlot(k: nat, stack: bool)
      requires k < procs.Length
      modifies this`nextPid, procs
      ensures procs[..] == old(procs[..])[k := Proc(old(nextPid), if stack then Ready else Unused,
                                                if stack then 0 else old(procs[k].wake))]
      ensures nextPid == (old(nextPid) + 1) % PID_LIMIT
    {
      procs[k] := procs[k].(pid := nextPid, status := Ready);
      nextPid := (nextPid + 1) % PID_LIMIT;
      procs[k] := if stack then procs[k].(wake := 0) else procs[k].(status := Unused);
    }

    method FindSlot() returns (slot: int)
      requires Valid()
      ensures slot == var k := FreeSlot(procs[..], 1); if k == MAX_PROCESSES then -1 else k
    {
      var i := 1;
      while i < MAX_PROCESSES
        invariant 1 <= i <= MAX_PROCESSES && FreeSlot(procs[..], 1) == FreeSlot(procs[..], i)
      {
        if procs[i].status == Unused { return i; }
        i := i + 1;
      }
      return -1;
    }

    /** proc_exit */
    method ExitNow()
      requires Sound()
      modifies this, links, procs
      ensures Sound() && State() == Next(old(State()), Exit)
      ensures old(current) == 0 ==> State() == old(State())
      ensures old(current) > 0 ==> procs[old(current)].status == Zombie && old(current) !in queue && current != old(current)
    {
      ghost var s := State();
      if current > 0 { StopHandsOver(s, Exit); }
      assert SlotOk(s, current);
      if procs[current].pid == 0 { return; }
      HandedStopped(s, Exit);
      procs[current] := procs[current].(status := Zombie);
      assert State() == Handed(s, Exit);
      GiveUp();
    }

    method SleepUntil(wake: nat)
      requires Sound()
      modifies this, links, procs
      ensures Sound() && State() == Next(old(State()), Sleep(wake))
      ensures old(current) == 0 ==> State() == old(State())
      ensures old(current) > 0 ==> Asleep(State(), old(current), wake) && old(current) !in queue && current != old(current)
    {
      ghost var s := State();
      if current > 0 { StopHandsOver(s, Sleep(wake)); }
      assert SlotOk(s, current);
      if procs[current].pid == 0 { return; }
      HandedStopped(s, Sleep(wake));
      procs[current] := procs[current].(wake := wake, status := Blocked);
      assert State() == Handed(s, Sleep(wake));
      GiveUp();
    }

    /** proc_sleep */
    method SleepNow(pitTicks: nat, ms: nat, hz: nat)
      requires Sound()
      modifies this, links, procs
      ensures Sound() && State() == Next(old(State()), Sleep(WakeTime(pitTicks, ms, hz)))
      ensures old(current) == 0 ==> State() == old(State())
      ensures old(current) > 0 && pitTicks + ms * hz < 0x1_0000_0000_0000_0000 ==>
        Asleep(State(), old(current), pitTicks + ms * hz / 1000)
    {
      SleepUntil(WakeTime(pitTicks, ms, hz));
    }

    method Do(e: Event)
      requires Sound() && Allowed(State(), e)
      modifies this, links, procs
      ensures Sound() && State() == Next(old(State()), e)
    {
      match e
      case Create(stack) => var _ := CreateNow(stack);
      case Sleep(wake) => SleepUntil(wake);
      case Exit => ExitNow();
      case Tick => TickNow();
      case Yield => GiveUp();
    }

    /** Any allowed run, made in place on the table and the linked queue, follows the specification
        and leaves the queue well linked. */
    method Execute(events: seq<Event>)
      requires Sound() && AllowedRun(State(), events)
      modifies this, links, procs
      ensures Sound() && State() == Run(old(State()), events)
    {
      ghost var s := State();
      var i := 0;
      while i < |events|
        invariant 0 <= i <= |events| && Sound()
        invariant AllowedRun(State(), events[i..]) && Run(State(), events[i..]) == Run(s, events)
      {
        assert events[i..][1..] == events[i + 1..];
        Do(events[i]);
        i := i + 1;
      }
    }
  }
}
