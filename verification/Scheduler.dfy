/** schedule and clock_handler: what the scheduler picks, when it returns, and how long a process
    that stays runnable can be passed over. */
module Scheduler {

  /** The scheduling fields of a process record; `runnable` is `p_flags == 0`. */
  datatype Slot = Slot(runnable: bool, ticks: int, priority: int)

  predicate Candidate(s: Slot) {
    s.runnable && 0 < s.ticks
  }

  ghost predicate HasCandidate(ps: seq<Slot>) {
    exists i :: 0 <= i < |ps| && Candidate(ps[i])
  }

  /** `c` is the first of the runnable processes with the most ticks left, and has some left. */
  ghost predicate IsPick(ps: seq<Slot>, c: nat) {
    c < |ps| && Candidate(ps[c]) &&
    (forall i :: 0 <= i < |ps| && ps[i].runnable ==> ps[i].ticks <= ps[c].ticks) &&
    (forall i :: 0 <= i < c && ps[i].runnable ==> ps[i].ticks < ps[c].ticks)
  }

  function Refilled(s: Slot): Slot {
    if s.runnable then s.(ticks := s.priority) else s
  }

  function Refill(ps: seq<Slot>): (r: seq<Slot>)
    ensures |r| == |ps| && forall i :: 0 <= i < |ps| ==> r[i] == Refilled(ps[i])
  {
    if ps == [] then [] else [Refilled(ps[0])] + Refill(ps[1..])
  }

  /** The table after schedule: refilled exactly when no candidate was left. */
  ghost function Settled(ps: seq<Slot>): seq<Slot> {
    if HasCandidate(ps) then ps else Refill(ps)
  }

  /** Every runnable process has its priority in ticks; blocked processes and free slots are as before. */
  ghost predicate RefilledTable(ps: seq<Slot>, qs: seq<Slot>) {
    |qs| == |ps| &&
    forall i :: 0 <= i < |ps| ==>
      qs[i] == if ps[i].runnable then Slot(true, ps[i].priority, ps[i].priority) else ps[i]
  }

  /** The table is unchanged if some runnable process has ticks left, and refilled otherwise. */
  ghost predicate Rescheduled(ps: seq<Slot>, qs: seq<Slot>) {
    if exists i :: 0 <= i < |ps| && ps[i].runnable && 0 < ps[i].ticks then qs == ps else RefilledTable(ps, qs)
  }

  lemma SettledIsRescheduled(ps: seq<Slot>)
    ensures RefilledTable(ps, Refill(ps)) && Rescheduled(ps, Settled(ps))
  {
    assert RefilledTable(ps, Refill(ps));
    if exists i :: 0 <= i < |ps| && ps[i].runnable && 0 < ps[i].ticks {
      var i :| 0 <= i < |ps| && ps[i].runnable && 0 < ps[i].ticks;
      assert Candidate(ps[i]);
    }
  }

  /** Some runnable process has ticks left or a positive priority. */
  ghost predicate CanPick(ps: seq<Slot>) {
    exists i :: 0 <= i < |ps| && ps[i].runnable && (0 < ps[i].ticks || 0 < ps[i].priority)
  }

  lemma CanPickAfterRefill(ps: seq<Slot>)
    requires CanPick(ps) && !HasCandidate(ps)
    ensures HasCandidate(Refill(ps))
  {
  }

  function Rounds(ps: seq<Slot>, k: nat): seq<Slot> {
    if k == 0 then ps else Refill(Rounds(ps, k - 1))
  }

  /** A refill does not help when every runnable process has priority 0 or less. */
  lemma RefillHelpsNobody(ps: seq<Slot>, qs: seq<Slot>)
    requires !CanPick(ps) && RefilledTable(ps, qs)
    ensures !CanPick(qs)
  {
    forall i | 0 <= i < |qs| ensures !(qs[i].runnable && (0 < qs[i].ticks || 0 < qs[i].priority)) {
      assert !(ps[i].runnable && (0 < ps[i].ticks || 0 < ps[i].priority));
    }
  }

  lemma NoCandidate(ps: seq<Slot>)
    requires !CanPick(ps)
    ensures !HasCandidate(ps)
  {
    forall i | 0 <= i < |ps| ensures !Candidate(ps[i]) {
      assert !(ps[i].runnable && (0 < ps[i].ticks || 0 < ps[i].priority));
    }
  }

  /** schedule returns only if CanPick: otherwise no number of refills produces a candidate. */
  lemma {:induction false} NoPickEver(ps: seq<Slot>, k: nat)
    requires !CanPick(ps)
    ensures !CanPick(Rounds(ps, k)) && !HasCandidate(Rounds(ps, k))
  {
    if k != 0 {
      NoPickEver(ps, k - 1);
      SettledIsRescheduled(Rounds(ps, k - 1));
      RefillHelpsNobody(Rounds(ps, k - 1), Rounds(ps, k));
    }
    NoCandidate(Rounds(ps, k));
  }

  lemma PickIsUnique(ps: seq<Slot>, c: nat, d: nat)
    requires IsPick(ps, c) && IsPick(ps, d)
    ensures c == d
  {
  }

  class Cpu {
    const procs: array<Slot>
    var current: nat
    var ticks: nat

    constructor (ps: seq<Slot>)
      requires ps != []
      ensures procs[..] == ps && current == 0 && ticks == 0 && fresh(procs)
    {
      procs := new Slot[|ps|](i requires 0 <= i < |ps| => ps[i]);
      current, ticks := 0, 0;
    }

    /** One scan of the table, in table order, keeping the first of the greatest. */
    method Scan() returns (greatest: int)
      modifies this`current
      ensures greatest == 0 <==> !HasCandidate(procs[..])
      ensures greatest != 0 ==> IsPick(procs[..], current) && greatest == procs[current].ticks
    {
      greatest := 0;
      for i := 0 to procs.Length
        invariant 0 <= greatest
        invariant forall j :: 0 <= j < i && procs[j].runnable ==> procs[j].ticks <= greatest
        invariant greatest != 0 ==> current < i && Candidate(procs[current]) && procs[current].ticks == greatest
        invariant greatest != 0 ==> forall j :: 0 <= j < current && procs[j].runnable ==> procs[j].ticks < greatest
      {
        if procs[i].runnable {
          if greatest < procs[i].ticks {
            greatest := procs[i].ticks;
            current := i;
          }
        }
      }
      assert greatest != 0 ==> Candidate(procs[..][current]);
    }

    method RefillAll()
      modifies procs
      ensures procs[..] == Refill(old(procs[..])) && RefilledTable(old(procs[..]), procs[..])
    {
      SettledIsRescheduled(procs[..]);
      for i := 0 to procs.Length
        invariant forall j :: 0 <= j < i ==> procs[j] == Refilled(old(procs[j]))
        invariant forall j :: i <= j < procs.Length ==> procs[j] == old(procs[j])
      {
        if procs[i].runnable {
          procs[i] := procs[i].(ticks := procs[i].priority);
        }
      }
    }

    /** At most one refill, then the first runnable process of greatest positive ticks. */
    method Schedule()
      requires CanPick(procs[..])
      modifies this`current, procs
      ensures procs[..] == Settled(old(procs[..])) && IsPick(procs[..], current)
      ensures Rescheduled(old(procs[..]), procs[..])
    {
      SettledIsRescheduled(procs[..]);
      var greatest := 0;
      ghost var refilled := false;
      while greatest == 0
        invariant !refilled ==> procs[..] == old(procs[..])
        invariant refilled ==> !HasCandidate(old(procs[..])) && procs[..] == Refill(old(procs[..]))
        invariant greatest != 0 ==> HasCandidate(procs[..]) && IsPick(procs[..], current)
        decreases greatest == 0, !refilled
      {
        if !HasCandidate(old(procs[..])) {
          CanPickAfterRefill(old(procs[..]));
        }
        greatest := Scan();
        if greatest == 0 {
          RefillAll();
          refilled := true;
        }
      }
    }

    /** The clock interrupt, at nesting depth `reenter`; the result says whether inform_int is called for
        the TTY. */
    method ClockHandler(reenter: nat, keyPressed: bool) returns (informTty: bool)
      requires current < procs.Length
      requires reenter == 0 ==> CanPick(Ticked(procs[..], current))
      modifies this, procs
      ensures ticks == old(ticks) + 1 && (informTty <==> reenter == 0 && keyPressed)
      ensures reenter != 0 ==> procs[..] == Ticked(old(procs[..]), old(current)) && current == old(current)
      ensures reenter == 0 ==> procs[..] == Settled(Ticked(old(procs[..]), old(current))) && IsPick(procs[..], current)
      ensures var c, was := old(current), old(procs[..]);
              var ticked := was[c := Slot(was[c].runnable, was[c].ticks - 1, was[c].priority)];
              if reenter == 0 then Rescheduled(ticked, procs[..]) else procs[..] == ticked
    {
      ticks := ticks + 1;
      procs[current] := procs[current].(ticks := procs[current].ticks - 1);
      assert procs[..] == Ticked(old(procs[..]), current);
      if reenter != 0 {
        return false;
      }
      Schedule();
      return keyPressed;
    }
  }

  /** The running process loses a tick. */
  function Ticked(ps: seq<Slot>, c: nat): seq<Slot>
    requires c < |ps|
  {
    ps[c := ps[c].(ticks := ps[c].ticks - 1)]
  }

  // ---------------------------------------------------------------- how long a process waits

  datatype State = State(ps: seq<Slot>, current: nat)

  /** A clock tick outside the kernel, one nested in an interrupt, a process blocking (which reschedules),
      or any change of who is runnable. */
  datatype Event = Tick | NestedTick | Reschedule | Flags

  ghost predicate StepsTo(s: State, e: Event, s': State) {
    s.current < |s.ps| &&
    match e
    case Tick => s'.ps == Settled(Ticked(s.ps, s.current)) && IsPick(s'.ps, s'.current)
    case NestedTick => s'.ps == Ticked(s.ps, s.current) && s'.current == s.current
    case Reschedule => s'.ps == Settled(s.ps) && IsPick(s'.ps, s'.current)
    case Flags =>
      s'.current == s.current && |s'.ps| == |s.ps| &&
      forall i :: 0 <= i < |s.ps| ==> s'.ps[i] == s.ps[i].(runnable := s'.ps[i].runnable)
  }

  /** Nobody has more ticks than its priority. */
  ghost predicate Bounded(ps: seq<Slot>) {
    forall i :: 0 <= i < |ps| ==> 0 <= ps[i].priority && ps[i].ticks <= ps[i].priority
  }

  ghost predicate Inv(s: State) {
    s.current < |s.ps| && Bounded(s.ps)
  }

  /** kernel_main: five tasks of priority 15, two processes of priority 5, free slots; the first task runs. */
  function Boot(slots: nat): State {
    State(seq(slots, i =>
      if i < 5 then Slot(true, 15, 15) else if i < 7 then Slot(true, 5, 5) else Slot(false, 0, 0)), 0)
  }

  lemma BootInv(slots: nat)
    requires 7 <= slots
    ensures Inv(Boot(slots)) && CanPick(Boot(slots).ps) && Overdue(Boot(slots)) == 0
  {
    assert Boot(slots).ps[0].runnable;
  }

  function TicksLeft(ps: seq<Slot>): nat {
    if ps == [] then 0 else (if 0 < ps[0].ticks then ps[0].ticks else 0) + TicksLeft(ps[1..])
  }

  function Priorities(ps: seq<Slot>): int {
    if ps == [] then 0 else ps[0].priority + Priorities(ps[1..])
  }

  lemma {:induction false} PrioritiesAppend(ps: seq<Slot>, qs: seq<Slot>)
    ensures Priorities(ps + qs) == Priorities(ps) + Priorities(qs)
  {
    if ps == [] {
      assert ps + qs == qs;
    } else {
      PrioritiesAppend(ps[1..], qs);
      assert (ps + qs)[1..] == ps[1..] + qs;
    }
  }

  lemma {:induction false} EqualPriorities(n: nat, s: Slot)
    ensures Priorities(seq(n, _ => s)) == n * s.priority
  {
    if n != 0 {
      EqualPriorities(n - 1, s);
      assert seq(n, _ => s)[1..] == seq(n - 1, _ => s);
    }
  }

  /** The priorities after boot add up to 85, so nobody who stays runnable waits for more than 170 ticks. */
  lemma BootPriorities(slots: nat)
    requires 7 <= slots
    ensures Priorities(Boot(slots).ps) == 85
  {
    var tasks, procs := seq(5, _ => Slot(true, 15, 15)), seq(2, _ => Slot(true, 5, 5));
    var free := seq(slots - 7, _ => Slot(false, 0, 0));
    assert Boot(slots).ps == tasks + procs + free;
    PrioritiesAppend(tasks + procs, free);
    PrioritiesAppend(tasks, procs);
    EqualPriorities(5, Slot(true, 15, 15));
    EqualPriorities(2, Slot(true, 5, 5));
    EqualPriorities(slots - 7, Slot(false, 0, 0));
  }

  /** 1 if the running process has used up its ticks, which takes a nested tick. */
  function Overdue(s: State): nat
    requires s.current < |s.ps|
  {
    if 0 < s.ps[s.current].ticks then 0 else 1
  }

  /** The ticks left, and a whole refill more if `x` has none. */
  function Ahead(ps: seq<Slot>, x: nat): int
    requires x < |ps|
  {
    TicksLeft(ps) + if 0 < ps[x].ticks then 0 else Priorities(ps)
  }

  /** A bound on the ticks outside the kernel before `x` runs. */
  function Wait(s: State, x: nat): int
    requires x < |s.ps| && s.current < |s.ps|
  {
    Ahead(s.ps, x) + Overdue(s)
  }

  lemma {:induction false} TicksLeftBounded(ps: seq<Slot>)
    requires Bounded(ps)
    ensures TicksLeft(ps) <= Priorities(ps)
  {
    if ps != [] { TicksLeftBounded(ps[1..]); }
  }

  lemma {:induction false} TickSpendsOne(ps: seq<Slot>, c: nat)
    requires c < |ps|
    ensures TicksLeft(Ticked(ps, c)) == TicksLeft(ps) - if 0 < ps[c].ticks then 1 else 0
    ensures Priorities(Ticked(ps, c)) == Priorities(ps)
  {
    if c == 0 {
      assert Ticked(ps, 0)[1..] == ps[1..];
    } else {
      TickSpendsOne(ps[1..], c - 1);
      assert Ticked(ps, c)[1..] == Ticked(ps[1..], c - 1);
    }
  }

  lemma {:induction false} SamePriorities(ps: seq<Slot>, qs: seq<Slot>)
    requires |qs| == |ps| && forall i :: 0 <= i < |ps| ==> qs[i].priority == ps[i].priority
    ensures Priorities(qs) == Priorities(ps)
  {
    if ps != [] { SamePriorities(ps[1..], qs[1..]); }
  }

  lemma {:induction false} SameTicks(ps: seq<Slot>, qs: seq<Slot>)
    requires |qs| == |ps| && forall i :: 0 <= i < |ps| ==> qs[i].ticks == ps[i].ticks
    ensures TicksLeft(qs) == TicksLeft(ps)
  {
    if ps != [] { SameTicks(ps[1..], qs[1..]); }
  }

  lemma SettleKeepsWait(ps: seq<Slot>, x: nat)
    requires x < |ps| && ps[x].runnable && 0 < ps[x].priority && Bounded(ps)
    ensures |Settled(ps)| == |ps| && Ahead(Settled(ps), x) <= Ahead(ps, x) && Bounded(Settled(ps))
    ensures Priorities(Settled(ps)) == Priorities(ps) && Settled(ps)[x].priority == ps[x].priority
  {
    var qs := Settled(ps);
    assert forall i :: 0 <= i < |ps| ==> qs[i] == ps[i] || qs[i] == Refilled(ps[i]);
    SamePriorities(ps, qs);
    if !HasCandidate(ps) {
      assert !Candidate(ps[x]);
      TicksLeftBounded(qs);
      assert qs[x] == Refilled(ps[x]);
    }
  }

  /** What a step leaves of the wait of `x`, which is passed over. */
  ghost predicate Spends(s: State, s': State, x: nat, one: nat) {
    Inv(s) && Inv(s') && |s'.ps| == |s.ps| && x < |s.ps| && s'.ps[x].priority == s.ps[x].priority &&
    Priorities(s'.ps) == Priorities(s.ps) && Wait(s', x) + one <= Wait(s, x)
  }

  lemma TickSpends(s: State, e: Event, s': State, x: nat)
    requires Inv(s) && StepsTo(s, e, s') && x < |s.ps| && s.ps[x].runnable && 0 < s.ps[x].priority && s.current != x
    requires e == Tick
    ensures Spends(s, s', x, 1)
  {
    var ps := Ticked(s.ps, s.current);
    TickSpendsOne(s.ps, s.current);
    assert Bounded(ps);
    SettleKeepsWait(ps, x);
  }

  lemma NestedTickSpends(s: State, e: Event, s': State, x: nat)
    requires Inv(s) && StepsTo(s, e, s') && x < |s.ps| && s.current != x && e == NestedTick
    ensures Spends(s, s', x, 0)
  {
    TickSpendsOne(s.ps, s.current);
  }

  lemma FlagsSpend(s: State, e: Event, s': State, x: nat)
    requires Inv(s) && StepsTo(s, e, s') && x < |s.ps| && e == Flags
    ensures Spends(s, s', x, 0)
  {
    SamePriorities(s.ps, s'.ps);
    SameTicks(s.ps, s'.ps);
  }

  lemma RescheduleSpends(s: State, e: Event, s': State, x: nat)
    requires Inv(s) && StepsTo(s, e, s') && x < |s.ps| && s.ps[x].runnable && 0 < s.ps[x].priority && e == Reschedule
    ensures Spends(s, s', x, 0)
  {
    SettleKeepsWait(s.ps, x);
  }

  /** While `x` is passed over, every step keeps the invariant and does not lengthen the bound, and a tick
      outside the kernel uses up one unit of it. */
  lemma StepSpendsWait(s: State, e: Event, s': State, x: nat)
    requires Inv(s) && StepsTo(s, e, s') && x < |s.ps| && s.ps[x].runnable && 0 < s.ps[x].priority
    requires s.current != x
    ensures Spends(s, s', x, if e == Tick then 1 else 0)
  {
    match e
    case Tick => TickSpends(s, e, s', x);
    case NestedTick => NestedTickSpends(s, e, s', x);
    case Reschedule => RescheduleSpends(s, e, s', x);
    case Flags => FlagsSpend(s, e, s', x);
  }

  /** The clock ticks outside the kernel. */
  function TickCount(es: seq<Event>): nat {
    if es == [] then 0 else TickCount(es[..|es| - 1]) + if es[|es| - 1] == Tick then 1 else 0
  }

  ghost predicate IsRun(ss: seq<State>, es: seq<Event>) {
    |ss| == |es| + 1 && Inv(ss[0]) && forall i :: 0 <= i < |es| ==> StepsTo(ss[i], es[i], ss[i + 1])
  }

  lemma RunPrefix(ss: seq<State>, es: seq<Event>)
    requires IsRun(ss, es) && es != []
    ensures IsRun(ss[..|es|], es[..|es| - 1])
    ensures StepsTo(ss[|es| - 1], es[|es| - 1], ss[|es|])
  {
  }

  /** `x` is runnable and somebody else runs. */
  predicate PassedOver(s: State, x: nat) {
    s.current != x && x < |s.ps| && s.ps[x].runnable
  }

  lemma {:induction false} WaitIsSpent(ss: seq<State>, es: seq<Event>, x: nat)
    requires IsRun(ss, es) && x < |ss[0].ps| && 0 < ss[0].ps[x].priority
    requires forall s <- ss :: PassedOver(s, x)
    ensures Spends(ss[0], ss[|es|], x, TickCount(es))
    decreases |es|
  {
    if es != [] {
      var n := |es| - 1;
      RunPrefix(ss, es);
      WaitIsSpent(ss[..n + 1], es[..n], x);
      assert ss[n] in ss;
      StepSpendsWait(ss[n], es[n], ss[n + 1], x);
    }
  }

  /** No starvation: a process of positive priority that stays runnable is running at some point of
      every run with twice the sum of the priorities in clock ticks outside the kernel, and one more if
      the run starts with a process that has used up its ticks. */
  lemma RunnableIsSelected(ss: seq<State>, es: seq<Event>, x: nat)
    requires IsRun(ss, es) && x < |ss[0].ps| && 0 < ss[0].ps[x].priority
    requires forall i :: 0 <= i < |ss| ==> x < |ss[i].ps| && ss[i].ps[x].runnable
    requires 2 * Priorities(ss[0].ps) + Overdue(ss[0]) <= TickCount(es)
    ensures exists i :: 0 <= i < |ss| && ss[i].current == x
  {
    TicksLeftBounded(ss[0].ps);
    if forall i :: 0 <= i < |ss| ==> ss[i].current != x {
      WaitIsSpent(ss, es, x);
      TickSpendsOne(ss[|es|].ps, ss[|es|].current);
    }
  }
}
