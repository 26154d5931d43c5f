/** The life of forked processes as the memory manager sees it (mm/forkexit.c): fork, exit, wait,
    zombies, and the adoption of orphans by INIT. */
module Lifecycle {

  const INIT := 5
  const FIRST_FORKED := 7

  /** The fields do_fork, do_exit and do_wait use; the three flags are bits of `p_flags`. */
  datatype Slot = Slot(waiting: bool, hanging: bool, free: bool, parent: nat, status: int)

  /** The reply cleanup sends: the exit of `pid` with `status`, to `to`. */
  datatype Delivery = Delivery(to: nat, pid: nat, status: int)

  /** The process table, the exits so far, the replies sent for them, and the callers of wait that were
      told they have no child. */
  datatype State = State(ps: seq<Slot>, exits: seq<(nat, int)>, sent: seq<Delivery>, childless: seq<nat>)

  // ---------------------------------------------------------------- the operations

  /** cleanup: report the exit to the parent and free the slot; the rest of the slot stays as it is. */
  function Cleanup(s: State, i: nat): State
    requires i < |s.ps|
  {
    s.(ps := s.ps[i := s.ps[i].(waiting := false, hanging := false, free := true)],
       sent := s.sent + [Delivery(s.ps[i].parent, i, s.ps[i].status)])
  }

  function Unwait(s: State, p: nat): State
    requires p < |s.ps|
  {
    s.(ps := s.ps[p := s.ps[p].(waiting := false)])
  }

  predicate Alive(s: State, p: nat) {
    p < |s.ps| && !s.ps[p].free && !s.ps[p].hanging && !s.ps[p].waiting
  }

  /** do_fork into slot `child`: a copy of the parent's slot, with the parent recorded. */
  function Fork(s: State, parent: nat, child: nat): State
    requires parent < |s.ps| && child < |s.ps|
  {
    s.(ps := s.ps[child := s.ps[parent].(parent := parent)])
  }

  /** One turn of the loop of do_exit: a child of `pid` goes to INIT, which collects it if it can. */
  function AdoptOne(s: State, pid: nat, i: nat): State
    requires i < |s.ps| && INIT < |s.ps|
  {
    if s.ps[i].parent != pid then s
    else
      var t := s.(ps := s.ps[i := s.ps[i].(parent := INIT)]);
      if t.ps[i].hanging && t.ps[INIT].waiting then Cleanup(Unwait(t, INIT), i) else t
  }

  function AdoptFrom(s: State, pid: nat, i: nat): (t: State)
    requires INIT < |s.ps|
    ensures |t.ps| == |s.ps|
    decreases |s.ps| - i
  {
    if |s.ps| <= i then s else AdoptFrom(AdoptOne(s, pid, i), pid, i + 1)
  }

  /** do_exit up to the loop: report to a waiting parent, or hang until it waits. */
  function Leave(s: State, pid: nat, status: int): State
    requires pid < |s.ps| && s.ps[pid].parent < |s.ps|
  {
    var t := s.(ps := s.ps[pid := s.ps[pid].(status := status)], exits := s.exits + [(pid, status)]);
    var parent := s.ps[pid].parent;
    if t.ps[parent].waiting then Cleanup(Unwait(t, parent), pid)
    else t.(ps := t.ps[pid := t.ps[pid].(hanging := true)])
  }

  function Exit(s: State, pid: nat, status: int): State
    requires pid < |s.ps| && s.ps[pid].parent < |s.ps| && INIT < |s.ps|
  {
    AdoptFrom(Leave(s, pid, status), pid, 0)
  }

  /** The first child of `pid` from i on that hangs, or the size of the table. */
  function FirstHanging(ps: seq<Slot>, pid: nat, i: nat): (r: nat)
    requires i <= |ps|
    ensures i <= r <= |ps| && (r < |ps| ==> ps[r].parent == pid && ps[r].hanging)
    ensures forall k :: i <= k < r ==> !(ps[k].parent == pid && ps[k].hanging)
    decreases |ps| - i
  {
    if i == |ps| || (ps[i].parent == pid && ps[i].hanging) then i else FirstHanging(ps, pid, i + 1)
  }

  /** Some slot, in use or not, names `pid` as parent: what do_wait takes for having a child. */
  predicate Named(ps: seq<Slot>, pid: nat) {
    exists i :: 0 <= i < |ps| && ps[i].parent == pid
  }

  /** do_wait: collect the first hanging child, else block if some slot names the caller, else reply that
      there is no child. */
  function Wait(s: State, pid: nat): State
    requires pid < |s.ps|
  {
    var k := FirstHanging(s.ps, pid, 0);
    if k < |s.ps| then Cleanup(s, k)
    else if Named(s.ps, pid) then s.(ps := s.ps[pid := s.ps[pid].(waiting := true)])
    else s.(childless := s.childless + [pid])
  }

  // ---------------------------------------------------------------- the invariant

  ghost predicate SlotOk(ps: seq<Slot>, i: nat)
    requires i < |ps|
  {
    (ps[i].free ==> FIRST_FORKED <= i && !ps[i].waiting && !ps[i].hanging) &&
    (ps[i].hanging ==> FIRST_FORKED <= i && !ps[i].waiting) &&
    (i < FIRST_FORKED ==> |ps| <= ps[i].parent)
  }

  /** A live or hanging forked process has a parent that is neither gone nor hanging. */
  ghost predicate ParentOk(ps: seq<Slot>, i: nat)
    requires i < |ps|
  {
    FIRST_FORKED <= i && !ps[i].free ==>
      ps[i].parent < |ps| && ps[i].parent != i && !ps[ps[i].parent].free && !ps[ps[i].parent].hanging
  }

  /** Nobody waits for a child that already hangs. */
  ghost predicate NoLostExit(ps: seq<Slot>) {
    forall i :: 0 <= i < |ps| && ps[i].hanging && ps[i].parent < |ps| ==> !ps[ps[i].parent].waiting
  }

  ghost predicate Inv(s: State) {
    FIRST_FORKED <= |s.ps| && NoLostExit(s.ps) &&
    forall i :: 0 <= i < |s.ps| ==> SlotOk(s.ps, i) && ParentOk(s.ps, i)
  }

  /** Slot k inside do_exit: children of `pid` from i on are still to be adopted. */
  ghost predicate LeavingSlot(ps: seq<Slot>, pid: nat, i: nat, k: nat)
    requires k < |ps|
  {
    SlotOk(ps, k) && (ParentOk(ps, k) || (i <= k && ps[k].parent == pid)) && (k < i ==> ps[k].parent != pid)
  }

  /** The invariant inside do_exit. */
  ghost predicate Leaving(s: State, pid: nat, i: nat) {
    FIRST_FORKED <= |s.ps| && FIRST_FORKED <= pid < |s.ps| && NoLostExit(s.ps) &&
    (s.ps[pid].free || s.ps[pid].hanging) && !s.ps[pid].waiting && s.ps[pid].parent != pid &&
    forall k :: 0 <= k < |s.ps| ==> LeavingSlot(s.ps, pid, i, k)
  }

  lemma AdoptOneKeeps(s: State, pid: nat, i: nat)
    requires Leaving(s, pid, i) && i < |s.ps|
    ensures Leaving(AdoptOne(s, pid, i), pid, i + 1) && |AdoptOne(s, pid, i).ps| == |s.ps|
  {
    var t, j := AdoptOne(s, pid, i), i + 1;
    assert LeavingSlot(s.ps, pid, i, INIT) && LeavingSlot(s.ps, pid, i, i) && LeavingSlot(s.ps, pid, i, pid);
    forall k | 0 <= k < |t.ps| ensures LeavingSlot(t.ps, pid, j, k) {
      assert LeavingSlot(s.ps, pid, i, k);
    }
  }

  /** When the whole table has been gone through, nothing is left to adopt. */
  lemma AllAdopted(s: State, pid: nat)
    requires Leaving(s, pid, |s.ps|)
    ensures Inv(s)
  {
    forall k | 0 <= k < |s.ps| ensures SlotOk(s.ps, k) && ParentOk(s.ps, k) {
      assert LeavingSlot(s.ps, pid, |s.ps|, k);
    }
  }

  lemma {:induction false} AdoptKeeps(s: State, pid: nat, i: nat)
    requires Leaving(s, pid, i) && i <= |s.ps|
    ensures Inv(AdoptFrom(s, pid, i))
    decreases |s.ps| - i
  {
    if i == |s.ps| {
      AllAdopted(s, pid);
    } else {
      AdoptOneKeeps(s, pid, i);
      AdoptKeeps(AdoptOne(s, pid, i), pid, i + 1);
    }
  }

  lemma LeaveKeeps(s: State, pid: nat, status: int)
    requires Inv(s) && Alive(s, pid) && FIRST_FORKED <= pid
    ensures s.ps[pid].parent < |s.ps| && Leaving(Leave(s, pid, status), pid, 0)
    ensures |Leave(s, pid, status).ps| == |s.ps|
  {
    assert ParentOk(s.ps, pid) && SlotOk(s.ps, pid);
    var t := Leave(s, pid, status);
    forall k | 0 <= k < |t.ps| ensures LeavingSlot(t.ps, pid, 0, k) {
      assert SlotOk(s.ps, k) && ParentOk(s.ps, k);
    }
  }

  lemma ExitKeepsInv(s: State, pid: nat, status: int)
    requires Inv(s) && Alive(s, pid) && FIRST_FORKED <= pid
    ensures s.ps[pid].parent < |s.ps| && Inv(Exit(s, pid, status))
  {
    LeaveKeeps(s, pid, status);
    AdoptKeeps(Leave(s, pid, status), pid, 0);
  }

  lemma ForkKeepsInv(s: State, parent: nat, child: nat)
    requires Inv(s) && Alive(s, parent) && child < |s.ps| && s.ps[child].free
    ensures Inv(Fork(s, parent, child))
  {
    var t := Fork(s, parent, child);
    assert SlotOk(s.ps, child);
    forall k | 0 <= k < |t.ps| ensures SlotOk(t.ps, k) && ParentOk(t.ps, k) {
      assert SlotOk(s.ps, k) && ParentOk(s.ps, k);
    }
  }

  lemma WaitKeepsInv(s: State, pid: nat)
    requires Inv(s) && Alive(s, pid)
    ensures Inv(Wait(s, pid))
  {
    var t := Wait(s, pid);
    forall k | 0 <= k < |t.ps| ensures SlotOk(t.ps, k) && ParentOk(t.ps, k) {
      assert SlotOk(s.ps, k) && ParentOk(s.ps, k);
    }
  }

  // ---------------------------------------------------------------- every exit is reported once

  /** The exit statuses of `pid`, over all processes that have used the slot, in order. */
  function ExitsOf(log: seq<(nat, int)>, pid: nat): seq<int> {
    if log == [] then []
    else ExitsOf(log[..|log| - 1], pid) + if log[|log| - 1].0 == pid then [log[|log| - 1].1] else []
  }

  /** The statuses reported for `pid`, in order. */
  function ReportsOf(log: seq<Delivery>, pid: nat): seq<int> {
    if log == [] then []
    else ReportsOf(log[..|log| - 1], pid) + if log[|log| - 1].pid == pid then [log[|log| - 1].status] else []
  }

  /** The status still held in the slot of `pid`. */
  function Held(s: State, pid: nat): seq<int> {
    if pid < |s.ps| && s.ps[pid].hanging then [s.ps[pid].status] else []
  }

  ghost predicate Accounted(s: State, pid: nat) {
    ExitsOf(s.exits, pid) == ReportsOf(s.sent, pid) + Held(s, pid)
  }

  lemma CleanupAccounts(s: State, i: nat, pid: nat)
    requires i < |s.ps| && s.ps[i].hanging && Accounted(s, pid)
    ensures Accounted(Cleanup(s, i), pid)
  {
    ReportsGrow(s.sent, Delivery(s.ps[i].parent, i, s.ps[i].status), pid);
  }

  lemma AdoptOneAccounts(s: State, child: nat, i: nat, pid: nat)
    requires i < |s.ps| && INIT < |s.ps| && Accounted(s, pid)
    ensures Accounted(AdoptOne(s, child, i), pid)
  {
    if s.ps[i].parent == child {
      var t := s.(ps := s.ps[i := s.ps[i].(parent := INIT)]);
      assert Held(t, pid) == Held(s, pid);
      if t.ps[i].hanging && t.ps[INIT].waiting {
        assert Held(Unwait(t, INIT), pid) == Held(t, pid);
        CleanupAccounts(Unwait(t, INIT), i, pid);
      }
    }
  }

  lemma {:induction false} AdoptAccounts(s: State, child: nat, i: nat, pid: nat)
    requires INIT < |s.ps| && Accounted(s, pid)
    ensures Accounted(AdoptFrom(s, child, i), pid)
    decreases |s.ps| - i
  {
    if i < |s.ps| {
      AdoptOneAccounts(s, child, i, pid);
      AdoptAccounts(AdoptOne(s, child, i), child, i + 1, pid);
    }
  }

  lemma ExitsGrow(log: seq<(nat, int)>, e: (nat, int), pid: nat)
    ensures ExitsOf(log + [e], pid) == ExitsOf(log, pid) + if e.0 == pid then [e.1] else []
  {
    assert (log + [e])[..|log|] == log;
  }

  lemma ReportsGrow(log: seq<Delivery>, e: Delivery, pid: nat)
    ensures ReportsOf(log + [e], pid) == ReportsOf(log, pid) + if e.pid == pid then [e.status] else []
  {
    assert (log + [e])[..|log|] == log;
  }

  /** An exit that is reported at once is accounted for. */
  lemma ReportAccounts(s: State, i: nat, pid: nat)
    requires i < |s.ps| && !s.ps[i].hanging && Accounted(s, pid)
    ensures Accounted(Cleanup(s.(exits := s.exits + [(i, s.ps[i].status)]), i), pid)
  {
    ExitsGrow(s.exits, (i, s.ps[i].status), pid);
    ReportsGrow(s.sent, Delivery(s.ps[i].parent, i, s.ps[i].status), pid);
    var t := Cleanup(s.(exits := s.exits + [(i, s.ps[i].status)]), i);
    assert Held(t, pid) == Held(s, pid);
  }

  /** An exit whose status stays in the slot is accounted for. */
  lemma HangAccounts(s: State, i: nat, pid: nat)
    requires i < |s.ps| && !s.ps[i].hanging && Accounted(s, pid)
    ensures Accounted(s.(ps := s.ps[i := s.ps[i].(hanging := true)], exits := s.exits + [(i, s.ps[i].status)]), pid)
  {
    ExitsGrow(s.exits, (i, s.ps[i].status), pid);
  }

  lemma LeaveAccounts(s: State, who: nat, status: int, pid: nat)
    requires who < |s.ps| && s.ps[who].parent < |s.ps| && !s.ps[who].hanging && s.ps[who].parent != who
    requires Accounted(s, pid)
    ensures Accounted(Leave(s, who, status), pid)
  {
    var l := s.(ps := s.ps[who := s.ps[who].(status := status)]);
    assert Held(l, pid) == Held(s, pid);
    if s.ps[s.ps[who].parent].waiting {
      var u := Unwait(l, s.ps[who].parent);
      assert Held(u, pid) == Held(l, pid);
      ReportAccounts(u, who, pid);
    } else {
      HangAccounts(l, who, pid);
    }
  }

  // ---------------------------------------------------------------- whole runs

  datatype Event = DoFork(p: nat, child: nat) | DoExit(p: nat, status: int) | DoWait(p: nat)

  ghost predicate StepsTo(s: State, e: Event, t: State) {
    Alive(s, e.p) && INIT < |s.ps| &&
    match e
    case DoFork(p, child) => child < |s.ps| && s.ps[child].free && t == Fork(s, p, child)
    case DoExit(p, status) => FIRST_FORKED <= p && s.ps[p].parent < |s.ps| && t == Exit(s, p, status)
    case DoWait(p) => t == Wait(s, p)
  }

  /** kernel_main: the tasks and native processes run, the other slots are free. */
  ghost predicate Boot(s: State) {
    FIRST_FORKED <= |s.ps| && s.exits == [] && s.sent == [] && s.childless == [] &&
    forall i :: 0 <= i < |s.ps| ==>
      !s.ps[i].waiting && !s.ps[i].hanging && (s.ps[i].free <==> FIRST_FORKED <= i) &&
      if i < FIRST_FORKED then |s.ps| <= s.ps[i].parent else s.ps[i].parent == 0
  }

  ghost predicate IsRun(ss: seq<State>, es: seq<Event>) {
    |ss| == |es| + 1 && Boot(ss[0]) && forall i :: 0 <= i < |es| ==> StepsTo(ss[i], es[i], ss[i + 1])
  }

  /** Over every run of fork, exit and wait: no waiter misses a hanging child, and nobody in use has a
      parent that is free or hanging. */
  lemma {:induction false} RunsKeepInv(ss: seq<State>, es: seq<Event>, n: nat)
    requires IsRun(ss, es) && n <= |es|
    ensures Inv(ss[n])
    decreases n
  {
    if n != 0 {
      RunsKeepInv(ss, es, n - 1);
      var s := ss[n - 1];
      assert StepsTo(s, es[n - 1], ss[n]);
      match es[n - 1]
      case DoFork(p, child) => ForkKeepsInv(s, p, child);
      case DoExit(p, status) => ExitKeepsInv(s, p, status);
      case DoWait(p) => WaitKeepsInv(s, p);
    }
  }

  lemma StepAccounts(s: State, e: Event, t: State, pid: nat)
    requires Inv(s) && StepsTo(s, e, t) && Accounted(s, pid)
    ensures Accounted(t, pid)
  {
    match e
    case DoFork(p, child) => assert SlotOk(s.ps, child);
    case DoExit(p, status) =>
      assert ParentOk(s.ps, p);
      LeaveAccounts(s, p, status, pid);
      AdoptAccounts(Leave(s, p, status), p, 0, pid);
    case DoWait(p) =>
      var k := FirstHanging(s.ps, p, 0);
      if k < |s.ps| { CleanupAccounts(s, k, pid); }
  }

  /** Over every run and for every slot: the exits of its processes, in order, are those reported so
      far, followed by the one a hanging process still holds. */
  lemma {:induction false} ExitsReportedOnce(ss: seq<State>, es: seq<Event>, n: nat, pid: nat)
    requires IsRun(ss, es) && n <= |es|
    ensures Accounted(ss[n], pid)
    decreases n
  {
    if n != 0 {
      ExitsReportedOnce(ss, es, n - 1, pid);
      RunsKeepInv(ss, es, n - 1);
      StepAccounts(ss[n - 1], es[n - 1], ss[n], pid);
    }
  }

  // ---------------------------------------------------------------- who is told

  /** How many replies of `log` went to p. */
  function RepliesTo(log: seq<Delivery>, p: nat): nat {
    if log == [] then 0 else RepliesTo(log[..|log| - 1], p) + if log[|log| - 1].to == p then 1 else 0
  }

  function WaitingNow(s: State, p: nat): nat {
    if p < |s.ps| && s.ps[p].waiting then 1 else 0
  }

  /** Replies go only to processes that wait: each reply ends exactly one wait. */
  ghost predicate Answered(s: State, t: State, p: nat) {
    RepliesTo(t.sent, p) + WaitingNow(t, p) == RepliesTo(s.sent, p) + WaitingNow(s, p)
  }

  lemma AnswerOne(s: State, i: nat, p: nat)
    requires i < |s.ps| && s.ps[i].parent < |s.ps| && s.ps[s.ps[i].parent].waiting && !s.ps[i].waiting
    ensures Answered(s, Cleanup(Unwait(s, s.ps[i].parent), i), p)
  {
    var t := Cleanup(Unwait(s, s.ps[i].parent), i);
    assert t.sent[..|s.sent|] == s.sent;
  }

  /** A hanging process does not wait. */
  ghost predicate Calm(s: State) {
    INIT < |s.ps| && forall k :: 0 <= k < |s.ps| && s.ps[k].hanging ==> !s.ps[k].waiting
  }

  lemma AdoptOneAnswers(s: State, pid: nat, i: nat, p: nat)
    requires Calm(s) && i < |s.ps|
    ensures Calm(AdoptOne(s, pid, i)) && |AdoptOne(s, pid, i).ps| == |s.ps| && Answered(s, AdoptOne(s, pid, i), p)
  {
    if s.ps[i].parent == pid {
      var t := s.(ps := s.ps[i := s.ps[i].(parent := INIT)]);
      assert Answered(s, t, p);
      if t.ps[i].hanging && t.ps[INIT].waiting {
        AnswerOne(t, i, p);
      }
    }
  }

  lemma {:induction false} AdoptAnswers(s: State, pid: nat, i: nat, p: nat)
    requires Calm(s)
    ensures Answered(s, AdoptFrom(s, pid, i), p)
    decreases |s.ps| - i
  {
    if i < |s.ps| {
      AdoptOneAnswers(s, pid, i, p);
      AdoptAnswers(AdoptOne(s, pid, i), pid, i + 1, p);
    }
  }

  /** An exit answers exactly the waits it ends: that of the parent, and that of INIT for an adopted
      child that was already hanging. */
  lemma ExitAnswersWaits(s: State, pid: nat, status: int, p: nat)
    requires Inv(s) && Alive(s, pid) && FIRST_FORKED <= pid
    ensures s.ps[pid].parent < |s.ps| && Answered(s, Exit(s, pid, status), p)
    ensures s.ps[s.ps[pid].parent].waiting ==>
              Leave(s, pid, status).sent == s.sent + [Delivery(s.ps[pid].parent, pid, status)]
  {
    LeaveKeeps(s, pid, status);
    var l := Leave(s, pid, status);
    forall k | 0 <= k < |l.ps| && l.ps[k].hanging ensures !l.ps[k].waiting {
      assert LeavingSlot(l.ps, pid, 0, k);
    }
    AdoptAnswers(l, pid, 0, p);
    assert ParentOk(s.ps, pid) && SlotOk(s.ps, pid);
    if s.ps[s.ps[pid].parent].waiting {
      AnswerOne(s.(ps := s.ps[pid := s.ps[pid].(status := status)]), pid, p);
    }
  }

  /** Who should be told about `pid`, from the history alone: the process that forked it last, or INIT
      once that process has exited.  A slot never forked into has the 0 it starts with. */
  function Guardian(es: seq<Event>, pid: nat): nat {
    if es == [] then 0
    else
      var e, g := es[|es| - 1], Guardian(es[..|es| - 1], pid);
      match e
      case DoFork(p, child) => if child == pid then p else g
      case DoExit(p, _) => if g == p then INIT else g
      case DoWait(_) => g
  }

  lemma {:induction false} AdoptParents(s: State, pid: nat, i: nat, k: nat)
    requires INIT < |s.ps| && k < |s.ps| && pid != INIT
    ensures AdoptFrom(s, pid, i).ps[k].parent == if i <= k && s.ps[k].parent == pid then INIT else s.ps[k].parent
    decreases |s.ps| - i
  {
    if i < |s.ps| { AdoptParents(AdoptOne(s, pid, i), pid, i + 1, k); }
  }

  /** A step moves the recorded parent of a process exactly as it moves its guardian. */
  lemma StepKeepsGuardian(s: State, e: Event, t: State, es: seq<Event>, pid: nat)
    requires Inv(s) && StepsTo(s, e, t) && pid < |s.ps| && s.ps[pid].parent == Guardian(es, pid)
    ensures |t.ps| == |s.ps| && t.ps[pid].parent == Guardian(es + [e], pid)
  {
    assert (es + [e])[..|es|] == es;
    if e.DoExit? {
      AdoptParents(Leave(s, e.p, e.status), e.p, 0, pid);
    }
  }

  lemma {:induction false} SameSize(ss: seq<State>, es: seq<Event>, n: nat)
    requires IsRun(ss, es) && n <= |es|
    ensures |ss[n].ps| == |ss[0].ps|
    decreases n
  {
    if n != 0 {
      SameSize(ss, es, n - 1);
      assert StepsTo(ss[n - 1], es[n - 1], ss[n]);
    }
  }

  /** The recorded parent of every slot is its guardian, whether the slot is in use or was freed. */
  lemma {:induction false} ParentIsGuardian(ss: seq<State>, es: seq<Event>, n: nat, pid: nat)
    requires IsRun(ss, es) && n <= |es| && FIRST_FORKED <= pid < |ss[n].ps|
    ensures ss[n].ps[pid].parent == Guardian(es[..n], pid)
    decreases n
  {
    SameSize(ss, es, n);
    if n != 0 {
      SameSize(ss, es, n - 1);
      RunsKeepInv(ss, es, n - 1);
      assert StepsTo(ss[n - 1], es[n - 1], ss[n]);
      assert es[..n] == es[..n - 1] + [es[n - 1]];
      ParentIsGuardian(ss, es, n - 1, pid);
      StepKeepsGuardian(ss[n - 1], es[n - 1], ss[n], es[..n - 1], pid);
    }
  }

  /** A reply is about a process that was in use in `s`, and goes to the parent recorded in `t`. */
  predicate Told(s: State, t: State, d: Delivery) {
    FIRST_FORKED <= d.pid < |s.ps| && |t.ps| == |s.ps| && !s.ps[d.pid].free && d.to == t.ps[d.pid].parent
  }

  /** Hanging processes are forked ones in use, and do not wait. */
  ghost predicate Hangers(s: State) {
    INIT < |s.ps| &&
    forall k :: 0 <= k < |s.ps| && s.ps[k].hanging ==> FIRST_FORKED <= k && !s.ps[k].free && !s.ps[k].waiting
  }

  lemma AdoptOneTells(s: State, pid: nat, i: nat)
    requires Hangers(s) && i < |s.ps|
    ensures var g := AdoptOne(s, pid, i);
            |g.ps| == |s.ps| && Hangers(g) && (forall k :: 0 <= k < |s.ps| && !g.ps[k].free ==> !s.ps[k].free) &&
            (g.sent == s.sent ||
             (g.sent == s.sent + [Delivery(INIT, i, s.ps[i].status)] && FIRST_FORKED <= i && !s.ps[i].free &&
              g.ps[i].parent == INIT))
  {
  }

  lemma {:induction false} AdoptTells(s: State, pid: nat, i: nat)
    requires Hangers(s) && pid != INIT
    ensures var t := AdoptFrom(s, pid, i);
            |s.sent| <= |t.sent| && t.sent[..|s.sent|] == s.sent && forall d <- t.sent[|s.sent|..] :: Told(s, t, d)
    decreases |s.ps| - i
  {
    if i < |s.ps| {
      var g := AdoptOne(s, pid, i);
      AdoptOneTells(s, pid, i);
      AdoptTells(g, pid, i + 1);
      AdoptParents(g, pid, i + 1, i);
      var t := AdoptFrom(g, pid, i + 1);
      assert t.sent[..|s.sent|] == t.sent[..|g.sent|][..|s.sent|];
      assert t.sent[|s.sent|..] == g.sent[|s.sent|..] + t.sent[|g.sent|..];
      forall d <- t.sent[|g.sent|..] ensures Told(s, t, d) {
        assert Told(g, t, d);
      }
    }
  }

  /** Before the loop of do_exit at most one reply is sent: about the caller, to its parent. */
  lemma LeaveTells(s: State, pid: nat, status: int)
    requires Inv(s) && Alive(s, pid) && FIRST_FORKED <= pid
    ensures s.ps[pid].parent < |s.ps| && s.ps[pid].parent != pid
    ensures var l := Leave(s, pid, status);
            |l.ps| == |s.ps| && Hangers(l) && l.ps[pid].parent == s.ps[pid].parent &&
            (l.sent == s.sent || l.sent == s.sent + [Delivery(s.ps[pid].parent, pid, status)]) &&
            forall k :: 0 <= k < |l.ps| && !l.ps[k].free ==> !s.ps[k].free
  {
    assert SlotOk(s.ps, pid) && ParentOk(s.ps, pid);
    var l := Leave(s, pid, status);
    forall k | 0 <= k < |l.ps| ensures l.ps[k].hanging ==> FIRST_FORKED <= k && !l.ps[k].free && !l.ps[k].waiting {
      assert SlotOk(s.ps, k);
    }
  }

  lemma ExitTellsParent(s: State, pid: nat, status: int)
    requires Inv(s) && Alive(s, pid) && FIRST_FORKED <= pid
    ensures s.ps[pid].parent < |s.ps|
    ensures var t := Exit(s, pid, status);
            |s.sent| <= |t.sent| && t.sent[..|s.sent|] == s.sent && forall d <- t.sent[|s.sent|..] :: Told(s, t, d)
  {
    LeaveTells(s, pid, status);
    var l := Leave(s, pid, status);
    var t := AdoptFrom(l, pid, 0);
    AdoptTells(l, pid, 0);
    AdoptParents(l, pid, 0, pid);
    assert t.sent[..|s.sent|] == t.sent[..|l.sent|][..|s.sent|];
    assert t.sent[|s.sent|..] == l.sent[|s.sent|..] + t.sent[|l.sent|..];
    forall d <- t.sent[|l.sent|..] ensures Told(s, t, d) {
      assert Told(l, t, d);
    }
  }

  lemma StepTellsParent(s: State, e: Event, t: State)
    requires Inv(s) && StepsTo(s, e, t)
    ensures |s.sent| <= |t.sent| && t.sent[..|s.sent|] == s.sent && forall d <- t.sent[|s.sent|..] :: Told(s, t, d)
  {
    match e
    case DoFork(p, child) =>
    case DoExit(p, status) => ExitTellsParent(s, p, status);
    case DoWait(p) =>
      var k := FirstHanging(s.ps, p, 0);
      if k < |s.ps| { assert SlotOk(s.ps, k); }
  }

  /** Over every run: every reply goes to the guardian of the process it reports, that is to the process
      that forked it, or to INIT if that one had exited. */
  lemma RepliesGoToGuardian(ss: seq<State>, es: seq<Event>, n: nat)
    requires IsRun(ss, es) && n < |es|
    ensures |ss[n].sent| <= |ss[n + 1].sent| &&
            forall d <- ss[n + 1].sent[|ss[n].sent|..] :: d.to == Guardian(es[..n + 1], d.pid)
  {
    RunsKeepInv(ss, es, n);
    assert StepsTo(ss[n], es[n], ss[n + 1]);
    assert es[..n + 1] == es[..n] + [es[n]];
    StepTellsParent(ss[n], es[n], ss[n + 1]);
    forall d <- ss[n + 1].sent[|ss[n].sent|..] ensures d.to == Guardian(es[..n + 1], d.pid) {
      assert Told(ss[n], ss[n + 1], d);
      ParentIsGuardian(ss, es, n, d.pid);
      StepKeepsGuardian(ss[n], es[n], ss[n + 1], es[..n], d.pid);
    }
  }

  // ---------------------------------------------------------------- what each call does, slot by slot

  /** Slot k is the first in the table whose process hangs and has `pid` as parent. */
  ghost predicate FirstZombie(ps: seq<Slot>, pid: nat, k: nat) {
    k < |ps| && ps[k].hanging && ps[k].parent == pid &&
    forall i :: 0 <= i < k ==> !(ps[i].hanging && ps[i].parent == pid)
  }

  /** What do_wait does: it collects the first hanging child; else it leaves the caller waiting if some slot
      names it, and tells it that it has no child if none does.  Nothing else changes. */
  ghost predicate WaitSettled(s: State, pid: nat, t: State) {
    pid < |s.ps| && t.exits == s.exits &&
    if exists i :: 0 <= i < |s.ps| && s.ps[i].hanging && s.ps[i].parent == pid
    then t.childless == s.childless &&
         exists k: nat :: FirstZombie(s.ps, pid, k) && t.sent == s.sent + [Delivery(pid, k, s.ps[k].status)] &&
                     t.ps == s.ps[k := Slot(false, false, true, pid, s.ps[k].status)]
    else if exists i :: 0 <= i < |s.ps| && s.ps[i].parent == pid
    then t.sent == s.sent && t.childless == s.childless && t.ps == s.ps[pid := s.ps[pid].(waiting := true)]
    else t.sent == s.sent && t.childless == s.childless + [pid] && t.ps == s.ps
  }

  /** The caller is left waiting exactly when some slot names it as parent and no such slot hangs. */
  lemma WaitDecides(s: State, pid: nat)
    requires Inv(s) && Alive(s, pid)
    ensures WaitSettled(s, pid, Wait(s, pid)) && |Wait(s, pid).ps| == |s.ps|
    ensures Wait(s, pid).ps[pid].waiting <==>
            (exists i :: 0 <= i < |s.ps| && s.ps[i].parent == pid) &&
            forall i :: 0 <= i < |s.ps| && s.ps[i].parent == pid ==> !s.ps[i].hanging
  {
    var k := FirstHanging(s.ps, pid, 0);
    if k < |s.ps| {
      assert SlotOk(s.ps, k) && ParentOk(s.ps, k);
      assert FirstZombie(s.ps, pid, k);
    }
  }

  /** do_fork: the child's slot is in use with the caller as parent, and nothing else changes. */
  lemma ForkDecides(s: State, parent: nat, child: nat)
    requires Inv(s) && Alive(s, parent) && child < |s.ps| && s.ps[child].free
    ensures var t := Fork(s, parent, child);
            |t.ps| == |s.ps| && t.ps[child] == Slot(false, false, false, parent, s.ps[parent].status) &&
            (forall i :: 0 <= i < |s.ps| && i != child ==> t.ps[i] == s.ps[i]) &&
            t.exits == s.exits && t.sent == s.sent && t.childless == s.childless
  {
  }

  /** From slot i on the children of `pid` have become children of INIT, and nothing else changed. */
  ghost predicate Moved(s: State, t: State, pid: nat, i: nat) {
    |t.ps| == |s.ps| && t.exits == s.exits && t.sent == s.sent && t.childless == s.childless &&
    forall k :: 0 <= k < |s.ps| ==>
      t.ps[k] == if i <= k && s.ps[k].parent == pid then s.ps[k].(parent := INIT) else s.ps[k]
  }

  lemma {:induction false} AdoptMoves(s: State, pid: nat, i: nat)
    requires INIT < |s.ps| && s.ps[INIT].parent != pid && pid != INIT
    requires s.ps[INIT].waiting ==> forall k :: i <= k < |s.ps| ==> !(s.ps[k].hanging && s.ps[k].parent == pid)
    ensures Moved(s, AdoptFrom(s, pid, i), pid, i)
    decreases |s.ps| - i
  {
    if i < |s.ps| { AdoptMoves(AdoptOne(s, pid, i), pid, i + 1); }
  }

  /** A waiting INIT collects the first hanging child of `pid` from slot i on, and no other. */
  lemma {:induction false} AdoptCollects(s: State, pid: nat, i: nat, z: nat)
    requires INIT < |s.ps| && s.ps[INIT].parent != pid && pid != INIT && s.ps[INIT].waiting && !s.ps[INIT].hanging
    requires i <= z < |s.ps| && s.ps[z].hanging && s.ps[z].parent == pid
    requires forall k :: i <= k < z ==> !(s.ps[k].hanging && s.ps[k].parent == pid)
    ensures Moved(Cleanup(Unwait(s.(ps := s.ps[z := s.ps[z].(parent := INIT)]), INIT), z), AdoptFrom(s, pid, i), pid, i)
    decreases |s.ps| - i
  {
    if i < z {
      AdoptCollects(AdoptOne(s, pid, i), pid, i + 1, z);
    } else {
      AdoptMoves(AdoptOne(s, pid, i), pid, i + 1);
    }
  }

  /** INIT waits when the loop of do_exit begins: the caller's parent is no longer waiting then. */
  predicate InitWaits(ps: seq<Slot>, pid: nat)
    requires pid < |ps| && INIT < |ps|
  {
    ps[INIT].waiting && ps[pid].parent != INIT
  }

  /** Slot i after the exit of `pid`, when slot z (if any) is collected by INIT. */
  function SlotAfterExit(ps: seq<Slot>, pid: nat, status: int, i: nat, z: int): Slot
    requires pid < |ps| && i < |ps| && ps[pid].parent < |ps|
  {
    var told := ps[ps[pid].parent].waiting;
    if i == pid then Slot(false, !told, told, ps[pid].parent, status)
    else Slot(ps[i].waiting && i != ps[pid].parent && !(i == INIT && 0 <= z), ps[i].hanging && i != z,
              ps[i].free || i == z, if ps[i].parent == pid then INIT else ps[i].parent, ps[i].status)
  }

  /** What do_exit does: the parent is told if it waits, and the caller hangs otherwise; every child goes to
      INIT, which collects the first that hangs if it waits; nothing else changes.  z is that child, or -1. */
  ghost predicate ExitSettled(s: State, pid: nat, status: int, t: State, z: int) {
    INIT < |s.ps| && pid < |s.ps| && s.ps[pid].parent < |s.ps| && |t.ps| == |s.ps| &&
    (if InitWaits(s.ps, pid) && exists i :: 0 <= i < |s.ps| && s.ps[i].hanging && s.ps[i].parent == pid
     then 0 <= z && FirstZombie(s.ps, pid, z) else z == -1) &&
    (forall i :: 0 <= i < |s.ps| ==> t.ps[i] == SlotAfterExit(s.ps, pid, status, i, z)) &&
    t.exits == s.exits + [(pid, status)] && t.childless == s.childless &&
    t.sent == s.sent + (if s.ps[s.ps[pid].parent].waiting then [Delivery(s.ps[pid].parent, pid, status)] else []) +
              (if 0 <= z then [Delivery(INIT, z, s.ps[z].status)] else [])
  }

  /** The state before the loop of do_exit, slot by slot. */
  ghost predicate HasLeft(s: State, pid: nat, status: int, l: State) {
    pid < |s.ps| && s.ps[pid].parent < |s.ps| && s.ps[pid].parent != pid && |l.ps| == |s.ps| &&
    var q, told := s.ps[pid].parent, s.ps[s.ps[pid].parent].waiting;
    l.ps[pid] == Slot(false, !told, told, q, status) &&
    (forall i :: 0 <= i < |s.ps| && i != pid ==>
       l.ps[i] == if i == q then s.ps[i].(waiting := false) else s.ps[i]) &&
    l.exits == s.exits + [(pid, status)] && l.childless == s.childless &&
    l.sent == s.sent + if told then [Delivery(q, pid, status)] else []
  }

  lemma LeaveDecides(s: State, pid: nat, status: int)
    requires Inv(s) && Alive(s, pid) && FIRST_FORKED <= pid
    ensures s.ps[pid].parent < |s.ps| && s.ps[INIT].parent != pid && HasLeft(s, pid, status, Leave(s, pid, status))
  {
    assert SlotOk(s.ps, pid) && ParentOk(s.ps, pid) && SlotOk(s.ps, INIT);
  }

  /** The loop of do_exit when INIT has nothing to collect. */
  lemma ExitMoves(s: State, pid: nat, status: int)
    requires Inv(s) && Alive(s, pid) && FIRST_FORKED <= pid
    requires InitWaits(s.ps, pid) ==> forall i :: 0 <= i < |s.ps| ==> !(s.ps[i].hanging && s.ps[i].parent == pid)
    ensures s.ps[pid].parent < |s.ps| && ExitSettled(s, pid, status, Exit(s, pid, status), -1)
  {
    LeaveDecides(s, pid, status);
    assert SlotOk(s.ps, INIT);
    AdoptMoves(Leave(s, pid, status), pid, 0);
  }

  lemma CollectedSlots(s: State, pid: nat, status: int, l: State, c: State, t: State, z: nat)
    requires Inv(s) && HasLeft(s, pid, status, l) && FIRST_FORKED <= pid && INIT != s.ps[pid].parent
    requires FirstZombie(s.ps, pid, z) && INIT < z && z != pid
    requires c == Cleanup(Unwait(l.(ps := l.ps[z := l.ps[z].(parent := INIT)]), INIT), z) && Moved(c, t, pid, 0)
    ensures forall i :: 0 <= i < |s.ps| ==> t.ps[i] == SlotAfterExit(s.ps, pid, status, i, z)
  {
    assert SlotOk(s.ps, z) && SlotOk(s.ps, INIT);
  }

  /** The loop of do_exit when a waiting INIT collects slot z. */
  lemma ExitCollects(s: State, pid: nat, status: int, z: nat)
    requires Inv(s) && Alive(s, pid) && FIRST_FORKED <= pid && InitWaits(s.ps, pid) && FirstZombie(s.ps, pid, z)
    ensures s.ps[pid].parent < |s.ps| && ExitSettled(s, pid, status, Exit(s, pid, status), z)
  {
    LeaveDecides(s, pid, status);
    assert SlotOk(s.ps, INIT) && SlotOk(s.ps, z) && ParentOk(s.ps, z);
    var l := Leave(s, pid, status);
    AdoptCollects(l, pid, 0, z);
    var c := Cleanup(Unwait(l.(ps := l.ps[z := l.ps[z].(parent := INIT)]), INIT), z);
    CollectedSlots(s, pid, status, l, c, Exit(s, pid, status), z);
  }

  lemma ExitDecides(s: State, pid: nat, status: int) returns (z: int)
    requires Inv(s) && Alive(s, pid) && FIRST_FORKED <= pid
    ensures s.ps[pid].parent < |s.ps| && ExitSettled(s, pid, status, Exit(s, pid, status), z)
  {
    var k := FirstHanging(s.ps, pid, 0);
    if InitWaits(s.ps, pid) && k < |s.ps| {
      z := k;
      ExitCollects(s, pid, status, k);
    } else {
      z := -1;
      ExitMoves(s, pid, status);
    }
  }

  /** How often the history has `p` call wait. */
  function Waits(es: seq<Event>, p: nat): nat {
    if es == [] then 0 else Waits(es[..|es| - 1], p) + if es[|es| - 1] == DoWait(p) then 1 else 0
  }

  /** How often `p` was told that it has no child. */
  function ToldChildless(log: seq<nat>, p: nat): nat {
    if log == [] then 0 else ToldChildless(log[..|log| - 1], p) + if log[|log| - 1] == p then 1 else 0
  }

  lemma RepliesGrow(log: seq<Delivery>, d: Delivery, p: nat)
    ensures RepliesTo(log + [d], p) == RepliesTo(log, p) + if d.to == p then 1 else 0
  {
    assert (log + [d])[..|log|] == log;
  }

  lemma ToldGrows(log: seq<nat>, x: nat, p: nat)
    ensures ToldChildless(log + [x], p) == ToldChildless(log, p) + if x == p then 1 else 0
  {
    assert (log + [x])[..|log|] == log;
  }

  /** The waits of `p` so far: answered with a child, answered without one, or not answered yet. */
  function WaitsOf(s: State, p: nat): nat {
    RepliesTo(s.sent, p) + ToldChildless(s.childless, p) + WaitingNow(s, p)
  }

  lemma WaitCounts(s: State, pid: nat, p: nat)
    requires Inv(s) && Alive(s, pid)
    ensures WaitsOf(Wait(s, pid), p) == WaitsOf(s, p) + if p == pid then 1 else 0
  {
    WaitDecides(s, pid);
    var k := FirstHanging(s.ps, pid, 0);
    if k < |s.ps| {
      assert SlotOk(s.ps, k);
      RepliesGrow(s.sent, Delivery(pid, k, s.ps[k].status), p);
    }
    ToldGrows(s.childless, pid, p);
  }

  lemma StepCountsWaits(s: State, e: Event, t: State, p: nat)
    requires Inv(s) && StepsTo(s, e, t)
    ensures WaitsOf(t, p) == WaitsOf(s, p) + if e == DoWait(p) then 1 else 0
  {
    match e
    case DoFork(q, child) => assert SlotOk(s.ps, child);
    case DoExit(q, status) =>
      ExitAnswersWaits(s, q, status, p);
      var z := ExitDecides(s, q, status);
    case DoWait(q) => WaitCounts(s, q, p);
  }

  /** Over every run and for every process: each call of wait was answered exactly once, with a child or
      with the news that there is none, except for the one the process is still waiting in. */
  lemma {:induction false} WaitsAnsweredOnce(ss: seq<State>, es: seq<Event>, n: nat, p: nat)
    requires IsRun(ss, es) && n <= |es|
    ensures Waits(es[..n], p) == RepliesTo(ss[n].sent, p) + ToldChildless(ss[n].childless, p) + WaitingNow(ss[n], p)
    decreases n
  {
    if n != 0 {
      WaitsAnsweredOnce(ss, es, n - 1, p);
      RunsKeepInv(ss, es, n - 1);
      assert StepsTo(ss[n - 1], es[n - 1], ss[n]);
      assert es[..n][..n - 1] == es[..n - 1];
      StepCountsWaits(ss[n - 1], es[n - 1], ss[n], p);
    }
  }

  /** Over every run: a call of wait is answered at once or leaves its caller waiting, as WaitSettled says. */
  lemma WaitsAreSettled(ss: seq<State>, es: seq<Event>, n: nat)
    requires IsRun(ss, es) && n < |es| && es[n].DoWait?
    ensures WaitSettled(ss[n], es[n].p, ss[n + 1])
  {
    RunsKeepInv(ss, es, n);
    assert StepsTo(ss[n], es[n], ss[n + 1]);
    WaitDecides(ss[n], es[n].p);
  }

  // ---------------------------------------------------------------- waiting without children

  /** The process would block in do_wait although none of its children is left. */
  ghost predicate BlocksChildless(s: State, pid: nat) {
    Alive(s, pid) && (forall i :: 0 <= i < |s.ps| && s.ps[i].parent == pid ==> s.ps[i].free) &&
    Wait(s, pid).ps[pid].waiting
  }

  /** do_wait blocks a childless caller exactly when a freed slot still names it and every slot that does
      is free. */
  lemma BlocksChildlessIff(s: State, pid: nat)
    requires Inv(s) && Alive(s, pid)
    ensures BlocksChildless(s, pid) <==>
            Named(s.ps, pid) && forall i :: 0 <= i < |s.ps| && s.ps[i].parent == pid ==> s.ps[i].free
  {
    var k := FirstHanging(s.ps, pid, 0);
    if k < |s.ps| {
      assert SlotOk(s.ps, k);
    }
  }

  /** How often the history forks into slot `pid`. */
  function Forks(es: seq<Event>, pid: nat): nat {
    if es == [] then 0
    else Forks(es[..|es| - 1], pid) + if es[|es| - 1].DoFork? && es[|es| - 1].child == pid then 1 else 0
  }

  /** How many exits of processes in slot `pid` have been reported. */
  function Reports(log: seq<Delivery>, pid: nat): nat {
    |ReportsOf(log, pid)|
  }

  /** One process for every fork that has not been reported yet. */
  ghost predicate Balanced(s: State, forks: nat, pid: nat) {
    pid < |s.ps| && forks == Reports(s.sent, pid) + if s.ps[pid].free then 0 else 1
  }

  lemma CleanupBalances(s: State, i: nat, forks: nat, pid: nat)
    requires i < |s.ps| && !s.ps[i].free && Balanced(s, forks, pid)
    ensures Balanced(Cleanup(s, i), forks, pid)
  {
    assert Cleanup(s, i).sent[..|s.sent|] == s.sent;
  }

  lemma AdoptOneBalances(s: State, who: nat, i: nat, forks: nat, pid: nat)
    requires Hangers(s) && i < |s.ps| && Balanced(s, forks, pid)
    ensures Hangers(AdoptOne(s, who, i)) && |AdoptOne(s, who, i).ps| == |s.ps|
    ensures Balanced(AdoptOne(s, who, i), forks, pid)
  {
    AdoptOneTells(s, who, i);
    if s.ps[i].parent == who {
      var t := s.(ps := s.ps[i := s.ps[i].(parent := INIT)]);
      if t.ps[i].hanging && t.ps[INIT].waiting {
        CleanupBalances(Unwait(t, INIT), i, forks, pid);
      }
    }
  }

  lemma {:induction false} AdoptBalances(s: State, who: nat, i: nat, forks: nat, pid: nat)
    requires Hangers(s) && Balanced(s, forks, pid)
    ensures Balanced(AdoptFrom(s, who, i), forks, pid)
    decreases |s.ps| - i
  {
    if i < |s.ps| {
      AdoptOneBalances(s, who, i, forks, pid);
      AdoptBalances(AdoptOne(s, who, i), who, i + 1, forks, pid);
    }
  }

  lemma LeaveBalances(s: State, who: nat, status: int, forks: nat, pid: nat)
    requires Inv(s) && Alive(s, who) && FIRST_FORKED <= who && Balanced(s, forks, pid)
    ensures s.ps[who].parent < |s.ps| && Hangers(Leave(s, who, status)) && Balanced(Leave(s, who, status), forks, pid)
  {
    LeaveTells(s, who, status);
    assert Leave(s, who, status).sent[..|s.sent|] == s.sent;
  }

  lemma StepBalances(s: State, e: Event, t: State, es: seq<Event>, pid: nat)
    requires Inv(s) && StepsTo(s, e, t) && Balanced(s, Forks(es, pid), pid)
    ensures Balanced(t, Forks(es + [e], pid), pid)
  {
    assert (es + [e])[..|es|] == es;
    match e
    case DoFork(p, child) =>
    case DoExit(p, status) =>
      LeaveBalances(s, p, status, Forks(es, pid), pid);
      AdoptBalances(Leave(s, p, status), p, 0, Forks(es, pid), pid);
    case DoWait(p) =>
      var k := FirstHanging(s.ps, p, 0);
      if k < |s.ps| {
        assert SlotOk(s.ps, k);
        CleanupBalances(s, k, Forks(es, pid), pid);
      }
  }

  /** Over every run: a slot is free exactly when every fork into it has been reported. */
  lemma {:induction false} FreeIffReported(ss: seq<State>, es: seq<Event>, n: nat, pid: nat)
    requires IsRun(ss, es) && n <= |es| && FIRST_FORKED <= pid < |ss[n].ps|
    ensures Balanced(ss[n], Forks(es[..n], pid), pid)
    decreases n
  {
    SameSize(ss, es, n);
    if n != 0 {
      SameSize(ss, es, n - 1);
      RunsKeepInv(ss, es, n - 1);
      assert StepsTo(ss[n - 1], es[n - 1], ss[n]);
      assert es[..n] == es[..n - 1] + [es[n - 1]];
      FreeIffReported(ss, es, n - 1, pid);
      StepBalances(ss[n - 1], es[n - 1], ss[n], es[..n - 1], pid);
    }
  }

  /** Slot `c` is in the care of `pid`, by the history alone. */
  predicate InCare(es: seq<Event>, size: nat, pid: nat, c: nat) {
    FIRST_FORKED <= c < size && Guardian(es, c) == pid
  }

  /** Over every run: do_wait blocks a caller that has no child left exactly when the history has put some
      slot into its care, by a fork of its own or an inherited child, and everything ever forked into the
      slots in its care has already been reported. */
  lemma ChildlessBlocksIff(ss: seq<State>, es: seq<Event>, n: nat, pid: nat)
    requires IsRun(ss, es) && n <= |es| && Alive(ss[n], pid)
    ensures BlocksChildless(ss[n], pid) <==>
            (exists c :: InCare(es[..n], |ss[n].ps|, pid, c)) &&
            forall c :: InCare(es[..n], |ss[n].ps|, pid, c) ==> Forks(es[..n], c) == Reports(ss[n].sent, c)
  {
    var s, size := ss[n], |ss[n].ps|;
    RunsKeepInv(ss, es, n);
    BlocksChildlessIff(s, pid);
    forall c | 0 <= c < size
      ensures s.ps[c].parent == pid <==> InCare(es[..n], size, pid, c)
      ensures InCare(es[..n], size, pid, c) ==> (s.ps[c].free <==> Forks(es[..n], c) == Reports(s.sent, c))
    {
      assert SlotOk(s.ps, c);
      if FIRST_FORKED <= c {
        ParentIsGuardian(ss, es, n, c);
        FreeIffReported(ss, es, n, c);
      }
    }
  }

  /** Over every run: do_wait replies that there is no child exactly when the history has put no slot into
      the care of the caller. */
  lemma ToldChildlessIff(ss: seq<State>, es: seq<Event>, n: nat, pid: nat)
    requires IsRun(ss, es) && n <= |es| && Alive(ss[n], pid)
    ensures Wait(ss[n], pid).childless == ss[n].childless + [pid] <==> !exists c :: InCare(es[..n], |ss[n].ps|, pid, c)
  {
    var s, size := ss[n], |ss[n].ps|;
    RunsKeepInv(ss, es, n);
    forall c | 0 <= c < size ensures s.ps[c].parent == pid <==> InCare(es[..n], size, pid, c) {
      assert SlotOk(s.ps, c);
      if FIRST_FORKED <= c {
        ParentIsGuardian(ss, es, n, c);
      }
    }
    assert |s.childless + [pid]| != |s.childless|;
  }

  lemma {:induction false} AdoptNobody(s: State, pid: nat, i: nat)
    requires INIT < |s.ps| && forall k :: i <= k < |s.ps| ==> s.ps[k].parent != pid
    ensures AdoptFrom(s, pid, i) == s
    decreases |s.ps| - i
  {
    if i < |s.ps| { AdoptNobody(s, pid, i + 1); }
  }

  /** A table of the native processes and two more slots. */
  function Small(a: Slot, b: Slot): (ps: seq<Slot>)
    ensures |ps| == 9 && ps[7] == a && ps[8] == b
    ensures forall i :: 0 <= i < 7 ==> ps[i] == Slot(false, false, false, 57, 0)
  {
    seq(9, i => if i < 7 then Slot(false, false, false, 57, 0) else if i == 7 then a else b)
  }

  const UNUSED := Slot(false, false, true, 0, 0)
  const CHILD := Slot(false, false, false, INIT, 0)

  lemma SmallForks()
    ensures Fork(State(Small(UNUSED, UNUSED), [], [], []), INIT, 7) == State(Small(CHILD, UNUSED), [], [], [])
    ensures Fork(State(Small(CHILD, UNUSED), [], [], []), 7, 8)
         == State(Small(CHILD, Slot(false, false, false, 7, 0)), [], [], [])
  {
  }

  lemma SmallExit()
    ensures Exit(State(Small(CHILD, Slot(false, false, false, 7, 0)), [], [], []), 8, 3)
         == State(Small(CHILD, Slot(false, true, false, 7, 3)), [(8, 3)], [], [])
  {
    var s := State(Small(CHILD, Slot(false, false, false, 7, 0)), [], [], []);
    var t := State(Small(CHILD, Slot(false, true, false, 7, 3)), [(8, 3)], [], []);
    assert s.ps[8 := Slot(false, false, false, 7, 3)][8 := Slot(false, true, false, 7, 3)] == t.ps;
    assert Leave(s, 8, 3) == t;
    AdoptNobody(t, 8, 0);
  }

  lemma SmallWait()
    ensures Wait(State(Small(CHILD, Slot(false, true, false, 7, 3)), [(8, 3)], [], []), 7)
         == State(Small(CHILD, Slot(false, false, true, 7, 3)), [(8, 3)], [Delivery(7, 8, 3)], [])
  {
  }

  /** INIT forks 7, 7 forks 8, 8 exits, 7 collects it and waits again: it blocks. */
  lemma WaitMayBlockChildless()
    ensures exists ss: seq<State>, es: seq<Event> :: IsRun(ss, es) && BlocksChildless(ss[|es|], 7)
  {
    var s0, s1 := State(Small(UNUSED, UNUSED), [], [], []), State(Small(CHILD, UNUSED), [], [], []);
    var s2 := State(Small(CHILD, Slot(false, false, false, 7, 0)), [], [], []);
    var s3 := State(Small(CHILD, Slot(false, true, false, 7, 3)), [(8, 3)], [], []);
    var s4 := State(Small(CHILD, Slot(false, false, true, 7, 3)), [(8, 3)], [Delivery(7, 8, 3)], []);
    SmallForks();
    SmallExit();
    SmallWait();
    var ss, es := [s0, s1, s2, s3, s4], [DoFork(INIT, 7), DoFork(7, 8), DoExit(8, 3), DoWait(7)];
    assert IsRun(ss, es);
    assert s4.ps[8].parent == 7;
    assert BlocksChildless(ss[|es|], 7);
  }

  // ---------------------------------------------------------------- the task

  class Manager {
    const ps: array<Slot>
    ghost var exits: seq<(nat, int)>
    var sent: seq<Delivery>
    var childless: seq<nat>

    ghost function Abs(): State
      reads this, ps
    {
      State(ps[..], exits, sent, childless)
    }

    ghost predicate Valid()
      reads this, ps
    {
      Inv(Abs())
    }

    constructor (n: nat)
      requires FIRST_FORKED <= n
      ensures Valid() && Boot(Abs()) && ps.Length == n && fresh(ps)
    {
      ps := new Slot[n](i =>
        if i < FIRST_FORKED then Slot(false, false, false, n, 0) else Slot(false, false, true, 0, 0));
      exits, sent, childless := [], [], [];
    }

    /** Report the exit of p to its parent and free its slot. */
    method SendAndFree(p: nat)
      requires p < ps.Length
      modifies this`sent, ps
      ensures Abs() == Cleanup(old(Abs()), p)
    {
      sent := sent + [Delivery(ps[p].parent, p, ps[p].status)];
      ps[p] := ps[p].(waiting := false, hanging := false, free := true);
    }

    /** do_fork: the first free slot becomes a copy of the caller's; -1 if there is none. */
    method ForkProcess(parent: nat) returns (child: int)
      requires Valid() && Alive(Abs(), parent)
      modifies ps
      ensures child == -1 <==> forall i :: 0 <= i < ps.Length ==> !old(ps[i]).free
      ensures child == -1 ==> Abs() == old(Abs())
      ensures child != -1 ==> FIRST_FORKED <= child < ps.Length && old(ps[child]).free &&
                              (forall i :: 0 <= i < child ==> !old(ps[i]).free) &&
                              Valid() && Abs() == Fork(old(Abs()), parent, child)
    {
      ghost var s := Abs();
      child := 0;
      while child < ps.Length && !(ps[child].free && !ps[child].waiting && !ps[child].hanging)
        invariant 0 <= child <= ps.Length && forall i :: 0 <= i < child ==> !ps[i].free
      {
        assert SlotOk(s.ps, child);
        child := child + 1;
      }
      if child == ps.Length {
        return -1;
      }
      assert SlotOk(s.ps, child);
      ForkKeepsInv(s, parent, child);
      ps[child] := ps[parent];
      ps[child] := ps[child].(parent := parent);
      assert ps[..] == Fork(s, parent, child).ps;
    }

    /** do_exit up to the loop. */
    method LeaveProcess(pid: nat, status: int)
      requires pid < ps.Length && ps[pid].parent < ps.Length && ps[pid].parent != pid
      modifies this, ps
      ensures Abs() == Leave(old(Abs()), pid, status)
    {
      ghost var s := Abs();
      ps[pid] := ps[pid].(status := status);
      exits := exits + [(pid, status)];
      var parent := ps[pid].parent;
      if ps[parent].waiting {
        ps[parent] := ps[parent].(waiting := false);
        SendAndFree(pid);
      } else {
        ps[pid] := ps[pid].(hanging := true);
      }
      assert ps[..] == Leave(s, pid, status).ps;
    }

    /** One turn of the loop of do_exit. */
    method AdoptSlot(pid: nat, i: nat)
      requires i < ps.Length && INIT < ps.Length
      modifies this`sent, ps
      ensures Abs() == AdoptOne(old(Abs()), pid, i)
    {
      ghost var g := Abs();
      if ps[i].parent == pid {
        ps[i] := ps[i].(parent := INIT);
        if ps[i].hanging && ps[INIT].waiting {
          ps[INIT] := ps[INIT].(waiting := false);
          SendAndFree(i);
        }
      }
      assert ps[..] == AdoptOne(g, pid, i).ps;
    }

    /** do_exit. */
    method ExitProcess(pid: nat, status: int)
      requires Valid() && Alive(Abs(), pid) && FIRST_FORKED <= pid
      modifies this, ps
      ensures old(ps[pid]).parent < ps.Length && Valid() && Abs() == Exit(old(Abs()), pid, status)
    {
      ghost var s := Abs();
      ExitKeepsInv(s, pid, status);
      assert ParentOk(s.ps, pid);
      LeaveProcess(pid, status);
      for i := 0 to ps.Length
        invariant AdoptFrom(Abs(), pid, i) == Exit(s, pid, status)
      {
        AdoptSlot(pid, i);
      }
    }

    /** do_wait: true when the caller gets its answer now. */
    method WaitChild(pid: nat) returns (answered: bool)
      requires Valid() && Alive(Abs(), pid)
      modifies this`sent, this`childless, ps
      ensures Valid() && Abs() == Wait(old(Abs()), pid) && answered == !ps[pid].waiting
    {
      ghost var s := Abs();
      WaitKeepsInv(s, pid);
      var hasChild := false;
      var i := 0;
      while i < ps.Length
        invariant 0 <= i <= ps.Length && FirstHanging(s.ps, pid, 0) == FirstHanging(s.ps, pid, i)
        invariant hasChild <==> exists j :: 0 <= j < i && s.ps[j].parent == pid
      {
        if ps[i].parent == pid {
          hasChild := true;
          if ps[i].hanging {
            assert ParentOk(s.ps, i);
            SendAndFree(i);
            return true;
          }
        }
        i := i + 1;
      }
      if hasChild {
        ps[pid] := ps[pid].(waiting := true);
        assert ps[..] == s.ps[pid := s.ps[pid].(waiting := true)];
        return false;
      }
      childless := childless + [pid];
      return true;
    }
  }
}
