/** The rendezvous protocol of kernel/proc.c, as a machine over whole kernel entries.

    A state holds one record per process, the queue of blocked senders of each process (in arrival
    order) and the message buffers.  Every kernel entry is one atomic step; a failed assertion or a
    panic is an outcome that nothing follows.  ProcTable.dfy implements the machine with the
    intrusive links of the source.
 */
module Ipc {
  import opened Options

  type Pid = nat
  type Addr = nat

  /** `p_flags`, one boolean per bit. */
  datatype Flags = Flags(sending: bool, receiving: bool, freeSlot: bool)

  const RUNNABLE := Flags(false, false, false)
  const SENDING := Flags(true, false, false)
  const RECEIVING := Flags(false, true, false)
  const FREE_SLOT := Flags(false, false, true)

  /** Whom a receiver listens to: `NO_TASK`, `ANY`, `INTERRUPT` or one process. */
  datatype Source = NoTask | Any | Interrupt | From(pid: Pid)

  const INTERRUPT := -10
  const HARD_INT := 1
  const ZERO_BODY: seq<int> := [0, 0, 0, 0, 0, 0, 0, 0, 0, 0]

  datatype Message = Message(source: int, kind: int, body: seq<int>)

  /** Message buffers, by owner and address; a buffer never written holds zeros. */
  type Memory = map<(Pid, Addr), Message>

  function Load(mem: Memory, p: Pid, a: Addr): Message {
    if (p, a) in mem then mem[(p, a)] else Message(0, 0, ZERO_BODY)
  }

  datatype Proc = Proc(flags: Flags, msg: Option<Addr>, recvFrom: Source, sendTo: Option<Pid>, hasInt: bool)

  datatype State = State(procs: seq<Proc>, queues: seq<seq<Pid>>, mem: Memory)

  // ---------------------------------------------------------------- the waiting graph

  /** Process `a` is blocked sending to `b`. */
  predicate Sends(procs: seq<Proc>, a: Pid, b: Pid) {
    a < |procs| && b < |procs| && procs[a].flags.sending && procs[a].sendTo == Some(b)
  }

  ghost predicate IsPath(procs: seq<Proc>, ps: seq<Pid>) {
    forall i :: 0 <= i < |ps| - 1 ==> Sends(procs, ps[i], ps[i + 1])
  }

  /** A path of at least one edge of blocked sends leads from `a` to `b`. */
  ghost predicate Reaches(procs: seq<Proc>, a: Pid, b: Pid) {
    exists ps :: IsPathBetween(procs, ps, a, b)
  }

  ghost predicate IsPathBetween(procs: seq<Proc>, ps: seq<Pid>, a: Pid, b: Pid) {
    2 <= |ps| && ps[0] == a && ps[|ps| - 1] == b && IsPath(procs, ps)
  }

  /** Following blocked sends from `p` stops within `n` edges. */
  ghost predicate Settles(procs: seq<Proc>, p: Pid, n: nat)
    decreases n
  {
    p < |procs| &&
    (procs[p].flags.sending ==>
      procs[p].sendTo.Some? && 0 < n && Settles(procs, procs[p].sendTo.value, n - 1))
  }

  ghost predicate Finite(procs: seq<Proc>, p: Pid) {
    exists n: nat :: Settles(procs, p, n)
  }

  ghost predicate Acyclic(procs: seq<Proc>) {
    forall p :: 0 <= p < |procs| ==> Finite(procs, p)
  }

  // ---------------------------------------------------------------- queues

  ghost predicate NoRepeats(q: seq<Pid>) {
    forall i, j :: 0 <= i < j < |q| ==> q[i] != q[j]
  }

  /** `q` without its first occurrence of `x`, the rest in order. */
  function Without(q: seq<Pid>, x: Pid): seq<Pid> {
    if q == [] then [] else if q[0] == x then q[1..] else [q[0]] + Without(q[1..], x)
  }

  // ---------------------------------------------------------------- the kernel entries

  /** A message on its way from one process to another. */
  datatype Envelope = Envelope(from: Pid, to: Pid, msg: Message)

  datatype Reason = SelfSend | Deadlock | SelfReceive | InterruptPending | AssertFailed

  /** `sent` and `received` hold the message (if any) this entry accepted and completed. */
  datatype Outcome =
    | Next(s: State, sent: seq<Envelope>, received: seq<Envelope>)
    | Stop(reason: Reason)

  /** sys_sendrec stamps the caller on the caller's buffer before anything else. */
  function Stamp(s: State, p: Pid, a: Addr): Memory {
    s.mem[(p, a) := Load(s.mem, p, a).(source := p)]
  }

  predicate Listens(d: Proc, p: Pid) {
    d.flags.receiving && (d.recvFrom == Any || d.recvFrom == From(p))
  }

  /** `d` woken from a receive. */
  function Woken(d: Proc): Proc {
    d.(msg := None, flags := d.flags.(receiving := false), recvFrom := NoTask)
  }

  /** `f` woken from a send. */
  function Released(f: Proc): Proc {
    f.(msg := None, flags := f.flags.(sending := false), sendTo := None)
  }

  ghost function Send(s: State, p: Pid, dst: Pid, a: Addr): Outcome
    requires p < |s.procs| && dst < |s.procs| == |s.queues|
  {
    if p == dst then Stop(SelfSend)
    else if Reaches(s.procs, dst, p) then Stop(Deadlock)
    else
      var mem := Stamp(s, p, a);
      var d := s.procs[dst];
      var e := Envelope(p, dst, mem[(p, a)]);
      if Listens(d, p) then
        if d.msg.None? then Stop(AssertFailed)
        else Next(State(s.procs[dst := Woken(d)], s.queues, mem[(dst, d.msg.value) := e.msg]), [e], [e])
      else
        var f := s.procs[p];
        var f' := f.(flags := f.flags.(sending := true), sendTo := Some(dst), msg := Some(a));
        Next(State(s.procs[p := f'], s.queues[dst := s.queues[dst] + [p]], mem), [e], [])
  }

  /** Take the blocked sender `f` off the queue of `p` and copy its message to `a`. */
  function Take(s: State, p: Pid, f: Pid, a: Addr): Outcome
    requires p < |s.procs| == |s.queues|
  {
    if f >= |s.procs| || s.procs[f].msg.None? then Stop(AssertFailed)
    else
      var mem := Stamp(s, p, a);
      var e := Envelope(f, p, Load(mem, f, s.procs[f].msg.value));
      Next(State(s.procs[f := Released(s.procs[f])], s.queues[p := Without(s.queues[p], f)],
                 mem[(p, a) := e.msg]), [], [e])
  }

  /** Block `p` until a message from `src` arrives at `a`. */
  function Wait(s: State, p: Pid, src: Source, a: Addr): Outcome
    requires p < |s.procs|
  {
    var d := s.procs[p];
    var d' := d.(flags := d.flags.(receiving := true), recvFrom := src, msg := Some(a));
    Next(State(s.procs[p := d'], s.queues, Stamp(s, p, a)), [], [])
  }

  function Receive(s: State, p: Pid, src: Source, a: Addr): Outcome
    requires p < |s.procs| == |s.queues|
  {
    var d := s.procs[p];
    if src == From(p) then Stop(SelfReceive)
    else if d.hasInt && (src == Any || src == Interrupt) then
      var mem := Stamp(s, p, a)[(p, a) := Message(INTERRUPT, HARD_INT, ZERO_BODY)];
      Next(State(s.procs[p := d.(hasInt := false)], s.queues, mem), [], [])
    else if src == Any && s.queues[p] != [] then Take(s, p, s.queues[p][0], a)
    else if src.From? && Sends(s.procs, src.pid, p) then Take(s, p, src.pid, a)
    else if src.From? && d.hasInt then Stop(InterruptPending)
    else Wait(s, p, src, a)
  }

  /** inform_int. */
  function Notify(s: State, p: Pid): Outcome
    requires p < |s.procs|
  {
    var d := s.procs[p];
    if d.flags.receiving && (d.recvFrom == Interrupt || d.recvFrom == Any) then
      if d.msg.None? then Stop(AssertFailed)
      else
        var m := Load(s.mem, p, d.msg.value).(source := INTERRUPT, kind := HARD_INT);
        Next(State(s.procs[p := Woken(d).(hasInt := false)], s.queues, s.mem[(p, d.msg.value) := m]), [], [])
    else Next(s.(procs := s.procs[p := d.(hasInt := true)]), [], [])
  }

  // ---------------------------------------------------------------- the invariant

  /** The fields of one record agree as the assertions of the source say. */
  predicate RecordOk(procs: seq<Proc>, p: Pid)
    requires p < |procs|
  {
    var d := procs[p];
    match d.flags
    case Flags(false, false, false) => d.msg.None? && d.recvFrom == NoTask && d.sendTo.None?
    case Flags(true, false, false) =>
      d.msg.Some? && d.recvFrom == NoTask && d.sendTo.Some? && d.sendTo.value < |procs| && d.sendTo.value != p
    case Flags(false, true, false) =>
      d.msg.Some? && d.recvFrom != NoTask && d.sendTo.None? &&
      (d.recvFrom.From? ==> d.recvFrom.pid < |procs| && d.recvFrom.pid != p)
    case Flags(false, false, true) => true
    case _ => false
  }

  ghost predicate RecordsOk(procs: seq<Proc>) {
    forall p :: 0 <= p < |procs| ==> RecordOk(procs, p)
  }

  /** Queue `d` holds exactly the processes blocked sending to `d`, each once. */
  ghost predicate QueuesOk(procs: seq<Proc>, queues: seq<seq<Pid>>) {
    |queues| == |procs| &&
    (forall d :: 0 <= d < |queues| ==> NoRepeats(queues[d])) &&
    (forall d, p :: 0 <= d < |queues| ==> (p in queues[d] <==> Sends(procs, p, d)))
  }

  /** No receiver sleeps while something it listens to is available. */
  predicate Attentive(procs: seq<Proc>, q: seq<Pid>, p: Pid)
    requires p < |procs|
  {
    var d := procs[p];
    d.flags.receiving ==>
      (d.recvFrom == Any ==> q == [] && !d.hasInt) &&
      (d.recvFrom == Interrupt ==> !d.hasInt) &&
      (d.recvFrom.From? ==> !Sends(procs, d.recvFrom.pid, p))
  }

  ghost predicate NoLostWakeup(s: State) {
    |s.queues| == |s.procs| &&
    forall p :: 0 <= p < |s.procs| ==> Attentive(s.procs, s.queues[p], p)
  }

  ghost predicate Inv(s: State) {
    RecordsOk(s.procs) && QueuesOk(s.procs, s.queues) && Acyclic(s.procs) && NoLostWakeup(s)
  }
}
