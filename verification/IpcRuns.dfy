/** Whole runs of the rendezvous protocol: what holds after any sequence of kernel entries, and
    what was sent, received and is still in flight at that point. */
module IpcRuns {
  import opened Options
  import opened Ipc
  import opened IpcInvariant

  /** One atomic step: a runnable process writes one of its own buffers, sends or receives, or a
      device interrupt is reported to a process. */
  datatype Event =
    | Store(p: Pid, a: Addr, m: Message)
    | SendTo(p: Pid, dst: Pid, a: Addr)
    | ReceiveFrom(p: Pid, src: Source, a: Addr)
    | InterruptFor(p: Pid)

  ghost predicate Enabled(s: State, e: Event) {
    |s.queues| == |s.procs| && e.p < |s.procs| &&
    (!e.InterruptFor? ==> s.procs[e.p].flags == RUNNABLE) &&
    (e.SendTo? ==> e.dst < |s.procs|) &&
    (e.ReceiveFrom? ==> e.src != NoTask && (e.src.From? ==> e.src.pid < |s.procs|))
  }

  ghost function Step(s: State, e: Event): Outcome
    requires Enabled(s, e)
  {
    match e
    case Store(p, a, m) => Next(s.(mem := s.mem[(p, a) := m]), [], [])
    case SendTo(p, dst, a) => Send(s, p, dst, a)
    case ReceiveFrom(p, src, a) => Receive(s, p, src, a)
    case InterruptFor(p) => Notify(s, p)
  }

  /** A state and the messages accepted and completed on the way to it. */
  datatype History = History(s: State, sent: seq<Envelope>, received: seq<Envelope>)

  /** kernel_main: `ready` processes start runnable, the other slots are free. */
  function Boot(n: nat, ready: nat): History {
    History(State(seq(n, i => Proc(if i < ready then RUNNABLE else FREE_SLOT, None, NoTask, None, false)),
                  seq(n, _ => []), map[]), [], [])
  }

  ghost predicate StepsTo(h: History, e: Event, h': History) {
    Enabled(h.s, e) && Step(h.s, e).Next? &&
    h' == History(Step(h.s, e).s, h.sent + Step(h.s, e).sent, h.received + Step(h.s, e).received)
  }

  /** `hs` are the states visited by the entries `es`, none of which stopped the machine. */
  ghost predicate IsRun(hs: seq<History>, es: seq<Event>) {
    |hs| == |es| + 1 && (exists n, ready :: hs[0] == Boot(n, ready)) &&
    forall i :: 0 <= i < |es| ==> StepsTo(hs[i], es[i], hs[i + 1])
  }

  lemma RunPrefix(hs: seq<History>, es: seq<Event>)
    requires IsRun(hs, es) && es != []
    ensures IsRun(hs[..|es|], es[..|es| - 1])
    ensures StepsTo(hs[|es| - 1], es[|es| - 1], hs[|es|])
  {
  }

  lemma BootInv(n: nat, ready: nat)
    ensures Inv(Boot(n, ready).s)
  {
    var s := Boot(n, ready).s;
    forall p | 0 <= p < n ensures Finite(s.procs, p) {
      assert Settles(s.procs, p, 0);
    }
  }

  lemma StepKeepsInv(s: State, e: Event)
    requires Inv(s) && Enabled(s, e)
    ensures Step(s, e).Next? ==> Inv(Step(s, e).s)
  {
    match e
    case Store(p, a, m) =>
    case SendTo(p, dst, a) => SendKeepsInv(s, p, dst, a);
    case ReceiveFrom(p, src, a) => ReceiveKeepsInv(s, p, src, a);
    case InterruptFor(p) => NotifyKeepsInv(s, p);
  }

  /** Every reachable state satisfies the invariant: records agree with the source's assertions,
      queues hold exactly the blocked senders, sends form no cycle, no wakeup is lost. */
  lemma {:induction false} RunsKeepInv(hs: seq<History>, es: seq<Event>)
    requires IsRun(hs, es)
    ensures Inv(hs[|es|].s)
    decreases |es|
  {
    if es == [] {
      var n, ready :| hs[0] == Boot(n, ready);
      BootInv(n, ready);
    } else {
      RunPrefix(hs, es);
      RunsKeepInv(hs[..|es|], es[..|es| - 1]);
      StepKeepsInv(hs[|es| - 1].s, es[|es| - 1]);
    }
  }

  /** No reachable state holds a cycle of blocked sends. */
  lemma RunsHaveNoSendCycle(hs: seq<History>, es: seq<Event>, p: Pid)
    requires IsRun(hs, es)
    ensures !Reaches(hs[|es|].s.procs, p, p)
  {
    RunsKeepInv(hs, es);
    var procs := hs[|es|].s.procs;
    AcyclicMeansNoCycle(procs);
    if p >= |procs| {
      forall ps: seq<Pid> | 2 <= |ps| && ps[0] == p ensures !IsPath(procs, ps) {
        assert !Sends(procs, ps[0], ps[0 + 1]);
      }
    }
  }

  // ---------------------------------------------------------------- exactly-once delivery

  /** The messages of `log` from `a` to `d`, in order. */
  function Between(log: seq<Envelope>, a: Pid, d: Pid): seq<Envelope> {
    if log == [] then []
    else
      var e := log[|log| - 1];
      Between(log[..|log| - 1], a, d) + if e.from == a && e.to == d then [e] else []
  }

  /** The message `a` is blocked on, if it is blocked sending to `d`. */
  function InFlight(s: State, a: Pid, d: Pid): seq<Envelope> {
    if Sends(s.procs, a, d) && s.procs[a].msg.Some?
    then [Envelope(a, d, Load(s.mem, a, s.procs[a].msg.value))] else []
  }

  lemma BetweenAppend(log: seq<Envelope>, more: seq<Envelope>, a: Pid, d: Pid)
    requires |more| <= 1
    ensures Between(log + more, a, d) == Between(log, a, d) + Between(more, a, d)
  {
    if more == [] {
      assert log + more == log;
    } else {
      assert (log + more)[..|log|] == log;
      assert more[..0] == [];
    }
  }

  /** One entry moves at most one message between the three places it can be. */
  ghost predicate Conserves(s: State, r: Outcome, a: Pid, d: Pid)
    requires r.Next?
  {
    |r.sent| <= 1 && |r.received| <= 1 &&
    InFlight(s, a, d) + Between(r.sent, a, d) == Between(r.received, a, d) + InFlight(r.s, a, d)
  }

  /** `a` is as it was, and so is the buffer it is blocked on. */
  lemma SameFlight(s: State, s': State, a: Pid, d: Pid)
    requires |s'.procs| == |s.procs| && (a < |s.procs| ==> s'.procs[a] == s.procs[a])
    requires a < |s.procs| && s.procs[a].flags.sending && s.procs[a].msg.Some? ==>
               Load(s'.mem, a, s.procs[a].msg.value) == Load(s.mem, a, s.procs[a].msg.value)
    ensures InFlight(s', a, d) == InFlight(s, a, d)
  {
  }

  lemma NotFlying(s: State, a: Pid, d: Pid)
    requires a < |s.procs| ==> !s.procs[a].flags.sending
    ensures InFlight(s, a, d) == []
  {
  }

  /** A sender's message goes straight to a waiting receiver. */
  lemma HandOverConserves(s: State, p: Pid, dst: Pid, adr: Addr, a: Pid, d: Pid)
    requires p < |s.procs| && dst < |s.procs| == |s.queues| && s.procs[p].flags == RUNNABLE
    requires s.procs[dst].flags == RECEIVING && Listens(s.procs[dst], p) && Send(s, p, dst, adr).Next?
    ensures Conserves(s, Send(s, p, dst, adr), a, d)
  {
    var r := Send(s, p, dst, adr);
    assert [r.sent[0]][..0] == [];
    if a == p || a == dst {
      NotFlying(s, a, d);
      NotFlying(r.s, a, d);
    } else {
      SameFlight(s, r.s, a, d);
    }
  }

  /** A sender blocks with its message. */
  lemma EnqueueConserves(s: State, p: Pid, dst: Pid, adr: Addr, a: Pid, d: Pid)
    requires p < |s.procs| && dst < |s.procs| == |s.queues| && s.procs[p].flags == RUNNABLE
    requires !Listens(s.procs[dst], p) && Send(s, p, dst, adr).Next?
    ensures Conserves(s, Send(s, p, dst, adr), a, d)
  {
    var r := Send(s, p, dst, adr);
    assert [r.sent[0]][..0] == [];
    if a == p {
      NotFlying(s, a, d);
      assert InFlight(r.s, a, d) == if d == dst then [r.sent[0]] else [];
    } else {
      SameFlight(s, r.s, a, d);
    }
  }

  /** A receiver takes the message of a blocked sender. */
  lemma TakeConserves(s: State, p: Pid, f: Pid, adr: Addr, a: Pid, d: Pid)
    requires p < |s.procs| == |s.queues| && s.procs[p].flags == RUNNABLE && Sends(s.procs, f, p) && s.procs[f].msg.Some?
    ensures Take(s, p, f, adr).Next? && Conserves(s, Take(s, p, f, adr), a, d)
  {
    var r := Take(s, p, f, adr);
    assert [r.received[0]][..0] == [];
    if a == f {
      NotFlying(r.s, a, d);
      assert InFlight(s, a, d) == if d == p then [r.received[0]] else [];
    } else if a == p {
      NotFlying(s, a, d);
      NotFlying(r.s, a, d);
    } else {
      SameFlight(s, r.s, a, d);
    }
  }

  /** No message is accepted or completed. */
  lemma QuietConserves(s: State, e: Event, a: Pid, d: Pid)
    requires Enabled(s, e) && RecordsOk(s.procs) && !e.SendTo? && Step(s, e).Next? && Step(s, e).received == []
    ensures Conserves(s, Step(s, e), a, d)
  {
    var r := Step(s, e);
    assert RecordOk(s.procs, e.p);
    if a == e.p && (!e.InterruptFor? || s.procs[a].flags.receiving) {
      NotFlying(s, a, d);
      NotFlying(r.s, a, d);
    } else if a == e.p {
      assert r.s.mem == s.mem;
    } else {
      SameFlight(s, r.s, a, d);
    }
  }

  lemma StepConserves(s: State, e: Event, a: Pid, d: Pid)
    requires Inv(s) && Enabled(s, e) && Step(s, e).Next?
    ensures Conserves(s, Step(s, e), a, d)
  {
    if e.SendTo? {
      assert RecordOk(s.procs, e.dst);
      if Listens(s.procs[e.dst], e.p) {
        HandOverConserves(s, e.p, e.dst, e.a, a, d);
      } else {
        EnqueueConserves(s, e.p, e.dst, e.a, a, d);
      }
    } else if Step(s, e).received != [] {
      var f := Step(s, e).received[0].from;
      TakenIsQueued(s, e);
      TakeConserves(s, e.p, f, e.a, a, d);
    } else {
      QuietConserves(s, e, a, d);
    }
  }

  /** What a receive takes is the head of the queue, or the named process blocked on the receiver. */
  lemma TakenIsQueued(s: State, e: Event)
    requires Inv(s) && Enabled(s, e) && !e.SendTo? && Step(s, e).Next? && Step(s, e).received != []
    ensures var f := Step(s, e).received[0].from;
            e.ReceiveFrom? && f in s.queues[e.p] && Sends(s.procs, f, e.p) && s.procs[f].msg.Some? &&
            ((e.src == Any && f == s.queues[e.p][0]) || e.src == From(f)) &&
            Step(s, e) == Take(s, e.p, f, e.a)
  {
  }

  lemma Shuffle<T>(received: seq<T>, flying: seq<T>, sent: seq<T>, delivered: seq<T>, flying': seq<T>)
    requires flying + sent == delivered + flying'
    ensures (received + flying) + sent == (received + delivered) + flying'
  {
    assert (received + flying) + sent == received + (flying + sent);
    assert (received + delivered) + flying' == received + (delivered + flying');
  }

  /** Over every run and for every pair of processes: the messages accepted from `a` to `d` are, in
      the same order and with unchanged contents, those `d` has received from `a`, followed by the
      one `a` is still blocked on, if any. */
  lemma {:induction false} ExactlyOnceInOrder(hs: seq<History>, es: seq<Event>, a: Pid, d: Pid)
    requires IsRun(hs, es)
    ensures var h := hs[|es|];
            Between(h.sent, a, d) == Between(h.received, a, d) + InFlight(h.s, a, d)
    decreases |es|
  {
    if es != [] {
      RunPrefix(hs, es);
      var h, e := hs[|es| - 1], es[|es| - 1];
      RunsKeepInv(hs[..|es|], es[..|es| - 1]);
      ExactlyOnceInOrder(hs[..|es|], es[..|es| - 1], a, d);
      var r := Step(h.s, e);
      StepConserves(h.s, e, a, d);
      BetweenAppend(h.sent, r.sent, a, d);
      BetweenAppend(h.received, r.received, a, d);
      Shuffle(Between(h.received, a, d), InFlight(h.s, a, d), Between(r.sent, a, d),
              Between(r.received, a, d), InFlight(r.s, a, d));
    }
  }

  lemma {:induction false} BetweenMembers(log: seq<Envelope>, a: Pid, d: Pid)
    ensures forall e :: e in Between(log, a, d) <==> e in log && e.from == a && e.to == d
  {
    if log != [] {
      BetweenMembers(log[..|log| - 1], a, d);
      assert log == log[..|log| - 1] + [log[|log| - 1]];
    }
  }

  /** Every message accepted or received over a run names its real sender. */
  lemma {:induction false} MessagesNameSender(hs: seq<History>, es: seq<Event>)
    requires IsRun(hs, es)
    ensures forall e <- hs[|es|].sent :: e.msg.source == e.from
    ensures forall e <- hs[|es|].received :: e.msg.source == e.from
    decreases |es|
  {
    SentNamesSender(hs, es);
    var h := hs[|es|];
    forall e <- h.received ensures e.msg.source == e.from {
      BetweenMembers(h.received, e.from, e.to);
      ExactlyOnceInOrder(hs, es, e.from, e.to);
      BetweenMembers(h.sent, e.from, e.to);
      assert e in Between(h.sent, e.from, e.to);
    }
  }

  lemma {:induction false} SentNamesSender(hs: seq<History>, es: seq<Event>)
    requires IsRun(hs, es)
    ensures forall e <- hs[|es|].sent :: e.msg.source == e.from
    decreases |es|
  {
    if es != [] {
      RunPrefix(hs, es);
      SentNamesSender(hs[..|es|], es[..|es| - 1]);
      var r := Step(hs[|es| - 1].s, es[|es| - 1]);
      assert forall e <- r.sent :: e.msg.source == e.from;
    }
  }

  /** A completed receive copies the buffer its sender is blocked on to the receiver's buffer and makes
      the sender runnable; a receive from a named process completes only with that process, and takes no
      other off the queue. */
  lemma ReceiveDelivers(s: State, p: Pid, src: Source, a: Addr)
    requires Inv(s) && Enabled(s, ReceiveFrom(p, src, a)) && Receive(s, p, src, a).Next?
    ensures var r := Receive(s, p, src, a);
            r.received != [] ==>
              exists k :: 0 <= k < |s.queues[p]| &&
                s.queues[p][k] == r.received[0].from && (src == Any ==> k == 0) &&
                (src.From? ==> s.queues[p][k] == src.pid) &&
                r.s.queues == s.queues[p := s.queues[p][..k] + s.queues[p][k + 1..]] &&
                Taken(s, r, p, s.queues[p][k], a)
  {
    var r := Receive(s, p, src, a);
    if r.received != [] {
      var f := r.received[0].from;
      TakenIsQueued(s, ReceiveFrom(p, src, a));
      var k :| 0 <= k < |s.queues[p]| && s.queues[p][k] == f && (src == Any ==> k == 0);
      WithoutAt(s.queues[p], k);
      assert RecordOk(s.procs, f);
      TakeDelivers(s, p, f, a);
    }
  }

  lemma TakeDelivers(s: State, p: Pid, f: Pid, a: Addr)
    requires p < |s.procs| == |s.queues| && Sends(s.procs, f, p) && RecordOk(s.procs, f) && f != p
    ensures Taken(s, Take(s, p, f, a), p, f, a)
  {
  }

  /** No buffer differs but those at `x` and `y`. */
  ghost predicate SameBuffers(mem: Memory, mem': Memory, x: (Pid, Addr), y: (Pid, Addr)) {
    forall p: Pid, a: Addr :: (p, a) != x && (p, a) != y ==> Load(mem', p, a) == Load(mem, p, a)
  }

  /** The message of `f` is now in the buffer of `p` at `a`, `f` is runnable and nobody else changed. */
  ghost predicate Taken(s: State, r: Outcome, p: Pid, f: Pid, a: Addr) {
    r.Next? && f < |s.procs| && s.procs[f].msg.Some? &&
    var m := Load(s.mem, f, s.procs[f].msg.value);
    r.sent == [] && r.received == [Envelope(f, p, m)] && Load(r.s.mem, p, a) == m &&
    SameBuffers(s.mem, r.s.mem, (p, a), (p, a)) &&
    r.s.procs == s.procs[f := Proc(RUNNABLE, None, NoTask, None, s.procs[f].hasInt)]
  }

  /** What is sent is the caller's buffer with the caller as source.  A receiver that listens has it in
      the buffer it was blocked on and is runnable; otherwise the caller is blocked at the tail of the
      queue.  Nobody else changed. */
  lemma SendDelivers(s: State, p: Pid, dst: Pid, a: Addr)
    requires Inv(s) && Enabled(s, SendTo(p, dst, a)) && Send(s, p, dst, a).Next?
    ensures var r := Send(s, p, dst, a);
            var d, m := s.procs[dst], Load(s.mem, p, a).(source := p);
            r.sent == [Envelope(p, dst, m)] && Load(r.s.mem, p, a) == m &&
            if d.flags == RECEIVING && (d.recvFrom == Any || d.recvFrom == From(p))
            then r.received == r.sent && Load(r.s.mem, dst, d.msg.value) == m && r.s.queues == s.queues &&
                 SameBuffers(s.mem, r.s.mem, (p, a), (dst, d.msg.value)) &&
                 r.s.procs == s.procs[dst := Proc(RUNNABLE, None, NoTask, None, d.hasInt)]
            else r.received == [] && r.s.queues == s.queues[dst := s.queues[dst] + [p]] &&
                 SameBuffers(s.mem, r.s.mem, (p, a), (p, a)) &&
                 r.s.procs == s.procs[p := Proc(SENDING, Some(a), NoTask, Some(dst), s.procs[p].hasInt)]
  {
    assert RecordOk(s.procs, dst) && RecordOk(s.procs, p);
  }

  lemma SendQueues(s: State, p: Pid, dst: Pid, a: Addr)
    requires Inv(s) && Enabled(s, SendTo(p, dst, a)) && Send(s, p, dst, a).Next?
    ensures var r := Send(s, p, dst, a);
            |r.sent| == 1 && (Listens(s.procs[dst], p) ==> r.received == r.sent && r.s.queues == s.queues) &&
            (!Listens(s.procs[dst], p) ==> r.received == [] && r.s.queues == s.queues[dst := s.queues[dst] + [p]])
  {
  }

  // ---------------------------------------------------------------- arrival order

  /** The messages of `log` to `d`, in order. */
  function To(log: seq<Envelope>, d: Pid): seq<Envelope> {
    if log == [] then []
    else
      var e := log[|log| - 1];
      To(log[..|log| - 1], d) + if e.to == d then [e] else []
  }

  lemma ToAppend(log: seq<Envelope>, more: seq<Envelope>, d: Pid)
    requires |more| <= 1
    ensures To(log + more, d) == To(log, d) + To(more, d)
  {
    if more == [] {
      assert log + more == log;
    } else {
      assert (log + more)[..|log|] == log;
      assert more[..0] == [];
    }
  }

  /** The message process `f` offers to `d`. */
  function Offer(s: State, f: Pid, d: Pid): Envelope {
    var a := if f < |s.procs| && s.procs[f].msg.Some? then s.procs[f].msg.value else 0;
    Envelope(f, d, Load(s.mem, f, a))
  }

  /** The messages waiting for `d`, in queue order. */
  function Waiting(s: State, d: Pid): (w: seq<Envelope>)
    requires d < |s.queues|
    ensures |w| == |s.queues[d]| && forall i :: 0 <= i < |w| ==> w[i] == Offer(s, s.queues[d][i], d)
  {
    seq(|s.queues[d]|, i requires 0 <= i < |s.queues[d]| => Offer(s, s.queues[d][i], d))
  }

  /** The offer of `f` stands when its record keeps its buffer and the buffer its contents. */
  lemma OfferStands(s: State, s': State, f: Pid, d: Pid)
    requires f < |s.procs| == |s'.procs| && s'.procs[f].msg == s.procs[f].msg && s.procs[f].msg.Some?
    requires Load(s'.mem, f, s.procs[f].msg.value) == Load(s.mem, f, s.procs[f].msg.value)
    ensures Offer(s', f, d) == Offer(s, f, d)
  {
  }

  lemma SendOffersStand(s: State, p: Pid, dst: Pid, a: Addr, d: Pid, f: Pid)
    requires Enabled(s, SendTo(p, dst, a)) && Send(s, p, dst, a).Next? && f < |s.procs|
    requires s.procs[f].flags == SENDING && s.procs[f].msg.Some? && RecordOk(s.procs, dst)
    ensures Offer(Send(s, p, dst, a).s, f, d) == Offer(s, f, d)
  {
    OfferStands(s, Send(s, p, dst, a).s, f, d);
  }

  lemma ReceiveOffersStand(s: State, p: Pid, src: Source, a: Addr, d: Pid, f: Pid)
    requires Enabled(s, ReceiveFrom(p, src, a)) && Receive(s, p, src, a).Next? && f < |s.procs|
    requires s.procs[f].flags == SENDING && s.procs[f].msg.Some?
    requires forall m <- Receive(s, p, src, a).received :: m.from != f
    ensures Offer(Receive(s, p, src, a).s, f, d) == Offer(s, f, d)
  {
    OfferStands(s, Receive(s, p, src, a).s, f, d);
  }

  lemma NotifyOffersStand(s: State, p: Pid, d: Pid, f: Pid)
    requires p < |s.procs| && Notify(s, p).Next? && f < |s.procs|
    requires s.procs[f].flags == SENDING && s.procs[f].msg.Some?
    ensures Offer(Notify(s, p).s, f, d) == Offer(s, f, d)
  {
    OfferStands(s, Notify(s, p).s, f, d);
  }

  /** A process on a queue is blocked: only the entry that takes it off touches it or its buffer. */
  lemma OffersStand(s: State, e: Event, d: Pid, f: Pid)
    requires Inv(s) && Enabled(s, e) && Step(s, e).Next? && d < |s.procs| && f in s.queues[d]
    requires forall m <- Step(s, e).received :: m.from != f
    ensures Offer(Step(s, e).s, f, d) == Offer(s, f, d)
  {
    assert Sends(s.procs, f, d) && RecordOk(s.procs, f);
    match e
    case Store(p, a, m) =>
    case SendTo(p, dst, a) =>
      assert RecordOk(s.procs, dst);
      SendOffersStand(s, p, dst, a, d, f);
    case ReceiveFrom(p, src, a) => ReceiveOffersStand(s, p, src, a, d, f);
    case InterruptFor(p) => NotifyOffersStand(s, p, d, f);
  }

  lemma ToOne(e: Envelope, d: Pid)
    ensures To([e], d) == if e.to == d then [e] else []
  {
  }

  /** What an entry does to the messages for `d`: nothing, a new one waits behind the others, one goes
      straight through, or the k-th is received. */
  ghost predicate Moves(was: seq<Envelope>, sent: seq<Envelope>, received: seq<Envelope>, now: seq<Envelope>, k: nat) {
    (sent == [] && received == [] && now == was) ||
    (|sent| == 1 && received == [] && now == was + sent) ||
    (|sent| == 1 && received == sent && now == was) ||
    (sent == [] && k < |was| && received == [was[k]] && now == was[..k] + was[k + 1..])
  }

  /** An entry with outcome `r` moves the messages for `d` in one of these ways. */
  ghost predicate MovesFor(s: State, r: Outcome, d: Pid, k: nat) {
    r.Next? && d < |s.queues| == |r.s.queues| && |r.sent| <= 1 && |r.received| <= 1 &&
    Moves(Waiting(s, d), To(r.sent, d), To(r.received, d), Waiting(r.s, d), k)
  }

  /** One more process at the end of the queue. */
  lemma WaitingGrows(s: State, s': State, d: Pid, p: Pid)
    requires d < |s.queues| && d < |s'.queues| && s'.queues[d] == s.queues[d] + [p]
    requires forall f <- s.queues[d] :: Offer(s', f, d) == Offer(s, f, d)
    ensures Waiting(s', d) == Waiting(s, d) + [Offer(s', p, d)]
  {
  }

  lemma QueuedOffersStand(s: State, e: Event, d: Pid)
    requires Inv(s) && Enabled(s, e) && Step(s, e).Next? && d < |s.procs|
    requires forall m <- Step(s, e).received :: m.from < |s.procs| && s.procs[m.from].flags == RUNNABLE
    ensures forall f <- s.queues[d] :: Offer(Step(s, e).s, f, d) == Offer(s, f, d)
  {
    forall f <- s.queues[d] ensures Offer(Step(s, e).s, f, d) == Offer(s, f, d) {
      assert Sends(s.procs, f, d);
      OffersStand(s, e, d, f);
    }
  }

  lemma SendMoves(s: State, p: Pid, dst: Pid, a: Addr, d: Pid)
    requires Inv(s) && Enabled(s, SendTo(p, dst, a)) && Send(s, p, dst, a).Next? && d < |s.procs|
    ensures MovesFor(s, Send(s, p, dst, a), d, 0)
  {
    var r := Send(s, p, dst, a);
    SendQueues(s, p, dst, a);
    ToOne(r.sent[0], d);
    QueuedOffersStand(s, SendTo(p, dst, a), d);
    if dst == d && !Listens(s.procs[d], p) {
      WaitingGrows(s, r.s, d, p);
      assert Offer(r.s, p, d) == r.sent[0];
    } else {
      SameWaiting(s, r.s, d);
    }
  }

  lemma SameWaiting(s: State, s': State, d: Pid)
    requires d < |s.queues| && d < |s'.queues| && s'.queues[d] == s.queues[d]
    requires forall f <- s.queues[d] :: Offer(s', f, d) == Offer(s, f, d)
    ensures Waiting(s', d) == Waiting(s, d)
  {
  }

  lemma WaitingWithout(s: State, s': State, d: Pid, k: nat)
    requires d < |s.queues| && d < |s'.queues| && k < |s.queues[d]| && NoRepeats(s.queues[d])
    requires s'.queues[d] == s.queues[d][..k] + s.queues[d][k + 1..]
    requires forall f <- s.queues[d] :: f != s.queues[d][k] ==> Offer(s', f, d) == Offer(s, f, d)
    ensures Waiting(s', d) == Waiting(s, d)[..k] + Waiting(s, d)[k + 1..]
  {
    var q, w := s.queues[d], Waiting(s, d);
    forall i | 0 <= i < |q| - 1 ensures Waiting(s', d)[i] == (w[..k] + w[k + 1..])[i] {
      var j := if i < k then i else i + 1;
      assert s'.queues[d][i] == q[j] && q[j] != q[k];
    }
  }

  /** The processes not taken are left alone. */
  lemma OthersStand(s: State, e: Event, d: Pid, f: Pid)
    requires Inv(s) && Enabled(s, e) && Step(s, e).Next? && d < |s.procs|
    requires forall m <- Step(s, e).received :: m.from == f
    ensures forall x <- s.queues[d] :: x != f ==> Offer(Step(s, e).s, x, d) == Offer(s, x, d)
  {
    forall x <- s.queues[d] | x != f ensures Offer(Step(s, e).s, x, d) == Offer(s, x, d) {
      OffersStand(s, e, d, x);
    }
  }

  lemma TakeReceives(s: State, p: Pid, f: Pid, a: Addr)
    requires p < |s.procs| == |s.queues| && f != p && Take(s, p, f, a).Next?
    ensures Take(s, p, f, a).sent == [] && Take(s, p, f, a).received == [Offer(s, f, p)]
    ensures Take(s, p, f, a).s.queues == s.queues[p := Without(s.queues[p], f)]
  {
  }

  lemma TakeMoves(s: State, e: Event, d: Pid, k: nat)
    requires Inv(s) && Enabled(s, e) && e.ReceiveFrom? && d < |s.procs| && k < |s.queues[e.p]|
    requires Step(s, e) == Take(s, e.p, s.queues[e.p][k], e.a) && Step(s, e).Next?
    ensures MovesFor(s, Step(s, e), d, k)
    ensures e.p == d ==> k < |Waiting(s, d)| && Step(s, e).received == [Waiting(s, d)[k]]
  {
    var f := s.queues[e.p][k];
    assert f in s.queues[e.p];
    assert Sends(s.procs, f, e.p) && RecordOk(s.procs, f);
    TakeReceives(s, e.p, f, e.a);
    OthersStand(s, e, d, f);
    if e.p == d {
      TakeMovesOwn(s, Step(s, e), d, k);
    } else {
      assert !Sends(s.procs, f, d);
      TakeMovesOther(s, Step(s, e), d, e.p, f, k);
    }
  }

  /** A take for `d` itself: the k-th message waiting is received. */
  lemma TakeMovesOwn(s: State, r: Outcome, d: Pid, k: nat)
    requires QueuesOk(s.procs, s.queues) && r.Next? && d < |s.queues| == |r.s.queues| && k < |s.queues[d]|
    requires r.sent == [] && r.received == [Offer(s, s.queues[d][k], d)]
    requires r.s.queues[d] == Without(s.queues[d], s.queues[d][k])
    requires forall f <- s.queues[d] :: f != s.queues[d][k] ==> Offer(r.s, f, d) == Offer(s, f, d)
    ensures MovesFor(s, r, d, k)
  {
    assert NoRepeats(s.queues[d]);
    WithoutAt(s.queues[d], k);
    WaitingWithout(s, r.s, d, k);
    ToOne(r.received[0], d);
  }

  /** A take for another process moves nothing for `d`. */
  lemma TakeMovesOther(s: State, r: Outcome, d: Pid, p: Pid, f: Pid, k: nat)
    requires r.Next? && d < |s.queues| == |r.s.queues| && p != d && f !in s.queues[d]
    requires r.sent == [] && r.received == [Offer(s, f, p)] && r.s.queues[d] == s.queues[d]
    requires forall x <- s.queues[d] :: x != f ==> Offer(r.s, x, d) == Offer(s, x, d)
    ensures MovesFor(s, r, d, k)
  {
    SameWaiting(s, r.s, d);
    ToOne(r.received[0], d);
  }

  /** An entry other than a send that completes no message leaves the queue as it is. */
  lemma QuietMoves(s: State, e: Event, d: Pid)
    requires Inv(s) && Enabled(s, e) && Step(s, e).Next? && d < |s.procs| && !e.SendTo? && Step(s, e).received == []
    ensures MovesFor(s, Step(s, e), d, 0)
  {
    QueuedOffersStand(s, e, d);
    SameWaiting(s, Step(s, e).s, d);
  }

  /** What a receive takes stands somewhere in its queue; for ANY it is the first. */
  lemma TakingMoves(s: State, e: Event, d: Pid) returns (k: nat)
    requires Inv(s) && Enabled(s, e) && Step(s, e).Next? && d < |s.procs| && !e.SendTo? && Step(s, e).received != []
    ensures MovesFor(s, Step(s, e), d, k) && e.ReceiveFrom? && (e.src == Any ==> k == 0)
    ensures e.p == d ==> k < |Waiting(s, d)| && Step(s, e).received == [Waiting(s, d)[k]]
  {
    var f := Step(s, e).received[0].from;
    TakenIsQueued(s, e);
    k :| 0 <= k < |s.queues[e.p]| && s.queues[e.p][k] == f && (e.src == Any ==> k == 0);
    TakeMoves(s, e, d, k);
  }

  /** Every entry moves the messages for `d` in one of the four ways; a receive from ANY takes the first. */
  lemma StepMoves(s: State, e: Event, d: Pid) returns (k: nat)
    requires Inv(s) && Enabled(s, e) && Step(s, e).Next? && d < |s.procs|
    ensures MovesFor(s, Step(s, e), d, k)
    ensures e.ReceiveFrom? && e.src == Any && e.p == d && Step(s, e).received != [] ==>
              Waiting(s, d) != [] && Step(s, e).received == [Waiting(s, d)[0]]
  {
    k := 0;
    if e.SendTo? {
      SendMoves(s, e.p, e.dst, e.a, d);
    } else if Step(s, e).received != [] {
      k := TakingMoves(s, e, d);
    } else {
      QuietMoves(s, e, d);
    }
  }

  /** `rs` and `ks` say which of the accepted messages were received and which are waiting: each index
      of `sent` occurs once in one of them, and those waiting are in the order of acceptance. */
  ghost predicate Ordered(sent: seq<Envelope>, received: seq<Envelope>, waiting: seq<Envelope>, rs: seq<nat>,
                          ks: seq<nat>) {
    |rs| == |received| && |ks| == |waiting| && |rs| + |ks| == |sent| && NoRepeats(rs + ks) &&
    (forall i :: 0 <= i < |rs| ==> rs[i] < |sent| && received[i] == sent[rs[i]]) &&
    (forall i :: 0 <= i < |ks| ==> ks[i] < |sent| && waiting[i] == sent[ks[i]]) &&
    (forall i, j :: 0 <= i < j < |ks| ==> ks[i] < ks[j])
  }

  lemma PullNoRepeats(rs: seq<nat>, ks: seq<nat>, k: nat)
    requires NoRepeats(rs + ks) && k < |ks|
    ensures NoRepeats((rs + [ks[k]]) + (ks[..k] + ks[k + 1..]))
  {
    var all, n := (rs + [ks[k]]) + (ks[..k] + ks[k + 1..]), |rs|;
    forall i, j | 0 <= i < j < |all| ensures all[i] != all[j] {
      var x := if i < n then i else if i == n then n + k else if i <= n + k then i - 1 else i;
      var y := if j < n then j else if j == n then n + k else if j <= n + k then j - 1 else j;
      assert all[i] == (rs + ks)[x] && all[j] == (rs + ks)[y] && x != y;
    }
  }

  lemma PassNoRepeats(rs: seq<nat>, ks: seq<nat>, x: nat)
    requires NoRepeats(rs + ks) && x !in rs && x !in ks
    ensures NoRepeats((rs + [x]) + ks)
  {
    var all, n := (rs + [x]) + ks, |rs|;
    forall i, j | 0 <= i < j < |all| ensures all[i] != all[j] {
      assert i != n ==> all[i] == (rs + ks)[if i < n then i else i - 1];
      assert j != n ==> all[j] == (rs + ks)[if j < n then j else j - 1];
    }
  }

  lemma PushNoRepeats(rs: seq<nat>, ks: seq<nat>, x: nat)
    requires NoRepeats(rs + ks) && x !in rs && x !in ks
    ensures NoRepeats(rs + (ks + [x]))
  {
    assert rs + (ks + [x]) == (rs + ks) + [x];
  }

  /** The order survives every way an entry can move a message. */
  lemma MoveKeepsOrder(sent: seq<Envelope>, received: seq<Envelope>, waiting: seq<Envelope>, rs: seq<nat>, ks: seq<nat>,
                       more: seq<Envelope>, out: seq<Envelope>, now: seq<Envelope>, k: nat)
    returns (rs': seq<nat>, ks': seq<nat>)
    requires Ordered(sent, received, waiting, rs, ks) && Moves(waiting, more, out, now, k)
    ensures Ordered(sent + more, received + out, now, rs', ks')
  {
    if more == [] && out == [] {
      rs', ks' := rs, ks;
      assert sent + more == sent && received + out == received;
    } else if out == [] {
      rs', ks' := rs, ks + [|sent|];
      PushNoRepeats(rs, ks, |sent|);
      assert received + out == received;
    } else if more != [] {
      rs', ks' := rs + [|sent|], ks;
      PassNoRepeats(rs, ks, |sent|);
    } else {
      rs', ks' := rs + [ks[k]], ks[..k] + ks[k + 1..];
      PullNoRepeats(rs, ks, k);
      assert sent + more == sent;
    }
  }

  /** Over every run and for every process: the messages accepted for it are those it has received, each
      once, and those in its queue, which stand there in the order they were accepted. */
  lemma {:induction false} ArrivalOrder(hs: seq<History>, es: seq<Event>, d: Pid) returns (rs: seq<nat>, ks: seq<nat>)
    requires IsRun(hs, es) && d < |hs[|es|].s.procs|
    ensures var h := hs[|es|];
            d < |h.s.queues| && Ordered(To(h.sent, d), To(h.received, d), Waiting(h.s, d), rs, ks)
    decreases |es|
  {
    RunsKeepInv(hs, es);
    rs, ks := [], [];
    if es != [] {
      RunPrefix(hs, es);
      var h, e := hs[|es| - 1], es[|es| - 1];
      RunsKeepInv(hs[..|es|], es[..|es| - 1]);
      rs, ks := ArrivalOrder(hs[..|es|], es[..|es| - 1], d);
      var r := Step(h.s, e);
      var k := StepMoves(h.s, e, d);
      ToAppend(h.sent, r.sent, d);
      ToAppend(h.received, r.received, d);
      rs, ks := MoveKeepsOrder(To(h.sent, d), To(h.received, d), Waiting(h.s, d), rs, ks,
                               To(r.sent, d), To(r.received, d), Waiting(r.s, d), k);
    }
  }

  /** At every point of every run: a receive from ANY that takes a message takes, of all messages accepted
      for its caller and not yet received, the one accepted earliest. */
  lemma AnyTakesEarliest(hs: seq<History>, es: seq<Event>, d: Pid, a: Addr) returns (rs: seq<nat>, ks: seq<nat>)
    requires IsRun(hs, es) && Enabled(hs[|es|].s, ReceiveFrom(d, Any, a))
    requires Receive(hs[|es|].s, d, Any, a).Next? && Receive(hs[|es|].s, d, Any, a).received != []
    ensures var h, r := hs[|es|], Receive(hs[|es|].s, d, Any, a);
            Ordered(To(h.sent, d), To(h.received, d), Waiting(h.s, d), rs, ks) &&
            ks != [] && r.received == [To(h.sent, d)[ks[0]]] && forall i <- ks :: ks[0] <= i
  {
    RunsKeepInv(hs, es);
    rs, ks := ArrivalOrder(hs, es, d);
    var k := StepMoves(hs[|es|].s, ReceiveFrom(d, Any, a), d);
  }

  // ---------------------------------------------------------------- blocking and interrupts

  /** The pending interrupt is in the buffer of `p` at `a` and no longer pending; nothing else changed. */
  ghost predicate InterruptServed(s: State, r: Outcome, p: Pid, a: Addr) {
    p < |s.procs| && r.Next? && r.sent == [] && r.received == [] &&
    Load(r.s.mem, p, a) == Message(INTERRUPT, HARD_INT, ZERO_BODY) && SameBuffers(s.mem, r.s.mem, (p, a), (p, a)) &&
    r.s.procs == s.procs[p := s.procs[p].(hasInt := false)] && r.s.queues == s.queues
  }

  /** `p` is blocked on `src` with the buffer at `a`, which names it; nothing else changed. */
  ghost predicate NowBlocked(s: State, r: Outcome, p: Pid, src: Source, a: Addr) {
    p < |s.procs| && r.Next? && r.sent == [] && r.received == [] &&
    Load(r.s.mem, p, a) == Load(s.mem, p, a).(source := p) && SameBuffers(s.mem, r.s.mem, (p, a), (p, a)) &&
    r.s.procs == s.procs[p := Proc(RECEIVING, Some(a), src, None, s.procs[p].hasInt)] && r.s.queues == s.queues
  }

  /** A sender that a receive from `src` listens to is queued. */
  predicate SenderQueued(q: seq<Pid>, src: Source) {
    if src == Any then q != [] else src.From? && src.pid in q
  }

  /** The k-th process queued for `p` was taken: the first for ANY, the named one otherwise. */
  ghost predicate TakenAt(s: State, r: Outcome, p: Pid, src: Source, a: Addr, k: int) {
    p < |s.queues| && 0 <= k < |s.queues[p]| && r.Next? && Taken(s, r, p, s.queues[p][k], a) &&
    (if src == Any then k == 0 else src == From(s.queues[p][k])) &&
    r.s.queues == s.queues[p := s.queues[p][..k] + s.queues[p][k + 1..]]
  }

  /** What a receive does.  A pending interrupt comes first, for ANY and INTERRUPT; otherwise the message of a
      queued sender it listens to is taken; otherwise the caller blocks.  It stops exactly for a receive
      from oneself, and for a block on one process with an interrupt pending. */
  lemma ReceiveBlocksOrCompletes(s: State, p: Pid, src: Source, a: Addr)
    requires Inv(s) && Enabled(s, ReceiveFrom(p, src, a))
    ensures var r, q, pending := Receive(s, p, src, a), s.queues[p], s.procs[p].hasInt;
            if src == From(p) then r == Stop(SelfReceive)
            else if pending && (src == Any || src == Interrupt) then InterruptServed(s, r, p, a)
            else if SenderQueued(q, src) then exists k :: TakenAt(s, r, p, src, a, k)
            else if pending then r == Stop(InterruptPending)
            else NowBlocked(s, r, p, src, a)
  {
    assert RecordOk(s.procs, p);
    var q := s.queues[p];
    if SenderQueued(q, src) && src != From(p) && !(s.procs[p].hasInt && src == Any) {
      var f := if src == Any then q[0] else src.pid;
      assert f in q;
      assert Sends(s.procs, f, p) && RecordOk(s.procs, f);
      ReceiveDelivers(s, p, src, a);
      var r := Receive(s, p, src, a);
      var k :| 0 <= k < |q| && q[k] == r.received[0].from && (src == Any ==> k == 0) &&
        (src.From? ==> q[k] == src.pid) && r.s.queues == s.queues[p := q[..k] + q[k + 1..]] && Taken(s, r, p, q[k], a);
      assert TakenAt(s, r, p, src, a, k);
    }
  }

  /** What the report of an interrupt does: a process blocked on ANY or INTERRUPT is woken with the source and
      type in its buffer; for any other process the interrupt is remembered.  Nothing else changes. */
  lemma InterruptWakesOrWaits(s: State, p: Pid)
    requires Inv(s) && Enabled(s, InterruptFor(p))
    ensures var r, d := Notify(s, p), s.procs[p];
            r.Next? && r.sent == [] && r.received == [] && r.s.queues == s.queues &&
            if d.flags == RECEIVING && d.recvFrom in {Any, Interrupt}
            then d.msg.Some? && r.s.procs == s.procs[p := Proc(RUNNABLE, None, NoTask, None, false)] &&
                 Load(r.s.mem, p, d.msg.value) ==
                   Message(INTERRUPT, HARD_INT, Load(s.mem, p, d.msg.value).body) &&
                 SameBuffers(s.mem, r.s.mem, (p, d.msg.value), (p, d.msg.value))
            else r.s.mem == s.mem && r.s.procs == s.procs[p := d.(hasInt := true)]
  {
    assert RecordOk(s.procs, p);
  }

  /** A blocked receiver stays blocked on the same source and buffer until that source serves it: a
      sender it listens to, whose message is then in the buffer, or an interrupt. */
  lemma BlockedUntilServed(s: State, e: Event, p: Pid)
    requires Inv(s) && Enabled(s, e) && Step(s, e).Next? && p < |s.procs| && s.procs[p].flags == RECEIVING
    ensures var d, r := s.procs[p], Step(s, e);
            d.msg.Some? && p < |r.s.procs| &&
            (r.s.procs[p].(hasInt := d.hasInt) == d ||
             (e.SendTo? && e.dst == p && (d.recvFrom == Any || d.recvFrom == From(e.p)) &&
              r.s.procs[p].flags == RUNNABLE &&
              r.received == [Envelope(e.p, p, Load(r.s.mem, p, d.msg.value))]) ||
             (e == InterruptFor(p) && (d.recvFrom == Any || d.recvFrom == Interrupt) &&
              r.s.procs[p].flags == RUNNABLE &&
              Load(r.s.mem, p, d.msg.value) == Load(s.mem, p, d.msg.value).(source := INTERRUPT, kind := HARD_INT)))
  {
    assert RecordOk(s.procs, p);
    if e.ReceiveFrom? && Step(s, e).received != [] {
      TakenIsQueued(s, e);
    }
  }

  /** An interrupt that finds its process not listening is remembered until that process next receives
      from ANY or INTERRUPT. */
  lemma InterruptRemembered(s: State, e: Event, p: Pid)
    requires Inv(s) && Enabled(s, e) && Step(s, e).Next? && p < |s.procs|
    requires s.procs[p].hasInt ||
             (e == InterruptFor(p) && !(s.procs[p].flags == RECEIVING && s.procs[p].recvFrom in {Any, Interrupt}))
    ensures var t := Step(s, e).s;
            p < |t.procs| && (t.procs[p].hasInt || (e.ReceiveFrom? && e.p == p && e.src in {Any, Interrupt}))
  {
    assert RecordOk(s.procs, p) && Attentive(s.procs, s.queues[p], p);
    if e.ReceiveFrom? && Step(s, e).received != [] {
      TakenIsQueued(s, e);
    }
  }

  // ---------------------------------------------------------------- runs that stop

  /** Two processes that send to each other: the second send stops. */
  lemma MutualSendStops()
    ensures exists hs: seq<History>, es: seq<Event> :: IsRun(hs, es) && Enabled(hs[|es|].s, SendTo(1, 0, 0)) &&
              Step(hs[|es|].s, SendTo(1, 0, 0)) == Stop(Ipc.Deadlock)
  {
    var h, e := Boot(2, 2), SendTo(0, 1, 0);
    ReachesNothing(h.s.procs, 1, 0);
    var r := Step(h.s, e);
    var h' := History(r.s, h.sent + r.sent, h.received + r.received);
    assert IsRun([h, h'], [e]);
    ReachesStep(h'.s.procs, 0, 1, 1);
    assert Step(h'.s, SendTo(1, 0, 0)) == Stop(Ipc.Deadlock);
  }

  /** A process with a pending interrupt that receives from one named process, which does not send: it
      stops at the assertion that follows the block. */
  lemma PendingInterruptStops()
    ensures exists hs: seq<History>, es: seq<Event> ::
              IsRun(hs, es) && Enabled(hs[|es|].s, ReceiveFrom(0, From(1), 0)) &&
              Step(hs[|es|].s, ReceiveFrom(0, From(1), 0)) == Stop(InterruptPending)
  {
    var h, e := Boot(2, 2), InterruptFor(0);
    var r := Step(h.s, e);
    var h' := History(r.s, h.sent + r.sent, h.received + r.received);
    assert IsRun([h, h'], [e]);
    assert Step(h'.s, ReceiveFrom(0, From(1), 0)) == Stop(InterruptPending);
  }
}
