/** The process table of kernel/proc.c: the kernel entries of Ipc.dfy implemented on the intrusive
    queues `q_sending` / `next_sending`.  Each record of the table is spread over parallel arrays;
    every assertion the source makes on the way is an assertion here, and is proved. */
module ProcTable {
  import opened Options
  import opened Ipc
  import opened IpcInvariant

  type Link = Option<Pid>

  function LinkAt(q: seq<Pid>, i: nat): Link {
    if i < |q| then Some(q[i]) else None
  }

  /** The chain of links starting at `head` visits exactly `q`, in order, and ends. */
  ghost predicate Chain(head: Link, next: seq<Link>, q: seq<Pid>) {
    head == LinkAt(q, 0) && Follows(next, q)
  }

  ghost predicate Follows(next: seq<Link>, q: seq<Pid>) {
    (forall i :: 0 <= i < |q| ==> q[i] < |next|) &&
    (forall i {:trigger next[q[i]]} :: 0 <= i < |q| ==> next[q[i]] == LinkAt(q, i + 1))
  }

  ghost predicate Linked(heads: seq<Link>, next: seq<Link>, queues: seq<seq<Pid>>) {
    |heads| == |next| == |queues| &&
    forall d :: 0 <= d < |heads| ==> Chain(heads[d], next, queues[d])
  }

  ghost predicate Disjoint(queues: seq<seq<Pid>>) {
    forall c, d :: 0 <= c < |queues| && 0 <= d < |queues| && c != d ==> forall x <- queues[c] :: x !in queues[d]
  }

  /** The heads and links after `x` is put at the end of the queue `q` of `dst`. */
  function Headed(heads: seq<Link>, q: seq<Pid>, dst: Pid, x: Pid): seq<Link>
    requires dst < |heads|
  {
    if q == [] then heads[dst := Some(x)] else heads
  }

  function Tailed(next: seq<Link>, q: seq<Pid>, x: Pid): seq<Link>
    requires x < |next| && (q != [] ==> q[|q| - 1] < |next|)
  {
    (if q == [] then next else next[q[|q| - 1] := Some(x)])[x := None]
  }

  lemma AppendLinked(heads: seq<Link>, next: seq<Link>, queues: seq<seq<Pid>>, dst: Pid, x: Pid)
    requires Linked(heads, next, queues) && Disjoint(queues) && dst < |heads| && x < |next|
    requires NoRepeats(queues[dst]) && forall d :: 0 <= d < |queues| ==> x !in queues[d]
    ensures var q := queues[dst];
            (q != [] ==> q[|q| - 1] < |next|) &&
            Linked(Headed(heads, q, dst, x), Tailed(next, q, x), queues[dst := q + [x]])
  {
    var q := queues[dst];
    assert Chain(heads[dst], next, q);
    var heads', next' := Headed(heads, q, dst, x), Tailed(next, q, x);
    var queues' := queues[dst := q + [x]];
    forall d | 0 <= d < |heads'| ensures Chain(heads'[d], next', queues'[d]) {
      assert Chain(heads[d], next, queues[d]);
      assert forall i :: 0 <= i < |queues[d]| ==> queues[d][i] in queues[d];
    }
  }

  /** The links after `q[k]` is taken out of its chain. */
  function Unlinked(next: seq<Link>, q: seq<Pid>, k: nat): seq<Link>
    requires k < |q| && q[k] < |next| && (0 < k ==> q[k - 1] < |next|)
  {
    (if k == 0 then next else next[q[k - 1] := next[q[k]]])[q[k] := None]
  }

  /** The heads after the k-th process queued for `p` is taken out. */
  function Advanced(heads: seq<Link>, next: seq<Link>, q: seq<Pid>, p: Pid, k: nat): seq<Link>
    requires p < |heads| && k < |q| && q[0] < |next|
  {
    if k == 0 then heads[p := next[q[0]]] else heads
  }

  ghost predicate Removable(heads: seq<Link>, next: seq<Link>, queues: seq<seq<Pid>>, p: Pid, k: nat) {
    p < |heads| && p < |queues| && k < |queues[p]| && queues[p][0] < |next| && queues[p][k] < |next| &&
    (0 < k ==> queues[p][k - 1] < |next|)
  }

  lemma RemoveChain(head: Link, next: seq<Link>, q: seq<Pid>, k: nat)
    requires Chain(head, next, q) && NoRepeats(q) && k < |q|
    ensures Chain(if k == 0 then next[q[0]] else head, Unlinked(next, q, k), q[..k] + q[k + 1..])
  {
  }

  lemma RemoveLinked(heads: seq<Link>, next: seq<Link>, queues: seq<seq<Pid>>, p: Pid, k: nat)
    requires Linked(heads, next, queues) && Disjoint(queues) && p < |heads| && k < |queues[p]|
    requires NoRepeats(queues[p])
    ensures var q := queues[p];
            Removable(heads, next, queues, p, k) &&
            Linked(Advanced(heads, next, q, p, k), Unlinked(next, q, k), queues[p := q[..k] + q[k + 1..]])
  {
    var q := queues[p];
    assert Chain(heads[p], next, q);
    RemoveChain(heads[p], next, q, k);
    var heads' := Advanced(heads, next, q, p, k);
    var next' := Unlinked(next, q, k);
    var queues' := queues[p := q[..k] + q[k + 1..]];
    forall d | 0 <= d < |heads'| && d != p ensures Chain(heads'[d], next', queues'[d]) {
      assert Chain(heads[d], next, queues[d]);
      assert q[k] in q && (0 < k ==> q[k - 1] in q);
      assert q[k] !in queues[d] && (0 < k ==> q[k - 1] !in queues[d]);
    }
    assert Chain(heads'[p], next', queues'[p]);
  }

  lemma QueuesDisjoint(s: State)
    requires QueuesOk(s.procs, s.queues)
    ensures Disjoint(s.queues)
  {
  }

  /** The links represent the queues of `s`, and a process that is not sending is linked nowhere. */
  ghost predicate Represents(heads: seq<Link>, next: seq<Link>, s: State) {
    Linked(heads, next, s.queues) && |next| == |s.procs| &&
    forall p :: 0 <= p < |next| && !s.procs[p].flags.sending ==> next[p].None?
  }

  /** Idle processes stay unlinked when a blocked sender is taken off its queue and released. */
  lemma IdleStayUnlinked(procs: seq<Proc>, next: seq<Link>, q: seq<Pid>, k: nat)
    requires |next| == |procs| && k < |q| && q[k] < |next|
    requires (0 < k ==> q[k - 1] < |next| && procs[q[k - 1]].flags.sending)
    requires forall p :: 0 <= p < |next| && !procs[p].flags.sending ==> next[p].None?
    ensures var procs' := procs[q[k] := Released(procs[q[k]])];
            forall p :: 0 <= p < |next| && !procs'[p].flags.sending && (0 < k ==> q[k - 1] != q[k]) ==>
              Unlinked(next, q, k)[p].None?
  {
  }

  lemma TakeRepresents(heads: seq<Link>, next: seq<Link>, s: State, p: Pid, k: nat, m: Addr)
    requires Inv(s) && Represents(heads, next, s) && p < |s.procs| && k < |s.queues[p]| && s.procs[p].flags == RUNNABLE
    ensures var q, r := s.queues[p], Take(s, p, s.queues[p][k], m);
            Removable(heads, next, s.queues, p, k) && r.Next? && r.s.queues == s.queues[p := q[..k] + q[k + 1..]] &&
            Inv(r.s) && Represents(Advanced(heads, next, q, p, k), Unlinked(next, q, k), r.s)
  {
    var q := s.queues[p];
    var f := q[k];
    var queues' := s.queues[p := q[..k] + q[k + 1..]];
    assert f in q && (0 < k ==> q[k - 1] in q);
    assert Sends(s.procs, f, p) && RecordOk(s.procs, f);
    assert 0 < k ==> Sends(s.procs, q[k - 1], p);
    assert NoRepeats(q);
    TakeKeepsInv(s, p, f, Take(s, p, f, m).s.mem);
    assert Take(s, p, f, m).s.queues == queues' by {
      WithoutAt(q, k);
    }
    assert Removable(heads, next, s.queues, p, k) &&
           Linked(Advanced(heads, next, q, p, k), Unlinked(next, q, k), queues') by {
      QueuesDisjoint(s);
      RemoveLinked(heads, next, s.queues, p, k);
    }
    IdleStayUnlinked(s.procs, next, q, k);
  }

  lemma EnqueueLinked(heads: seq<Link>, next: seq<Link>, s: State, p: Pid, dst: Pid, f: Proc)
    requires Inv(s) && Represents(heads, next, s) && p < |s.procs| && dst < |s.procs| && s.procs[p].flags == RUNNABLE
    requires f.flags == SENDING
    ensures var q := s.queues[dst];
            (q != [] ==> q[|q| - 1] < |next|) &&
            Linked(Headed(heads, q, dst, p), Tailed(next, q, p), s.queues[dst := q + [p]]) &&
            forall x :: 0 <= x < |next| && !s.procs[p := f][x].flags.sending ==> Tailed(next, q, p)[x].None?
  {
    var q := s.queues[dst];
    assert forall d :: 0 <= d < |s.queues| ==> !Sends(s.procs, p, d);
    QueuesDisjoint(s);
    AppendLinked(heads, next, s.queues, dst, p);
    if q != [] {
      assert q[|q| - 1] in q;
      assert Sends(s.procs, q[|q| - 1], dst);
    }
  }

  class Kernel {
    const procs: array<Proc>
    const qSending: array<Link>
    const nextSending: array<Link>
    var mem: Memory
    ghost var queues: seq<seq<Pid>>

    ghost function Abs(): State
      reads this, procs
    {
      State(procs[..], queues, mem)
    }

    ghost predicate Valid()
      reads this, procs, qSending, nextSending
    {
      qSending != nextSending && Inv(Abs()) && Represents(qSending[..], nextSending[..], Abs())
    }

    /** kernel_main: the first `ready` records runnable, the others free, all queues empty. */
    constructor (n: nat, ready: nat)
      ensures Valid() && fresh(procs) && fresh(qSending) && fresh(nextSending)
      ensures procs.Length == n && mem == map[]
      ensures forall p :: 0 <= p < n ==>
                procs[p] == Proc(if p < ready then RUNNABLE else FREE_SLOT, None, NoTask, None, false) &&
                queues[p] == []
    {
      procs := new Proc[n](i => Proc(if i < ready then RUNNABLE else FREE_SLOT, None, NoTask, None, false));
      qSending := new Link[n](_ => None);
      nextSending := new Link[n](_ => None);
      mem := map[];
      queues := seq(n, _ => []);
      new;
      forall p | 0 <= p < n ensures Finite(procs[..], p) {
        assert Settles(procs[..], p, 0);
      }
    }

    /** The walk along blocked sends from `dest`: 1 exactly when it leads to `src`. */
    method Deadlock(src: Pid, dest: Pid) returns (r: bool)
      requires Valid() && dest < procs.Length
      ensures r <==> Reaches(procs[..], dest, src)
    {
      var p := dest;
      assert Finite(procs[..], dest);
      ghost var n: nat :| Settles(procs[..], dest, n);
      while procs[p].flags.sending
        invariant Settles(procs[..], p, n)
        invariant Reaches(procs[..], dest, src) <==> Reaches(procs[..], p, src)
        decreases n
      {
        assert RecordOk(procs[..], p);
        ReachesStep(procs[..], p, procs[p].sendTo.value, src);
        if procs[p].sendTo == Some(src) {
          return true;
        }
        p := procs[p].sendTo.value;
        n := n - 1;
      }
      ReachesNothing(procs[..], p, src);
      return false;
    }

    method MsgSend(sender: Pid, dst: Pid, m: Addr) returns (stop: Option<Reason>)
      requires Valid() && sender < procs.Length && dst < procs.Length && procs[sender].flags == RUNNABLE
      requires (sender, m) in mem && mem[(sender, m)].source == sender
      modifies this, procs, qSending, nextSending
      ensures stop.Some? ==> Send(old(Abs()), sender, dst, m) == Stop(stop.value)
      ensures stop.None? ==>
                Valid() && Send(old(Abs()), sender, dst, m).Next? && Abs() == Send(old(Abs()), sender, dst, m).s
    {
      ghost var s := Abs();
      SendKeepsInv(s, sender, dst, m);
      assert RecordOk(procs[..], sender) && RecordOk(procs[..], dst);
      assert Stamp(s, sender, m) == mem;
      if sender == dst {
        return Some(SelfSend);
      }
      var cycle := Deadlock(sender, dst);
      if cycle {
        return Some(Ipc.Deadlock);
      }
      var d := procs[dst];
      if d.flags.receiving && (d.recvFrom == Any || d.recvFrom == From(sender)) {
        assert d.msg.Some?;
        mem := mem[(dst, d.msg.value) := mem[(sender, m)]];
        procs[dst] := procs[dst].(msg := None, flags := d.flags.(receiving := false), recvFrom := NoTask);
        assert procs[dst].flags == RUNNABLE && procs[dst].msg.None?;
        assert procs[dst].recvFrom == NoTask && procs[dst].sendTo.None?;
        assert procs[sender].flags == RUNNABLE && procs[sender].msg.None?;
        assert procs[sender].recvFrom == NoTask && procs[sender].sendTo.None?;
        assert procs[..] == s.procs[dst := Woken(d)];
      } else {
        Enqueue(sender, dst, m);
        assert procs[sender].flags == SENDING && procs[sender].msg.Some?;
        assert procs[sender].sendTo == Some(dst) && procs[sender].recvFrom == NoTask;
      }
      return None;
    }

    /** Block `sender` at the tail of the queue of `dst`. */
    method Enqueue(sender: Pid, dst: Pid, m: Addr)
      requires Valid() && sender < procs.Length && dst < procs.Length && sender != dst
      requires procs[sender].flags == RUNNABLE
      modifies this`queues, procs, qSending, nextSending
      ensures Linked(qSending[..], nextSending[..], queues)
      ensures queues == old(queues)[dst := old(queues)[dst] + [sender]]
      ensures procs[..] == old(procs[..])[sender := old(procs[sender]).(flags := SENDING, sendTo := Some(dst),
                                                                        msg := Some(m))]
      ensures forall p :: 0 <= p < nextSending.Length && !procs[p].flags.sending ==> nextSending[p].None?
    {
      ghost var f := procs[sender].(flags := SENDING, sendTo := Some(dst), msg := Some(m));
      EnqueueLinked(qSending[..], nextSending[..], Abs(), sender, dst, f);
      assert NoRepeats(queues[dst]);
      Append(sender, dst);
      procs[sender] := procs[sender].(flags := procs[sender].flags.(sending := true), sendTo := Some(dst),
                                      msg := Some(m));
    }

    /** Walk to the end of the queue of `dst` and link `sender` there. */
    method Append(sender: Pid, dst: Pid)
      requires qSending != nextSending && Linked(qSending[..], nextSending[..], queues)
      requires sender < |queues| && dst < |queues|
      modifies this`queues, qSending, nextSending
      ensures var q := old(queues)[dst];
              (q != [] ==> q[|q| - 1] < nextSending.Length) && queues == old(queues)[dst := q + [sender]] &&
              qSending[..] == Headed(old(qSending[..]), q, dst, sender) &&
              nextSending[..] == Tailed(old(nextSending[..]), q, sender)
    {
      ghost var q := queues[dst];
      assert Chain(qSending[dst], nextSending[..], q);
      if qSending[dst].Some? {
        var p := qSending[dst].value;
        ghost var k := 0;
        while nextSending[p].Some?
          invariant 0 <= k < |q| && p == q[k]
          decreases |q| - k
        {
          assert nextSending[..][q[k]] == LinkAt(q, k + 1);
          p := nextSending[p].value;
          k := k + 1;
        }
        assert nextSending[..][q[k]] == LinkAt(q, k + 1);
        nextSending[p] := Some(sender);
      } else {
        qSending[dst] := Some(sender);
      }
      nextSending[sender] := None;
      queues := queues[dst := q + [sender]];
    }

    method MsgReceive(me: Pid, src: Source, m: Addr) returns (stop: Option<Reason>)
      requires Valid() && me < procs.Length && procs[me].flags == RUNNABLE
      requires src != NoTask && (src.From? ==> src.pid < procs.Length)
      requires (me, m) in mem && mem[(me, m)].source == me
      modifies this, procs, qSending, nextSending
      ensures stop.Some? ==> Receive(old(Abs()), me, src, m) == Stop(stop.value)
      ensures stop.None? ==>
                Valid() && Receive(old(Abs()), me, src, m).Next? && Abs() == Receive(old(Abs()), me, src, m).s
    {
      ghost var s := Abs();
      ReceiveKeepsInv(s, me, src, m);
      assert Stamp(s, me, m) == mem;
      assert RecordOk(procs[..], me);
      if src == From(me) {
        return Some(SelfReceive);
      }
      if procs[me].hasInt && (src == Any || src == Interrupt) {
        mem := mem[(me, m) := Message(INTERRUPT, HARD_INT, ZERO_BODY)];
        procs[me] := procs[me].(hasInt := false);
        assert procs[me].flags == RUNNABLE && procs[me].sendTo.None? && procs[me].msg.None?;
        assert procs[..] == s.procs[me := s.procs[me].(hasInt := false)];
        return None;
      } else if src == Interrupt {
        Block(me, Interrupt, m);
        return None;
      }
      stop := TakeOrBlock(me, src, m);
    }

    /** A receive that is not served by an interrupt: take the message of a queued sender, or block. */
    method TakeOrBlock(me: Pid, src: Source, m: Addr) returns (stop: Option<Reason>)
      requires Valid() && me < procs.Length && procs[me].flags == RUNNABLE
      requires src == Any || (src.From? && src.pid < procs.Length && src.pid != me)
      requires src == Any ==> !procs[me].hasInt
      requires (me, m) in mem && mem[(me, m)].source == me
      modifies this, procs, qSending, nextSending
      ensures stop.Some? ==> Receive(old(Abs()), me, src, m) == Stop(stop.value)
      ensures stop.None? ==>
                Valid() && Receive(old(Abs()), me, src, m).Next? && Abs() == Receive(old(Abs()), me, src, m).s
    {
      ghost var s := Abs();
      ReceiveKeepsInv(s, me, src, m);
      assert Stamp(s, me, m) == mem;
      assert RecordOk(procs[..], me);
      var from, prev := None, None;
      ghost var k := 0;
      if src == Any {
        if qSending[me].Some? {
          from := qSending[me];
          assert Chain(qSending[me], nextSending[..], queues[me]);
          assert from.value in queues[me];
        }
      } else if procs[src.pid].flags.sending && procs[src.pid].sendTo == Some(me) {
        prev, k := FindPrevious(me, src.pid);
        from := Some(src.pid);
      }
      if from.Some? {
        assert from.value in queues[me];
        assert Sends(procs[..], from.value, me) && RecordOk(procs[..], from.value);
        assert procs[from.value].flags == SENDING && procs[from.value].sendTo == Some(me);
        assert procs[from.value].recvFrom == NoTask && procs[from.value].msg.Some?;
        TakeFrom(me, from.value, prev, m, k);
      } else {
        assert src == Any ==> Chain(qSending[me], nextSending[..], queues[me]);
        Block(me, src, m);
        if procs[me].hasInt {
          return Some(InterruptPending);
        }
        assert procs[me].flags == RECEIVING && procs[me].msg.Some?;
        assert procs[me].recvFrom != NoTask && procs[me].sendTo.None?;
      }
      return None;
    }

    /** Mark `me` as blocked until `src` sends to the buffer `m`. */
    method Block(me: Pid, src: Source, m: Addr)
      requires me < procs.Length
      modifies procs
      ensures procs[..] == Wait(old(Abs()), me, src, m).s.procs
    {
      procs[me] := procs[me].(flags := procs[me].flags.(receiving := true), recvFrom := src, msg := Some(m));
    }

    /** Walk the queue of `me` to `src`; the result is the process queued just before it. */
    method FindPrevious(me: Pid, src: Pid) returns (prev: Link, ghost k: nat)
      requires Valid() && me < procs.Length && Sends(procs[..], src, me)
      ensures k < |queues[me]| && queues[me][k] == src
      ensures prev == if k == 0 then None else Some(queues[me][k - 1])
    {
      ghost var q := queues[me];
      assert Chain(qSending[me], nextSending[..], q);
      assert src in q;
      var p := qSending[me];
      prev, k := None, 0;
      while p.Some? && p.value != src
        invariant 0 <= k <= |q| && p == LinkAt(q, k) && src !in q[..k]
        invariant prev == if k == 0 then None else Some(q[k - 1])
        decreases |q| - k
      {
        prev := p;
        p := nextSending[p.value];
        k := k + 1;
      }
    }

    /** Take the message of `from`, the k-th process queued for `me`, and release it. */
    method TakeFrom(me: Pid, from: Pid, prev: Link, m: Addr, ghost k: nat)
      requires Valid() && me < procs.Length && procs[me].flags == RUNNABLE
      requires k < |queues[me]| && queues[me][k] == from && prev == if k == 0 then None else Some(queues[me][k - 1])
      requires (me, m) in mem && mem[(me, m)].source == me
      modifies this, procs, qSending, nextSending
      ensures Valid() && Take(old(Abs()), me, from, m).Next? && Abs() == Take(old(Abs()), me, from, m).s
    {
      ghost var s := Abs();
      assert Stamp(s, me, m) == mem;
      TakeRepresents(qSending[..], nextSending[..], s, me, k, m);
      ghost var t := Take(s, me, from, m).s;
      assert NoRepeats(queues[me]);
      Dequeue(me, from, prev, k);
      CopyAndRelease(me, from, m);
      assert Abs() == t;
    }

    /** Copy the message of the blocked sender `from` to the buffer of `me` and wake the sender. */
    method CopyAndRelease(me: Pid, from: Pid, m: Addr)
      requires from < procs.Length && procs[from].msg.Some?
      modifies this`mem, procs
      ensures mem == old(mem)[(me, m) := Load(old(mem), from, old(procs[from]).msg.value)]
      ensures procs[..] == old(procs[..])[from := Released(old(procs[from]))]
    {
      var f := procs[from];
      mem := mem[(me, m) := Load(mem, from, f.msg.value)];
      procs[from] := f.(msg := None, flags := f.flags.(sending := false), sendTo := None);
    }

    /** Unlink `from`, queued just after `prev`, from the queue of `me`. */
    method Dequeue(me: Pid, from: Pid, prev: Link, ghost k: nat)
      requires qSending != nextSending && Linked(qSending[..], nextSending[..], queues)
      requires me < |queues| && NoRepeats(queues[me])
      requires k < |queues[me]| && queues[me][k] == from && prev == if k == 0 then None else Some(queues[me][k - 1])
      modifies this`queues, qSending, nextSending
      ensures var q := old(queues)[me];
              Removable(old(qSending[..]), old(nextSending[..]), old(queues), me, k) &&
              qSending[..] == Advanced(old(qSending[..]), old(nextSending[..]), q, me, k) &&
              nextSending[..] == Unlinked(old(nextSending[..]), q, k) &&
              queues == old(queues)[me := q[..k] + q[k + 1..]]
    {
      ghost var q := queues[me];
      assert Chain(qSending[me], nextSending[..], q);
      if qSending[me] == Some(from) {
        assert k == 0;
        qSending[me] := nextSending[from];
        nextSending[from] := None;
      } else {
        assert prev.Some?;
        nextSending[prev.value] := nextSending[from];
        nextSending[from] := None;
      }
      queues := queues[me := q[..k] + q[k + 1..]];
    }

    /** inform_int. */
    method InformInt(p: Pid)
      requires Valid() && p < procs.Length
      modifies this`mem, procs
      ensures Valid() && Notify(old(Abs()), p).Next? && Abs() == Notify(old(Abs()), p).s
    {
      ghost var s := Abs();
      NotifyKeepsInv(s, p);
      assert RecordOk(procs[..], p);
      var d := procs[p];
      if d.flags.receiving && (d.recvFrom == Interrupt || d.recvFrom == Any) {
        mem := mem[(p, d.msg.value) := Load(mem, p, d.msg.value).(source := INTERRUPT, kind := HARD_INT)];
        procs[p] := d.(msg := None, hasInt := false, flags := d.flags.(receiving := false), recvFrom := NoTask);
        assert procs[p].flags == RUNNABLE && procs[p].recvFrom == NoTask && procs[p].sendTo.None?;
        assert procs[..] == s.procs[p := Woken(d).(hasInt := false)];
      } else {
        procs[p] := d.(hasInt := true);
        assert procs[..] == s.procs[p := d.(hasInt := true)];
      }
    }

    /** sys_sendrec with SEND. */
    method SysSend(p: Pid, dst: Pid, m: Addr) returns (stop: Option<Reason>)
      requires Valid() && p < procs.Length && dst < procs.Length && procs[p].flags == RUNNABLE
      modifies this, procs, qSending, nextSending
      ensures stop.Some? ==> Send(old(Abs()), p, dst, m) == Stop(stop.value)
      ensures stop.None? ==> Valid() && Send(old(Abs()), p, dst, m).Next? && Abs() == Send(old(Abs()), p, dst, m).s
    {
      ghost var s := Abs();
      mem := mem[(p, m) := Load(mem, p, m).(source := p)];
      assert Stamp(Abs(), p, m) == Stamp(s, p, m);
      stop := MsgSend(p, dst, m);
    }

    /** sys_sendrec with RECEIVE. */
    method SysReceive(p: Pid, src: Source, m: Addr) returns (stop: Option<Reason>)
      requires Valid() && p < procs.Length && procs[p].flags == RUNNABLE
      requires src != NoTask && (src.From? ==> src.pid < procs.Length)
      modifies this, procs, qSending, nextSending
      ensures stop.Some? ==> Receive(old(Abs()), p, src, m) == Stop(stop.value)
      ensures stop.None? ==>
                Valid() && Receive(old(Abs()), p, src, m).Next? && Abs() == Receive(old(Abs()), p, src, m).s
    {
      ghost var s := Abs();
      mem := mem[(p, m) := Load(mem, p, m).(source := p)];
      assert Stamp(Abs(), p, m) == Stamp(s, p, m);
      stop := MsgReceive(p, src, m);
    }
  }
}
