/** Every kernel entry keeps the invariant of the rendezvous protocol, and an entry stops the
    machine only for the reasons the source names. */
module IpcInvariant {
  import opened Options
  import opened Ipc

  // ---------------------------------------------------------------- the waiting graph

  lemma {:induction false} SettlesMonotone(procs: seq<Proc>, p: Pid, n: nat, m: nat)
    requires Settles(procs, p, n) && n <= m
    ensures Settles(procs, p, m)
    decreases n
  {
    if procs[p].flags.sending {
      SettlesMonotone(procs, procs[p].sendTo.value, n - 1, m - 1);
    }
  }

  /** The two tables block the same senders on the same receivers. */
  predicate SameEdges(procs: seq<Proc>, procs': seq<Proc>) {
    |procs'| == |procs| &&
    forall p :: 0 <= p < |procs| ==>
      procs'[p].flags.sending == procs[p].flags.sending &&
      (procs[p].flags.sending ==> procs'[p].sendTo == procs[p].sendTo)
  }

  lemma {:induction false} SameEdgesSettle(procs: seq<Proc>, procs': seq<Proc>, p: Pid, n: nat)
    requires SameEdges(procs, procs') && Settles(procs, p, n)
    ensures Settles(procs', p, n)
    decreases n
  {
    if procs[p].flags.sending {
      SameEdgesSettle(procs, procs', procs[p].sendTo.value, n - 1);
    }
  }

  lemma SameEdgesAcyclic(procs: seq<Proc>, procs': seq<Proc>)
    requires SameEdges(procs, procs') && Acyclic(procs)
    ensures Acyclic(procs')
  {
    forall p | 0 <= p < |procs'| ensures Finite(procs', p) {
      assert Finite(procs, p);
      var n: nat :| Settles(procs, p, n);
      SameEdgesSettle(procs, procs', p, n);
    }
  }

  /** Removing an edge keeps every walk finite. */
  lemma {:induction false} ReleaseSettles(procs: seq<Proc>, f: Pid, p: Pid, n: nat)
    requires f < |procs| && Settles(procs, p, n)
    ensures Settles(procs[f := Released(procs[f])], p, n)
    decreases n
  {
    if procs[p].flags.sending && p != f {
      ReleaseSettles(procs, f, procs[p].sendTo.value, n - 1);
    }
  }

  lemma ReleaseAcyclic(procs: seq<Proc>, f: Pid)
    requires f < |procs| && Acyclic(procs)
    ensures Acyclic(procs[f := Released(procs[f])])
  {
    var procs' := procs[f := Released(procs[f])];
    forall p | 0 <= p < |procs'| ensures Finite(procs', p) {
      assert Finite(procs, p);
      var n: nat :| Settles(procs, p, n);
      ReleaseSettles(procs, f, p, n);
    }
  }

  /** One edge of the walk from `p`: it reaches `b` there or later. */
  lemma ReachesStep(procs: seq<Proc>, p: Pid, q: Pid, b: Pid)
    requires Sends(procs, p, q)
    ensures Reaches(procs, p, b) <==> q == b || Reaches(procs, q, b)
  {
    if q == b {
      assert IsPathBetween(procs, [p, q], p, b);
    }
    if Reaches(procs, q, b) {
      var ps :| IsPathBetween(procs, ps, q, b);
      var qs := [p] + ps;
      forall i | 0 <= i < |qs| - 1 ensures Sends(procs, qs[i], qs[i + 1]) {
        if 0 < i { assert Sends(procs, ps[i - 1], ps[i]); }
      }
      assert IsPathBetween(procs, qs, p, b);
    }
    if Reaches(procs, p, b) && q != b {
      var ps :| IsPathBetween(procs, ps, p, b);
      assert Sends(procs, ps[0], ps[1]);
      var qs := ps[1..];
      forall i | 0 <= i < |qs| - 1 ensures Sends(procs, qs[i], qs[i + 1]) {
        assert Sends(procs, ps[i + 1], ps[i + 2]);
      }
      assert IsPathBetween(procs, qs, q, b);
    }
  }

  lemma ReachesNothing(procs: seq<Proc>, p: Pid, b: Pid)
    requires p < |procs| && !procs[p].flags.sending
    ensures !Reaches(procs, p, b)
  {
    forall ps: seq<Pid> | 2 <= |ps| && ps[0] == p ensures !IsPath(procs, ps) {
      assert !Sends(procs, ps[0], ps[0 + 1]);
    }
  }

  /** The new edge p -> dst does not lie on the walk from `x`, which therefore ends as before. */
  lemma {:induction false} AvoidingSettles(procs: seq<Proc>, procs': seq<Proc>, p: Pid, x: Pid, n: nat)
    requires |procs'| == |procs| && forall i :: 0 <= i < |procs| && i != p ==> procs'[i] == procs[i]
    requires RecordsOk(procs)
    requires Settles(procs, x, n) && x != p && !Reaches(procs, x, p)
    ensures Settles(procs', x, n)
    decreases n
  {
    if procs[x].flags.sending {
      var y := procs[x].sendTo.value;
      assert RecordOk(procs, x);
      ReachesStep(procs, x, y, p);
      AvoidingSettles(procs, procs', p, y, n - 1);
    }
  }

  lemma {:induction false} ThroughSettles(procs: seq<Proc>, procs': seq<Proc>, p: Pid, x: Pid, n: nat, m: nat)
    requires |procs'| == |procs| && forall i :: 0 <= i < |procs| && i != p ==> procs'[i] == procs[i]
    requires Settles(procs, x, n) && Settles(procs', p, m)
    ensures Settles(procs', x, n + m)
    decreases n
  {
    if x == p {
      SettlesMonotone(procs', p, m, n + m);
    } else if procs[x].flags.sending {
      ThroughSettles(procs, procs', p, procs[x].sendTo.value, n - 1, m);
    }
  }

  /** Blocking `p` on a process whose sends do not lead back to `p` closes no cycle. */
  lemma EnqueueAcyclic(procs: seq<Proc>, procs': seq<Proc>, p: Pid, dst: Pid)
    requires RecordsOk(procs) && Acyclic(procs) && p < |procs| && dst < |procs| && p != dst
    requires !Reaches(procs, dst, p)
    requires |procs'| == |procs| && forall i :: 0 <= i < |procs| && i != p ==> procs'[i] == procs[i]
    requires Sends(procs', p, dst)
    ensures Acyclic(procs')
  {
    assert Finite(procs, dst);
    var k: nat :| Settles(procs, dst, k);
    AvoidingSettles(procs, procs', p, dst, k);
    assert Settles(procs', p, k + 1);
    forall x | 0 <= x < |procs'| ensures Finite(procs', x) {
      assert Finite(procs, x);
      var n: nat :| Settles(procs, x, n);
      ThroughSettles(procs, procs', p, x, n, k + 1);
    }
  }

  lemma {:induction false} PathSettles(procs: seq<Proc>, ps: seq<Pid>, n: nat)
    requires ps != [] && IsPath(procs, ps) && Settles(procs, ps[0], n)
    ensures |ps| - 1 <= n && Settles(procs, ps[|ps| - 1], n - (|ps| - 1))
    decreases |ps|
  {
    if 1 < |ps| {
      assert Sends(procs, ps[0], ps[1]);
      var qs := ps[1..];
      forall i | 0 <= i < |qs| - 1 ensures Sends(procs, qs[i], qs[i + 1]) {
        assert Sends(procs, ps[i + 1], ps[i + 2]);
      }
      PathSettles(procs, qs, n - 1);
    }
  }

  lemma {:induction false} SettlingIsNoCycle(procs: seq<Proc>, p: Pid, n: nat)
    requires Settles(procs, p, n)
    ensures !Reaches(procs, p, p)
    decreases n
  {
    if Reaches(procs, p, p) {
      var ps :| IsPathBetween(procs, ps, p, p);
      PathSettles(procs, ps, n);
      SettlingIsNoCycle(procs, p, n - (|ps| - 1));
    }
  }

  lemma {:induction false} DistinctPids(ps: seq<Pid>, n: nat)
    requires NoRepeats(ps) && forall i :: 0 <= i < |ps| ==> ps[i] < n
    ensures |ps| <= n
  {
    if ps == [] {
    } else if n - 1 in ps {
      var k :| 0 <= k < |ps| && ps[k] == n - 1;
      DistinctPids(ps[..k] + ps[k + 1..], n - 1);
    } else {
      assert ps[0] < n;
      DistinctPids(ps, n - 1);
    }
  }

  /** Walk on from the end of a repeat-free path: it stops, or comes back and closes a cycle. */
  lemma {:induction false} WalkOn(procs: seq<Proc>, ps: seq<Pid>) returns (n: nat)
    requires RecordsOk(procs) && forall p :: 0 <= p < |procs| ==> !Reaches(procs, p, p)
    requires ps != [] && NoRepeats(ps) && IsPath(procs, ps)
    requires forall i :: 0 <= i < |ps| ==> ps[i] < |procs|
    ensures Settles(procs, ps[|ps| - 1], n)
    decreases |procs| - |ps|
  {
    var last := ps[|ps| - 1];
    DistinctPids(ps, |procs|);
    if !procs[last].flags.sending { return 0; }
    assert RecordOk(procs, last);
    var next := procs[last].sendTo.value;
    assert Sends(procs, last, next);
    var qs := ps + [next];
    forall i | 0 <= i < |qs| - 1 ensures Sends(procs, qs[i], qs[i + 1]) {
      if i < |ps| - 1 { assert Sends(procs, ps[i], ps[i + 1]); }
    }
    if next in ps {
      var k :| 0 <= k < |ps| && ps[k] == next;
      var cycle := qs[k..];
      forall i | 0 <= i < |cycle| - 1 ensures Sends(procs, cycle[i], cycle[i + 1]) {
        assert Sends(procs, qs[k + i], qs[k + i + 1]);
      }
      assert IsPathBetween(procs, cycle, next, next);
      assert Reaches(procs, next, next);
      assert false;
    }
    DistinctPids(qs, |procs|);
    var m := WalkOn(procs, qs);
    return m + 1;
  }

  /** Finite walks are the same thing as the absence of cycles. */
  lemma AcyclicMeansNoCycle(procs: seq<Proc>)
    requires RecordsOk(procs)
    ensures Acyclic(procs) <==> forall p :: 0 <= p < |procs| ==> !Reaches(procs, p, p)
  {
    if Acyclic(procs) {
      forall p | 0 <= p < |procs| ensures !Reaches(procs, p, p) {
        assert Finite(procs, p);
        var n: nat :| Settles(procs, p, n);
        SettlingIsNoCycle(procs, p, n);
      }
    }
    if forall p :: 0 <= p < |procs| ==> !Reaches(procs, p, p) {
      forall p | 0 <= p < |procs| ensures Finite(procs, p) {
        var n := WalkOn(procs, [p]);
      }
    }
  }

  // ---------------------------------------------------------------- queues

  lemma {:induction false} WithoutMembers(q: seq<Pid>, x: Pid)
    requires NoRepeats(q)
    ensures NoRepeats(Without(q, x))
    ensures forall y :: y in Without(q, x) <==> y in q && y != x
  {
    if q != [] && q[0] != x {
      WithoutMembers(q[1..], x);
      assert q[0] !in q[1..];
    }
  }

  /** Removing a member splits the queue around it and keeps the order of the rest. */
  lemma {:induction false} WithoutAt(q: seq<Pid>, k: nat)
    requires NoRepeats(q) && k < |q|
    ensures Without(q, q[k]) == q[..k] + q[k + 1..]
  {
    if k != 0 {
      assert q[0] != q[k];
      WithoutAt(q[1..], k - 1);
      assert [q[0]] + q[1..][..k - 1] == q[..k];
    }
  }

  // ---------------------------------------------------------------- one entry at a time

  /** A change that moves no send edge keeps the queues and the waiting graph. */
  lemma SameEdgesKeep(procs: seq<Proc>, procs': seq<Proc>, queues: seq<seq<Pid>>)
    requires SameEdges(procs, procs') && Acyclic(procs) && QueuesOk(procs, queues)
    ensures Acyclic(procs') && QueuesOk(procs', queues)
    ensures forall a, b :: Sends(procs', a, b) <==> Sends(procs, a, b)
  {
    SameEdgesAcyclic(procs, procs');
    assert forall a, b :: Sends(procs', a, b) <==> Sends(procs, a, b);
  }

  lemma WakeKeepsInv(s: State, p: Pid, d: Proc, mem: Memory)
    requires Inv(s) && p < |s.procs|
    requires !s.procs[p].flags.sending && d.flags == RUNNABLE && d.msg.None? && d.recvFrom == NoTask && d.sendTo.None?
    ensures Inv(State(s.procs[p := d], s.queues, mem))
  {
    var procs' := s.procs[p := d];
    SameEdgesKeep(s.procs, procs', s.queues);
    forall q | 0 <= q < |procs'| ensures RecordOk(procs', q) && Attentive(procs', s.queues[q], q) {
      assert RecordOk(s.procs, q) && Attentive(s.procs, s.queues[q], q);
    }
  }

  lemma EnqueueKeepsInv(s: State, p: Pid, dst: Pid, f: Proc, mem: Memory)
    requires Inv(s) && p < |s.procs| && dst < |s.procs| && p != dst
    requires s.procs[p].flags == RUNNABLE && !Reaches(s.procs, dst, p) && !Listens(s.procs[dst], p)
    requires f.flags == SENDING && f.sendTo == Some(dst) && f.msg.Some? && f.recvFrom == NoTask
    ensures Inv(State(s.procs[p := f], s.queues[dst := s.queues[dst] + [p]], mem))
  {
    var procs' := s.procs[p := f];
    var queues' := s.queues[dst := s.queues[dst] + [p]];
    EnqueueAcyclic(s.procs, procs', p, dst);
    assert !Sends(s.procs, p, dst);
    forall a, b ensures Sends(procs', a, b) <==> (Sends(s.procs, a, b) || (a == p && b == dst)) {}
    forall q | 0 <= q < |procs'| ensures RecordOk(procs', q) && Attentive(procs', queues'[q], q) {
      assert RecordOk(s.procs, q) && Attentive(s.procs, s.queues[q], q);
    }
    forall d | 0 <= d < |queues'| ensures NoRepeats(queues'[d]) {
      assert NoRepeats(s.queues[d]);
    }
  }

  lemma TakeKeepsInv(s: State, p: Pid, f: Pid, mem: Memory)
    requires Inv(s) && p < |s.procs| && Sends(s.procs, f, p) && s.procs[p].flags == RUNNABLE
    ensures Inv(State(s.procs[f := Released(s.procs[f])], s.queues[p := Without(s.queues[p], f)], mem))
  {
    var procs' := s.procs[f := Released(s.procs[f])];
    var queues' := s.queues[p := Without(s.queues[p], f)];
    ReleaseAcyclic(s.procs, f);
    WithoutMembers(s.queues[p], f);
    assert RecordOk(s.procs, f) && RecordOk(s.procs, p);
    forall a, b ensures Sends(procs', a, b) <==> (Sends(s.procs, a, b) && a != f) {}
    forall q | 0 <= q < |procs'| ensures RecordOk(procs', q) && Attentive(procs', queues'[q], q) {
      assert RecordOk(s.procs, q) && Attentive(s.procs, s.queues[q], q);
    }
  }

  lemma WaitKeepsInv(s: State, p: Pid, src: Source, d: Proc, mem: Memory)
    requires Inv(s) && p < |s.procs| && s.procs[p].flags == RUNNABLE
    requires src != NoTask && (src.From? ==> src.pid < |s.procs| && src.pid != p && !Sends(s.procs, src.pid, p))
    requires src == Any ==> s.queues[p] == [] && !d.hasInt
    requires src == Interrupt ==> !d.hasInt
    requires d.flags == RECEIVING && d.recvFrom == src && d.msg.Some? && d.sendTo.None?
    ensures Inv(State(s.procs[p := d], s.queues, mem))
  {
    var procs' := s.procs[p := d];
    SameEdgesKeep(s.procs, procs', s.queues);
    forall q | 0 <= q < |procs'| ensures RecordOk(procs', q) && Attentive(procs', s.queues[q], q) {
      assert RecordOk(s.procs, q) && Attentive(s.procs, s.queues[q], q);
    }
  }

  lemma SendKeepsInv(s: State, p: Pid, dst: Pid, a: Addr)
    requires Inv(s) && p < |s.procs| && dst < |s.procs| && s.procs[p].flags == RUNNABLE
    ensures Send(s, p, dst, a).Next? ==> Inv(Send(s, p, dst, a).s)
    ensures Send(s, p, dst, a).Stop? <==> p == dst || Reaches(s.procs, dst, p)
    ensures Send(s, p, dst, a).Stop? ==> Send(s, p, dst, a).reason in {SelfSend, Deadlock}
  {
    assert RecordOk(s.procs, p) && RecordOk(s.procs, dst);
    if p != dst && !Reaches(s.procs, dst, p) {
      var d := s.procs[dst];
      var s' := Send(s, p, dst, a).s;
      if Listens(d, p) {
        WakeKeepsInv(s, dst, Woken(d), s'.mem);
      } else {
        EnqueueKeepsInv(s, p, dst, s'.procs[p], s'.mem);
      }
    }
  }

  lemma ReceiveKeepsInv(s: State, p: Pid, src: Source, a: Addr)
    requires Inv(s) && p < |s.procs| && s.procs[p].flags == RUNNABLE
    requires src != NoTask && (src.From? ==> src.pid < |s.procs|)
    ensures Receive(s, p, src, a).Next? ==> Inv(Receive(s, p, src, a).s)
    ensures Receive(s, p, src, a).Stop? <==>
            src.From? && (src.pid == p || (s.procs[p].hasInt && !Sends(s.procs, src.pid, p)))
    ensures Receive(s, p, src, a).Stop? ==> Receive(s, p, src, a).reason in {SelfReceive, InterruptPending}
  {
    var d := s.procs[p];
    assert RecordOk(s.procs, p);
    var r := Receive(s, p, src, a);
    if src == From(p) {
    } else if d.hasInt && (src == Any || src == Interrupt) {
      WakeKeepsInv(s, p, d.(hasInt := false), r.s.mem);
    } else if src == Any && s.queues[p] != [] {
      var f := s.queues[p][0];
      assert f in s.queues[p];
      assert RecordOk(s.procs, f);
      TakeKeepsInv(s, p, f, r.s.mem);
    } else if src.From? && Sends(s.procs, src.pid, p) {
      assert RecordOk(s.procs, src.pid);
      TakeKeepsInv(s, p, src.pid, r.s.mem);
    } else if r.Next? {
      WaitKeepsInv(s, p, src, r.s.procs[p], r.s.mem);
    }
  }

  lemma NotifyKeepsInv(s: State, p: Pid)
    requires Inv(s) && p < |s.procs|
    ensures Notify(s, p).Next? && Inv(Notify(s, p).s)
  {
    var d := s.procs[p];
    assert RecordOk(s.procs, p);
    if d.flags.receiving && (d.recvFrom == Interrupt || d.recvFrom == Any) {
      WakeKeepsInv(s, p, Woken(d).(hasInt := false), Notify(s, p).s.mem);
    } else {
      var procs' := s.procs[p := d.(hasInt := true)];
      SameEdgesKeep(s.procs, procs', s.queues);
      forall q | 0 <= q < |procs'| ensures RecordOk(procs', q) && Attentive(procs', s.queues[q], q) {
        assert RecordOk(s.procs, q) && Attentive(s.procs, s.queues[q], q);
      }
    }
  }
}
