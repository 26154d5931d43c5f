/** Descriptors and inodes as shared objects: the reference counts of fs/open.c, fs/main.c and
    fs/link.c over every run of open, close, fork, exit, stat and unlink. */
module RefCounts {
  import opened Options

  /** An entry of a process's `filp` table: the descriptor it points at, if any. */
  type Ref = Option<nat>

  /** A slot of fd_table: `fd_cnt` and `fd_inode` (a slot of inode_table). */
  datatype Desc = Desc(cnt: int, node: Option<nat>)

  /** A slot of inode_table: `i_num` and `i_cnt`; a slot whose count is 0 is free. */
  datatype Node = Node(num: nat, cnt: int)

  /** `rows[p]` is the `filp` table of process p, `root` the slot of the root directory.  `used` are the
      inode numbers marked in the inode map, `refused` the numbers of the unlinks that were refused. */
  datatype State = State(rows: seq<seq<Ref>>, fds: seq<Desc>, nodes: seq<Node>, root: nat,
                         used: set<nat>, refused: multiset<nat>)

  // ---------------------------------------------------------------- counting entries

  /** How many entries of `row` point at a descriptor of `ds`. */
  function Hits(row: seq<Ref>, ds: set<nat>): nat {
    if row == [] then 0 else Hit(row[0], ds) + Hits(row[1..], ds)
  }

  function Hit(e: Ref, ds: set<nat>): nat {
    if e.Some? && e.value in ds then 1 else 0
  }

  function Total(rows: seq<seq<Ref>>, ds: set<nat>): nat {
    if rows == [] then 0 else Hits(rows[0], ds) + Total(rows[1..], ds)
  }

  lemma {:induction false} HitsUpdate(row: seq<Ref>, ds: set<nat>, f: nat, e: Ref)
    requires f < |row|
    ensures Hits(row[f := e], ds) == Hits(row, ds) - Hit(row[f], ds) + Hit(e, ds)
  {
    if f == 0 {
      assert row[0 := e][1..] == row[1..];
    } else {
      HitsUpdate(row[1..], ds, f - 1, e);
      assert row[f := e][1..] == row[1..][f - 1 := e];
    }
  }

  lemma {:induction false} TotalUpdate(rows: seq<seq<Ref>>, ds: set<nat>, p: nat, row: seq<Ref>)
    requires p < |rows|
    ensures Total(rows[p := row], ds) == Total(rows, ds) - Hits(rows[p], ds) + Hits(row, ds)
  {
    if p == 0 {
      assert rows[0 := row][1..] == rows[1..];
    } else {
      TotalUpdate(rows[1..], ds, p - 1, row);
      assert rows[p := row][1..] == rows[1..][p - 1 := row];
    }
  }

  lemma {:induction false} HitsSame(row: seq<Ref>, ds: set<nat>, es: set<nat>)
    requires forall i :: 0 <= i < |row| && row[i].Some? ==> (row[i].value in ds <==> row[i].value in es)
    ensures Hits(row, ds) == Hits(row, es)
  {
    if row != [] { HitsSame(row[1..], ds, es); }
  }

  lemma {:induction false} TotalSame(rows: seq<seq<Ref>>, ds: set<nat>, es: set<nat>)
    requires forall p, i :: 0 <= p < |rows| && 0 <= i < |rows[p]| && rows[p][i].Some? ==>
               (rows[p][i].value in ds <==> rows[p][i].value in es)
    ensures Total(rows, ds) == Total(rows, es)
  {
    if rows != [] {
      assert forall i :: 0 <= i < |rows[0]| && rows[0][i].Some? ==>
               (rows[0][i].value in ds <==> rows[0][i].value in es);
      HitsSame(rows[0], ds, es);
      TotalSame(rows[1..], ds, es);
    }
  }

  lemma {:induction false} HitsZero(row: seq<Ref>, ds: set<nat>)
    ensures Hits(row, ds) == 0 <==> forall i :: 0 <= i < |row| && row[i].Some? ==> row[i].value !in ds
  {
    if row != [] { HitsZero(row[1..], ds); }
  }

  lemma {:induction false} TotalZero(rows: seq<seq<Ref>>, ds: set<nat>)
    ensures Total(rows, ds) == 0 <==>
            forall p, i :: 0 <= p < |rows| && 0 <= i < |rows[p]| && rows[p][i].Some? ==> rows[p][i].value !in ds
  {
    if rows != [] {
      HitsZero(rows[0], ds);
      TotalZero(rows[1..], ds);
      assert rows == [rows[0]] + rows[1..];
    }
  }

  // ---------------------------------------------------------------- get_inode

  /** The first slot from i on that holds inode `num`; the number of slots if none does. */
  function Holding(nodes: seq<Node>, num: nat, i: nat): (k: nat)
    requires i <= |nodes|
    ensures i <= k <= |nodes| && (k < |nodes| ==> 0 < nodes[k].cnt && nodes[k].num == num)
    ensures forall j :: i <= j < k ==> !(0 < nodes[j].cnt && nodes[j].num == num)
    decreases |nodes| - i
  {
    if i == |nodes| || (0 < nodes[i].cnt && nodes[i].num == num) then i else Holding(nodes, num, i + 1)
  }

  /** The first free slot from i on; the number of slots if there is none. */
  function Vacant(nodes: seq<Node>, i: nat): (k: nat)
    requires i <= |nodes|
    ensures i <= k <= |nodes| && (k < |nodes| ==> nodes[k].cnt <= 0)
    ensures forall j :: i <= j < k ==> 0 < nodes[j].cnt
    decreases |nodes| - i
  {
    if i == |nodes| || nodes[i].cnt <= 0 then i else Vacant(nodes, i + 1)
  }

  /** Some slot in use holds inode `num`. */
  predicate Cached(nodes: seq<Node>, num: nat) {
    Holding(nodes, num, 0) < |nodes|
  }

  /** The slot get_inode returns for `num`; the number of slots where it panics. */
  function SlotFor(nodes: seq<Node>, num: nat): nat {
    if Cached(nodes, num) then Holding(nodes, num, 0) else Vacant(nodes, 0)
  }

  /** get_inode: one more user of inode `num`. */
  function Get(s: State, num: nat): State
    requires SlotFor(s.nodes, num) < |s.nodes|
  {
    var k := SlotFor(s.nodes, num);
    s.(nodes := s.nodes[k := Node(num, s.nodes[k].cnt + 1)])
  }

  /** put_inode. */
  function Put(s: State, k: nat): State
    requires k < |s.nodes|
  {
    s.(nodes := s.nodes[k := s.nodes[k].(cnt := s.nodes[k].cnt - 1)])
  }

  // ---------------------------------------------------------------- the invariant

  /** The descriptors open on inode slot `n`. */
  function Owners(fds: seq<Desc>, n: nat): set<nat> {
    set d | 0 <= d < |fds| && fds[d].node == Some(n)
  }

  ghost predicate EntriesOk(s: State) {
    forall p, i :: 0 <= p < |s.rows| && 0 <= i < |s.rows[p]| && s.rows[p][i].Some? ==> s.rows[p][i].value < |s.fds|
  }

  ghost predicate DescOk(s: State, d: nat)
    requires d < |s.fds|
  {
    s.fds[d].cnt == Total(s.rows, {d}) && (s.fds[d].node.Some? <==> 0 < s.fds[d].cnt) &&
    (s.fds[d].node.Some? ==> s.fds[d].node.value < |s.nodes|)
  }

  /** How many users of slot `n` will never give it back. */
  function Leaked(s: State, n: nat): nat
    requires n < |s.nodes|
  {
    if s.nodes[n].cnt == 0 then 0 else s.refused[s.nodes[n].num]
  }

  ghost predicate NodeOk(s: State, n: nat)
    requires n < |s.nodes|
  {
    s.nodes[n].cnt == Total(s.rows, Owners(s.fds, n)) + (if n == s.root then 1 else 0) + Leaked(s, n)
  }

  /** No inode is held by two slots. */
  ghost predicate Distinct(nodes: seq<Node>) {
    forall j, k :: 0 <= j < k < |nodes| && 0 < nodes[j].cnt && 0 < nodes[k].cnt ==> nodes[j].num != nodes[k].num
  }

  /** Every inode held is marked in the inode map. */
  ghost predicate Marked(nodes: seq<Node>, used: set<nat>) {
    forall k :: 0 <= k < |nodes| && 0 < nodes[k].cnt ==> nodes[k].num in used
  }

  /** An inode whose unlink was refused stays cached. */
  ghost predicate Remembered(nodes: seq<Node>, refused: multiset<nat>) {
    forall num <- refused :: Cached(nodes, num)
  }

  ghost predicate NumbersOk(nodes: seq<Node>, used: set<nat>, refused: multiset<nat>) {
    Distinct(nodes) && Marked(nodes, used) && Remembered(nodes, refused)
  }

  ghost predicate DescsOk(s: State) {
    forall d :: 0 <= d < |s.fds| ==> DescOk(s, d)
  }

  ghost predicate NodesOk(s: State) {
    forall n :: 0 <= n < |s.nodes| ==> NodeOk(s, n)
  }

  /** fd_cnt counts the filp entries of each descriptor, a descriptor is bound exactly while it is
      counted, and i_cnt counts the filp entries reaching each inode, one for the root, and the refused
      unlinks of that inode. */
  ghost predicate Inv(s: State) {
    EntriesOk(s) && NumbersOk(s.nodes, s.used, s.refused) && DescsOk(s) && NodesOk(s)
  }

  lemma CachedAt(nodes: seq<Node>, num: nat, k: nat)
    requires k < |nodes| && 0 < nodes[k].cnt && nodes[k].num == num
    ensures Cached(nodes, num)
  {
  }

  /** What get_inode finds: the slot in use with that number, or a free one. */
  lemma SlotForOk(s: State, num: nat)
    requires Inv(s) && SlotFor(s.nodes, num) < |s.nodes|
    ensures var k := SlotFor(s.nodes, num);
            if Cached(s.nodes, num) then 0 < s.nodes[k].cnt && s.nodes[k].num == num
            else s.nodes[k].cnt == 0 && k != s.root && num !in s.refused &&
                 forall j :: 0 <= j < |s.nodes| && 0 < s.nodes[j].cnt ==> s.nodes[j].num != num
  {
    var k := SlotFor(s.nodes, num);
    assert NodeOk(s, k);
  }

  // ---------------------------------------------------------------- one entry at a time

  predicate Within(s: State, p: nat, f: nat) {
    p < |s.rows| && f < |s.rows[p]|
  }

  /** do_open binds entry f of process p to the free descriptor d on inode slot k. */
  function Bind(s: State, p: nat, f: nat, d: nat, k: nat): State
    requires Within(s, p, f) && d < |s.fds|
  {
    s.(rows := s.rows[p := s.rows[p][f := Some(d)]], fds := s.fds[d := Desc(1, Some(k))])
  }

  function ChangeCount(nodes: seq<Node>, k: nat, more: int): seq<Node>
    requires k < |nodes|
  {
    nodes[k := nodes[k].(cnt := nodes[k].cnt + more)]
  }

  /** fs_fork counts one more entry: f of process p, pointing at d. */
  function Share(s: State, p: nat, f: nat, d: nat): State
    requires Within(s, p, f) && d < |s.fds| && s.fds[d].node.Some? && s.fds[d].node.value < |s.nodes|
  {
    s.(rows := s.rows[p := s.rows[p][f := Some(d)]], fds := s.fds[d := s.fds[d].(cnt := s.fds[d].cnt + 1)],
       nodes := ChangeCount(s.nodes, s.fds[d].node.value, 1))
  }

  /** do_close and fs_exit give entry f of process p back. */
  function Drop(s: State, p: nat, f: nat): State
    requires Within(s, p, f) && s.rows[p][f].Some? && s.rows[p][f].value < |s.fds|
    requires s.fds[s.rows[p][f].value].node.Some? && s.fds[s.rows[p][f].value].node.value < |s.nodes|
  {
    var d := s.rows[p][f].value;
    var n, c := s.fds[d].node.value, s.fds[d].cnt - 1;
    s.(rows := s.rows[p := s.rows[p][f := None]],
       fds := s.fds[d := Desc(c, if c == 0 then None else Some(n))],
       nodes := ChangeCount(s.nodes, n, -1))
  }

  lemma EntryUpdate(s: State, p: nat, f: nat, e: Ref, ds: set<nat>)
    requires Within(s, p, f)
    ensures Total(s.rows[p := s.rows[p][f := e]], ds) == Total(s.rows, ds) - Hit(s.rows[p][f], ds) + Hit(e, ds)
  {
    HitsUpdate(s.rows[p], ds, f, e);
    TotalUpdate(s.rows, ds, p, s.rows[p][f := e]);
  }

  /** Nobody points at an unbound descriptor. */
  lemma Unbound(s: State, d: nat)
    requires Inv(s) && d < |s.fds| && s.fds[d].node.None?
    ensures forall p, i :: 0 <= p < |s.rows| && 0 <= i < |s.rows[p]| ==> s.rows[p][i] != Some(d)
  {
    assert DescOk(s, d);
    TotalZero(s.rows, {d});
  }

  lemma CountUp(nodes: seq<Node>, used: set<nat>, refused: multiset<nat>, k: nat, num: nat, now: seq<Node>)
    requires NumbersOk(nodes, used, refused) && k < |nodes| && num in used && 0 <= nodes[k].cnt
    requires if 0 < nodes[k].cnt then nodes[k].num == num else !Cached(nodes, num)
    requires now == nodes[k := Node(num, nodes[k].cnt + 1)]
    ensures NumbersOk(now, used, refused) && Cached(now, num)
  {
    CachedAt(now, num, k);
    forall x <- refused ensures Cached(now, x) {
      var j := Holding(nodes, x, 0);
      CachedAt(now, x, j);
    }
  }

  lemma CountDown(nodes: seq<Node>, used: set<nat>, refused: multiset<nat>, k: nat, now: seq<Node>)
    requires NumbersOk(nodes, used, refused) && k < |nodes| && 0 < nodes[k].cnt
    requires nodes[k].cnt == 1 ==> nodes[k].num !in refused
    requires now == nodes[k := nodes[k].(cnt := nodes[k].cnt - 1)]
    ensures NumbersOk(now, used, refused)
  {
    forall x <- refused ensures Cached(now, x) {
      var j := Holding(nodes, x, 0);
      CachedAt(now, x, j);
    }
  }

  /** Another number in a free slot. */
  lemma Renumber(nodes: seq<Node>, used: set<nat>, refused: multiset<nat>, k: nat, num: nat, now: seq<Node>)
    requires NumbersOk(nodes, used, refused) && k < |nodes| && nodes[k].cnt == 0 && now == nodes[k := Node(num, 0)]
    ensures NumbersOk(now, used, refused)
  {
    forall x <- refused ensures Cached(now, x) {
      var j := Holding(nodes, x, 0);
      CachedAt(now, x, j);
    }
  }

  lemma BindKeepsInv(s: State, p: nat, f: nat, d: nat, num: nat)
    requires Inv(s) && Within(s, p, f) && s.rows[p][f].None? && d < |s.fds| && s.fds[d].node.None?
    requires SlotFor(s.nodes, num) < |s.nodes| && num in s.used
    ensures Inv(Bind(Get(s, num), p, f, d, SlotFor(s.nodes, num)))
  {
    var n := SlotFor(s.nodes, num);
    var t := Bind(Get(s, num), p, f, d, n);
    SlotForOk(s, num);
    CountUp(s.nodes, s.used, s.refused, n, num, t.nodes);
    BindDescs(s, p, f, d, num, t);
    BindNodes(s, p, f, d, num, n, t);
  }

  lemma BindDescs(s: State, p: nat, f: nat, d: nat, num: nat, t: State)
    requires Inv(s) && FreeEntry(s, p, f, d) && SlotFor(s.nodes, num) < |s.nodes|
    requires t == Bind(Get(s, num), p, f, d, SlotFor(s.nodes, num))
    ensures DescsOk(t)
  {
    Unbound(s, d);
    forall e | 0 <= e < |t.fds| ensures DescOk(t, e) {
      assert DescOk(s, e);
      EntryUpdate(s, p, f, Some(d), {e});
    }
  }

  lemma BindNodes(s: State, p: nat, f: nat, d: nat, num: nat, n: nat, t: State)
    requires Inv(s) && FreeEntry(s, p, f, d) && n == SlotFor(s.nodes, num) < |s.nodes|
    requires t == Bind(Get(s, num), p, f, d, n)
    ensures NodesOk(t)
  {
    SlotForOk(s, num);
    Unbound(s, d);
    forall m | 0 <= m < |t.nodes| ensures NodeOk(t, m) {
      assert NodeOk(s, m);
      EntryUpdate(s, p, f, Some(d), Owners(t.fds, m));
      TotalSame(s.rows, Owners(s.fds, m), Owners(t.fds, m));
      assert d in Owners(t.fds, m) <==> m == n;
    }
  }

  lemma ShareKeepsInv(s: State, p: nat, f: nat, d: nat)
    requires Inv(s) && Within(s, p, f) && s.rows[p][f].None? && d < |s.fds| && s.fds[d].node.Some?
    ensures s.fds[d].node.value < |s.nodes| && Inv(Share(s, p, f, d))
  {
    NodeInUse(s, d);
    var t, n := Share(s, p, f, d), s.fds[d].node.value;
    CountUp(s.nodes, s.used, s.refused, n, s.nodes[n].num, t.nodes);
    ShareDescs(s, p, f, d, t);
    ShareNodes(s, p, f, d, t);
  }

  lemma ShareDescs(s: State, p: nat, f: nat, d: nat, t: State)
    requires Inv(s) && ShareOk(s, p, f, d) && s.rows[p][f].None? && t == Share(s, p, f, d)
    ensures DescsOk(t)
  {
    forall e | 0 <= e < |t.fds| ensures DescOk(t, e) {
      assert DescOk(s, e);
      EntryUpdate(s, p, f, Some(d), {e});
    }
  }

  lemma ShareNodes(s: State, p: nat, f: nat, d: nat, t: State)
    requires Inv(s) && ShareOk(s, p, f, d) && s.rows[p][f].None? && t == Share(s, p, f, d)
    ensures NodesOk(t)
  {
    NodeInUse(s, d);
    forall m | 0 <= m < |t.nodes| ensures NodeOk(t, m) {
      assert NodeOk(s, m);
      assert Owners(t.fds, m) == Owners(s.fds, m);
      EntryUpdate(s, p, f, Some(d), Owners(t.fds, m));
    }
  }

  /** The inode of a bound descriptor is in use. */
  lemma NodeInUse(s: State, d: nat)
    requires Inv(s) && d < |s.fds| && s.fds[d].node.Some?
    ensures s.fds[d].node.value < |s.nodes| && 0 < s.nodes[s.fds[d].node.value].cnt
    ensures 0 < Total(s.rows, Owners(s.fds, s.fds[d].node.value))
  {
    assert DescOk(s, d);
    var n := s.fds[d].node.value;
    TotalZero(s.rows, {d});
    TotalZero(s.rows, Owners(s.fds, n));
    assert d in Owners(s.fds, n);
    assert NodeOk(s, n);
  }

  lemma DropKeepsInv(s: State, p: nat, f: nat)
    requires Inv(s) && Within(s, p, f) && s.rows[p][f].Some?
    ensures var d := s.rows[p][f].value;
            d < |s.fds| && s.fds[d].node.Some? && s.fds[d].node.value < |s.nodes| &&
            0 < s.nodes[s.fds[d].node.value].cnt
    ensures Inv(Drop(s, p, f))
  {
    var d := s.rows[p][f].value;
    assert DescOk(s, d);
    TotalZero(s.rows, {d});
    var n := s.fds[d].node.value;
    NodeInUse(s, d);
    var t := Drop(s, p, f);
    assert NodeOk(s, n);
    CountDown(s.nodes, s.used, s.refused, n, t.nodes);
    forall e | 0 <= e < |t.fds| ensures DescOk(t, e) {
      assert DescOk(s, e);
      EntryUpdate(s, p, f, None, {e});
    }
    DropNodes(s, p, f, d, n, t);
  }

  lemma DropNodes(s: State, p: nat, f: nat, d: nat, n: nat, t: State)
    requires Inv(s) && DropOk(s, p, f) && s.rows[p][f] == Some(d) && s.fds[d].node == Some(n) && t == Drop(s, p, f)
    requires 0 < s.nodes[n].cnt && DescsOk(t)
    ensures NodesOk(t)
  {
    TotalZero(t.rows, {d});
    assert d in Owners(s.fds, n);
    forall m | 0 <= m < |t.nodes| ensures NodeOk(t, m) {
      assert NodeOk(s, m);
      EntryUpdate(s, p, f, None, Owners(s.fds, m));
      assert DescOk(t, d);
      TotalSame(t.rows, Owners(s.fds, m), Owners(t.fds, m));
    }
  }

  // ---------------------------------------------------------------- whole rows: fork and exit

  /** From s to t only counts and entries changed: a descriptor is bound to its old inode while it is
      counted, and everything else is the same. */
  ghost predicate Kept(s: State, t: State) {
    |t.fds| == |s.fds| && |t.nodes| == |s.nodes| && t.root == s.root && t.used == s.used && t.refused == s.refused &&
    (forall n :: 0 <= n < |s.nodes| ==> t.nodes[n].num == s.nodes[n].num) &&
    forall d :: 0 <= d < |s.fds| ==> t.fds[d].node == if t.fds[d].cnt == 0 then None else s.fds[d].node
  }

  lemma KeptSelf(s: State)
    requires Inv(s)
    ensures Kept(s, s)
  {
    forall d | 0 <= d < |s.fds| ensures s.fds[d].node == if s.fds[d].cnt == 0 then None else s.fds[d].node {
      assert DescOk(s, d);
    }
  }

  lemma KeptTrans(s: State, g: State, t: State)
    requires Kept(s, g) && Kept(g, t) && Inv(t)
    ensures Kept(s, t)
  {
    forall d | 0 <= d < |s.fds| ensures t.fds[d].node == if t.fds[d].cnt == 0 then None else s.fds[d].node {
      assert DescOk(t, d);
    }
  }

  /** One entry changed: the frame of Share and Drop. */
  lemma KeptStep(s: State, g: State, d: nat)
    requires Inv(s) && Inv(g) && d < |s.fds| == |g.fds| && |g.nodes| == |s.nodes|
    requires g.root == s.root && g.used == s.used && g.refused == s.refused
    requires forall n :: 0 <= n < |s.nodes| ==> g.nodes[n].num == s.nodes[n].num
    requires forall e :: 0 <= e < |s.fds| && e != d ==> g.fds[e] == s.fds[e]
    requires g.fds[d].node == if g.fds[d].cnt == 0 then None else s.fds[d].node
    ensures Kept(s, g)
  {
    KeptSelf(s);
  }

  function Empty(k: nat): (r: seq<Ref>)
    ensures |r| == k && forall i :: 0 <= i < k ==> r[i] == None
  {
    seq(k, _ => None)
  }

  /** Every entry of a process is bound. */
  lemma EntryBound(s: State, p: nat, f: nat)
    requires Inv(s) && Within(s, p, f) && s.rows[p][f].Some?
    ensures var d := s.rows[p][f].value;
            d < |s.fds| && 0 < s.fds[d].cnt && s.fds[d].node.Some? && s.fds[d].node.value < |s.nodes|
  {
    var d := s.rows[p][f].value;
    assert DescOk(s, d);
    TotalZero(s.rows, {d});
  }

  predicate ShareOk(s: State, p: nat, f: nat, d: nat) {
    Within(s, p, f) && d < |s.fds| && s.fds[d].node.Some? && s.fds[d].node.value < |s.nodes|
  }

  predicate DropOk(s: State, p: nat, f: nat) {
    Within(s, p, f) && s.rows[p][f].Some? && s.rows[p][f].value < |s.fds| &&
    s.fds[s.rows[p][f].value].node.Some? && s.fds[s.rows[p][f].value].node.value < |s.nodes|
  }

  /** do_fork and fs_fork: the child gets the entries of `row` from f on, each counted once more. */
  function ForkFrom(s: State, row: seq<Ref>, child: nat, f: nat): State
    decreases |row| - f
  {
    if |row| <= f then s
    else if row[f].Some? && ShareOk(s, child, f, row[f].value)
    then ForkFrom(Share(s, child, f, row[f].value), row, child, f + 1)
    else ForkFrom(s, row, child, f + 1)
  }

  lemma {:induction false} ForkKeepsInv(s: State, parent: nat, child: nat, f: nat)
    requires Inv(s) && parent < |s.rows| && child < |s.rows| && parent != child
    requires |s.rows[child]| == |s.rows[parent]| && f <= |s.rows[parent]|
    requires s.rows[child] == s.rows[parent][..f] + Empty(|s.rows[parent]| - f)
    ensures var t := ForkFrom(s, s.rows[parent], child, f);
            Inv(t) && Kept(s, t) && t.rows == s.rows[child := s.rows[parent]]
    decreases |s.rows[parent]| - f
  {
    var row := s.rows[parent];
    if f == |row| {
      assert row[..f] + Empty(0) == row;
      KeptSelf(s);
    } else if row[f].None? {
      assert row[..f] + Empty(|row| - f) == row[..f + 1] + Empty(|row| - f - 1);
      ForkKeepsInv(s, parent, child, f + 1);
    } else {
      EntryBound(s, parent, f);
      ShareKeepsInv(s, child, f, row[f].value);
      var g := Share(s, child, f, row[f].value);
      assert g.rows[child] == row[..f + 1] + Empty(|row| - f - 1);
      KeptStep(s, g, row[f].value);
      ForkKeepsInv(g, parent, child, f + 1);
      KeptTrans(s, g, ForkFrom(g, row, child, f + 1));
    }
  }

  /** fs_exit: the entries of p from f on are given back one by one. */
  function ExitFrom(s: State, p: nat, f: nat): State
    requires p < |s.rows|
    decreases |s.rows[p]| - f
  {
    if |s.rows[p]| <= f then s
    else if DropOk(s, p, f) then ExitFrom(Drop(s, p, f), p, f + 1)
    else ExitFrom(s, p, f + 1)
  }

  lemma {:induction false} ExitKeepsInv(s: State, p: nat, f: nat)
    requires Inv(s) && p < |s.rows| && f <= |s.rows[p]| && s.rows[p][..f] == Empty(f)
    ensures var t := ExitFrom(s, p, f);
            Inv(t) && Kept(s, t) && t.rows == s.rows[p := Empty(|s.rows[p]|)]
    decreases |s.rows[p]| - f
  {
    if f == |s.rows[p]| {
      assert s.rows[p] == Empty(f);
      KeptSelf(s);
    } else if s.rows[p][f].None? {
      assert s.rows[p][..f + 1] == Empty(f + 1);
      ExitKeepsInv(s, p, f + 1);
    } else {
      DropKeepsInv(s, p, f);
      var g := Drop(s, p, f);
      assert g.rows[p][..f + 1] == Empty(f + 1);
      KeptStep(s, g, s.rows[p][f].value);
      ExitKeepsInv(g, p, f + 1);
      KeptTrans(s, g, ExitFrom(g, p, f + 1));
    }
  }

  // ---------------------------------------------------------------- whole operations

  /** do_open of an existing file with inode number `num`. */
  function Open(s: State, p: nat, f: nat, d: nat, num: nat): State
    requires Within(s, p, f) && d < |s.fds| && SlotFor(s.nodes, num) < |s.nodes|
  {
    Bind(Get(s, num), p, f, d, SlotFor(s.nodes, num))
  }

  /** new_inode: get_inode, and then the count is set to 1. */
  function NewInode(s: State, num: nat): State
    requires SlotFor(s.nodes, num) < |s.nodes|
  {
    var k := SlotFor(s.nodes, num);
    var g := Get(s.(used := s.used + {num}), num);
    g.(nodes := g.nodes[k := g.nodes[k].(cnt := 1)])
  }

  /** do_open of a new file, whose number alloc_imap_bit has taken from the inode map. */
  function Create(s: State, p: nat, f: nat, d: nat, num: nat): State
    requires Within(s, p, f) && d < |s.fds| && SlotFor(s.nodes, num) < |s.nodes|
  {
    Bind(NewInode(s, num), p, f, d, SlotFor(s.nodes, num))
  }

  /** A number that was clear in the inode map is not cached: setting its count to 1 is counting one user. */
  lemma NewInodeCountsOne(s: State, num: nat)
    requires Inv(s) && num !in s.used && SlotFor(s.nodes, num) < |s.nodes|
    ensures !Cached(s.nodes, num) && NewInode(s, num) == Get(s.(used := s.used + {num}), num)
  {
    SlotForOk(s, num);
  }

  /** The tables of descriptors do not depend on the inode map. */
  lemma SameCounts(s: State, t: State)
    requires Inv(s) && t.rows == s.rows && t.fds == s.fds && |t.nodes| == |s.nodes| && t.root == s.root
    requires forall n :: 0 <= n < |s.nodes| ==> t.nodes[n].cnt - Leaked(t, n) == s.nodes[n].cnt - Leaked(s, n)
    ensures EntriesOk(t) && DescsOk(t) && NodesOk(t)
  {
    forall d | 0 <= d < |t.fds| ensures DescOk(t, d) { assert DescOk(s, d); }
    forall n | 0 <= n < |t.nodes| ensures NodeOk(t, n) { assert NodeOk(s, n); }
  }

  lemma MarkKeepsInv(s: State, num: nat)
    requires Inv(s)
    ensures Inv(s.(used := s.used + {num}))
  {
    SameCounts(s, s.(used := s.used + {num}));
  }

  lemma OpenKeepsInv(s: State, p: nat, f: nat, d: nat, num: nat)
    requires Inv(s) && Within(s, p, f) && s.rows[p][f].None? && d < |s.fds| && s.fds[d].node.None?
    requires SlotFor(s.nodes, num) < |s.nodes|
    ensures num in s.used ==> Inv(Open(s, p, f, d, num))
    ensures num !in s.used ==> Inv(Create(s, p, f, d, num))
  {
    if num in s.used {
      BindKeepsInv(s, p, f, d, num);
    } else {
      NewInodeCountsOne(s, num);
      MarkKeepsInv(s, num);
      BindKeepsInv(s.(used := s.used + {num}), p, f, d, num);
    }
  }

  /** do_stat: take the inode and put it back. */
  function Stat(s: State, num: nat): State
    requires SlotFor(s.nodes, num) < |s.nodes|
  {
    Put(Get(s, num), SlotFor(s.nodes, num))
  }

  /** do_unlink refuses a file that is not regular or has another user. */
  predicate Refuses(s: State, num: nat, regular: bool)
    requires SlotFor(s.nodes, num) < |s.nodes|
  {
    !regular || 1 < Get(s, num).nodes[SlotFor(s.nodes, num)].cnt
  }

  /** do_unlink: take the inode; a refused unlink returns without putting it back, the others put it back
      and clear its mark in the inode map. */
  function Unlink(s: State, num: nat, regular: bool): State
    requires SlotFor(s.nodes, num) < |s.nodes|
  {
    if Refuses(s, num, regular) then Get(s, num).(refused := s.refused + multiset{num})
    else Stat(s, num).(used := s.used - {num})
  }

  lemma StatKeepsInv(s: State, num: nat)
    requires Inv(s) && SlotFor(s.nodes, num) < |s.nodes|
    ensures Inv(Stat(s, num)) && Stat(s, num) == s.(nodes := Stat(s, num).nodes)
    ensures !Cached(s.nodes, num) ==> !Cached(Stat(s, num).nodes, num)
  {
    var t, k := Stat(s, num), SlotFor(s.nodes, num);
    SlotForOk(s, num);
    if Cached(s.nodes, num) {
      assert t.nodes == s.nodes;
    } else {
      Renumber(s.nodes, s.used, s.refused, k, num, t.nodes);
    }
    SameCounts(s, t);
  }

  lemma RefuseKeepsInv(s: State, num: nat)
    requires Inv(s) && SlotFor(s.nodes, num) < |s.nodes| && num in s.used
    ensures Inv(Get(s, num).(refused := s.refused + multiset{num}))
  {
    var t, k := Get(s, num).(refused := s.refused + multiset{num}), SlotFor(s.nodes, num);
    SlotForOk(s, num);
    CountUp(s.nodes, s.used, s.refused, k, num, t.nodes);
    forall n | 0 <= n < |s.nodes| ensures t.nodes[n].cnt - Leaked(t, n) == s.nodes[n].cnt - Leaked(s, n) {
      assert NodeOk(s, n) && NodeOk(s, k);
      RefuseLeaks(s, t, num, k, n);
    }
    SameCounts(s, t);
  }

  /** The reference a refused unlink takes is one more that is never given back. */
  lemma RefuseLeaks(s: State, t: State, num: nat, k: nat, n: nat)
    requires k < |s.nodes| && n < |s.nodes| && 0 <= s.nodes[k].cnt && 0 <= s.nodes[n].cnt
    requires t.nodes == s.nodes[k := Node(num, s.nodes[k].cnt + 1)] && t.refused == s.refused + multiset{num}
    requires if 0 < s.nodes[k].cnt then s.nodes[k].num == num else num !in s.refused
    requires n != k && 0 < s.nodes[n].cnt ==> s.nodes[n].num != num
    ensures t.nodes[n].cnt - Leaked(t, n) == s.nodes[n].cnt - Leaked(s, n)
  {
  }

  lemma UnlinkKeepsInv(s: State, num: nat, regular: bool)
    requires Inv(s) && SlotFor(s.nodes, num) < |s.nodes| && num in s.used
    ensures Inv(Unlink(s, num, regular))
  {
    if Refuses(s, num, regular) {
      RefuseKeepsInv(s, num);
    } else {
      SlotForOk(s, num);
      StatKeepsInv(s, num);
      SameCounts(Stat(s, num), Unlink(s, num, regular));
    }
  }

  /** Some process has a descriptor open on inode `num`. */
  ghost predicate HasOpen(s: State, num: nat) {
    exists p: nat, f: nat :: Within(s, p, f) && OpenOn(s, s.rows[p][f], num)
  }

  predicate OpenOn(s: State, e: Ref, num: nat) {
    e.Some? && e.value < |s.fds| && s.fds[e.value].node.Some? && s.fds[e.value].node.value < |s.nodes| &&
    s.nodes[s.fds[e.value].node.value].num == num
  }

  /** An inode is cached exactly while some process has it open, while it is the root, or once an unlink of
      it has been refused. */
  lemma CachedIff(s: State, num: nat)
    requires Inv(s) && s.root < |s.nodes|
    ensures Cached(s.nodes, num) <==> HasOpen(s, num) || num == s.nodes[s.root].num || num in s.refused
  {
    assert NodeOk(s, s.root);
    if num == s.nodes[s.root].num {
      CachedAt(s.nodes, num, s.root);
    }
    if HasOpen(s, num) {
      var p: nat, f: nat :| Within(s, p, f) && OpenOn(s, s.rows[p][f], num);
      var d := s.rows[p][f].value;
      NodeInUse(s, d);
      CachedAt(s.nodes, num, s.fds[d].node.value);
    }
    if Cached(s.nodes, num) && num !in s.refused && num != s.nodes[s.root].num {
      var k := Holding(s.nodes, num, 0);
      assert NodeOk(s, k);
      TotalZero(s.rows, Owners(s.fds, k));
      var p, f :|
        0 <= p < |s.rows| && 0 <= f < |s.rows[p]| && s.rows[p][f].Some? && s.rows[p][f].value in Owners(s.fds, k);
      assert OpenOn(s, s.rows[p][f], num);
    }
  }

  /** do_unlink of inode `num` goes through exactly when it is a regular file, no process has a descriptor
      on it, it is not the root, and no earlier unlink of it was refused. */
  lemma UnlinkGoesThroughIff(s: State, num: nat, regular: bool)
    requires Inv(s) && s.root < |s.nodes| && SlotFor(s.nodes, num) < |s.nodes|
    ensures !Refuses(s, num, regular) <==>
            regular && !HasOpen(s, num) && num != s.nodes[s.root].num && num !in s.refused
  {
    CachedIff(s, num);
    SlotForOk(s, num);
  }

  // ---------------------------------------------------------------- whole runs

  datatype Event =
    | OpenFile(p: nat, f: nat, d: nat, num: nat)
    | CreateFile(p: nat, f: nat, d: nat, num: nat)
    | Close(p: nat, f: nat)
    | Fork(parent: nat, child: nat)
    | Exit(p: nat)
    | StatFile(num: nat)
    | UnlinkFile(num: nat, regular: bool)

  predicate FreeEntry(s: State, p: nat, f: nat, d: nat) {
    Within(s, p, f) && s.rows[p][f].None? && d < |s.fds| && s.fds[d].node.None?
  }

  /** Files are found by their number in the directory, so the number is marked in the inode map; a new file
      gets a number that is not. */
  predicate Enabled(s: State, e: Event) {
    match e
    case OpenFile(p, f, d, num) => FreeEntry(s, p, f, d) && num in s.used && SlotFor(s.nodes, num) < |s.nodes|
    case CreateFile(p, f, d, num) => FreeEntry(s, p, f, d) && num !in s.used && SlotFor(s.nodes, num) < |s.nodes|
    case Close(p, f) => DropOk(s, p, f)
    case Fork(parent, child) =>
      parent < |s.rows| && child < |s.rows| && parent != child && s.rows[child] == Empty(|s.rows[parent]|)
    case Exit(p) => p < |s.rows|
    case StatFile(num) => num in s.used && SlotFor(s.nodes, num) < |s.nodes|
    case UnlinkFile(num, regular) => num in s.used && SlotFor(s.nodes, num) < |s.nodes|
  }

  function Step(s: State, e: Event): State
    requires Enabled(s, e)
  {
    match e
    case OpenFile(p, f, d, num) => Open(s, p, f, d, num)
    case CreateFile(p, f, d, num) => Create(s, p, f, d, num)
    case Close(p, f) => Drop(s, p, f)
    case Fork(parent, child) => ForkFrom(s, s.rows[parent], child, 0)
    case Exit(p) => ExitFrom(s, p, 0)
    case StatFile(num) => Stat(s, num)
    case UnlinkFile(num, regular) => Unlink(s, num, regular)
  }

  /** The counts are exact in `t`, and the slots are those of `s`. */
  ghost predicate StaysOk(s: State, t: State) {
    Inv(t) && |t.nodes| == |s.nodes| && t.root == s.root
  }

  lemma OpenStays(s: State, e: Event)
    requires Inv(s) && Enabled(s, e) && (e.OpenFile? || e.CreateFile?)
    ensures StaysOk(s, Step(s, e))
  {
    OpenKeepsInv(s, e.p, e.f, e.d, e.num);
  }

  lemma CloseStays(s: State, e: Event)
    requires Inv(s) && Enabled(s, e) && e.Close?
    ensures StaysOk(s, Step(s, e))
  {
    DropKeepsInv(s, e.p, e.f);
  }

  lemma ForkStays(s: State, e: Event)
    requires Inv(s) && Enabled(s, e) && e.Fork?
    ensures StaysOk(s, Step(s, e)) && Step(s, e).refused == s.refused
  {
    assert s.rows[e.parent][..0] + Empty(|s.rows[e.parent]|) == s.rows[e.child];
    ForkKeepsInv(s, e.parent, e.child, 0);
  }

  lemma ExitStays(s: State, e: Event)
    requires Inv(s) && Enabled(s, e) && e.Exit?
    ensures StaysOk(s, Step(s, e)) && Step(s, e).refused == s.refused
  {
    ExitKeepsInv(s, e.p, 0);
  }

  lemma StatStays(s: State, e: Event)
    requires Inv(s) && Enabled(s, e) && e.StatFile?
    ensures StaysOk(s, Step(s, e))
  {
    StatKeepsInv(s, e.num);
  }

  lemma UnlinkStays(s: State, e: Event)
    requires Inv(s) && Enabled(s, e) && e.UnlinkFile?
    ensures StaysOk(s, Step(s, e))
  {
    UnlinkKeepsInv(s, e.num, e.regular);
  }

  lemma StepKeepsInv(s: State, e: Event)
    requires Inv(s) && Enabled(s, e)
    ensures StaysOk(s, Step(s, e))
  {
    match e
    case OpenFile(p, f, d, num) => OpenStays(s, e);
    case CreateFile(p, f, d, num) => OpenStays(s, e);
    case Close(p, f) => CloseStays(s, e);
    case Fork(parent, child) => ForkStays(s, e);
    case Exit(p) => ExitStays(s, e);
    case StatFile(num) => StatStays(s, e);
    case UnlinkFile(num, regular) => UnlinkStays(s, e);
  }

  // ---------------------------------------------------------------- which file a descriptor is open on

  /** The number of the inode that descriptor d is open on. */
  function FileOf(s: State, d: nat): Option<nat> {
    if d < |s.fds| && s.fds[d].node.Some? && s.fds[d].node.value < |s.nodes|
    then Some(s.nodes[s.fds[d].node.value].num) else None
  }

  /** Some entry of some process points at descriptor d. */
  ghost predicate Pointed(s: State, d: nat) {
    exists p: nat, f: nat :: Within(s, p, f) && s.rows[p][f] == Some(d)
  }

  /** A descriptor is open on a file exactly while some entry points at it. */
  lemma FileIffPointed(s: State, d: nat)
    requires Inv(s)
    ensures FileOf(s, d).Some? <==> Pointed(s, d)
  {
    if d < |s.fds| {
      assert DescOk(s, d);
      TotalZero(s.rows, {d});
      if FileOf(s, d).Some? {
        var p, i :| 0 <= p < |s.rows| && 0 <= i < |s.rows[p]| && s.rows[p][i].Some? && s.rows[p][i].value in {d};
        assert Within(s, p, i) && s.rows[p][i] == Some(d);
      }
    }
  }

  /** The entries after each operation: an open fills one, a close empties one, a fork copies a whole table,
      an exit empties a whole table, and no other entry changes. */
  function RowsAfter(s: State, e: Event): seq<seq<Ref>>
    requires Enabled(s, e)
  {
    match e
    case OpenFile(p, f, d, _) => s.rows[p := s.rows[p][f := Some(d)]]
    case CreateFile(p, f, d, _) => s.rows[p := s.rows[p][f := Some(d)]]
    case Close(p, f) => s.rows[p := s.rows[p][f := None]]
    case Fork(parent, child) => s.rows[child := s.rows[parent]]
    case Exit(p) => s.rows[p := Empty(|s.rows[p]|)]
    case StatFile(_) => s.rows
    case UnlinkFile(_, _) => s.rows
  }

  /** An open puts its descriptor on its file; every other descriptor stays on its file as long as some entry
      points at it. */
  ghost predicate FilesAfter(s: State, e: Event, t: State) {
    forall d: nat ::
      FileOf(t, d) == if (e.OpenFile? || e.CreateFile?) && d == e.d then Some(e.num)
                      else if Pointed(t, d) then FileOf(s, d) else None
  }

  /** A creation marks its number in the inode map; an unlink clears it, or is remembered as refused. */
  ghost predicate MapAfter(s: State, e: Event, t: State) {
    t.root == s.root &&
    if e.CreateFile? then t.used == s.used + {e.num} && t.refused == s.refused
    else if e.UnlinkFile? && s.root < |s.nodes| then
      if e.regular && !HasOpen(s, e.num) && e.num != s.nodes[s.root].num && e.num !in s.refused
      then t.used == s.used - {e.num} && t.refused == s.refused
      else t.used == s.used && t.refused == s.refused + multiset{e.num}
    else e.UnlinkFile? || (t.used == s.used && t.refused == s.refused)
  }

  lemma OpenFiles(s: State, e: Event)
    requires Inv(s) && Enabled(s, e) && (e.OpenFile? || e.CreateFile?)
    ensures Step(s, e).rows == RowsAfter(s, e) && FilesAfter(s, e, Step(s, e)) && MapAfter(s, e, Step(s, e))
  {
    var t := Step(s, e);
    OpenStays(s, e);
    SlotForOk(s, e.num);
    forall d: nat ensures FileOf(t, d) ==
        if d == e.d then Some(e.num) else if Pointed(t, d) then FileOf(s, d) else None {
      FileIffPointed(t, d);
      if d != e.d && d < |s.fds| && s.fds[d].node.Some? {
        NodeInUse(s, d);
      }
    }
  }

  lemma KeptFiles(s: State, t: State, e: Event)
    requires Inv(s) && Inv(t) && Kept(s, t) && !e.OpenFile? && !e.CreateFile?
    ensures FilesAfter(s, e, t)
  {
    forall d: nat ensures FileOf(t, d) == if Pointed(t, d) then FileOf(s, d) else None {
      FileIffPointed(t, d);
      if d < |t.fds| { assert DescOk(t, d); }
    }
  }

  lemma StatFiles(s: State, e: Event)
    requires Inv(s) && Enabled(s, e) && (e.StatFile? || e.UnlinkFile?)
    ensures Step(s, e).rows == RowsAfter(s, e) && FilesAfter(s, e, Step(s, e)) && MapAfter(s, e, Step(s, e))
  {
    var t := Step(s, e);
    SlotForOk(s, e.num);
    if e.UnlinkFile? {
      UnlinkStays(s, e);
      if s.root < |s.nodes| { UnlinkGoesThroughIff(s, e.num, e.regular); }
    } else {
      StatStays(s, e);
    }
    forall d: nat ensures FileOf(t, d) == if Pointed(t, d) then FileOf(s, d) else None {
      FileIffPointed(t, d);
      if d < |s.fds| && s.fds[d].node.Some? { NodeInUse(s, d); }
    }
  }

  /** What every operation does: to the entries, to the files the descriptors are on, and to the inode map.
      With the exact counts of Inv this is all of the state but the places of unused inodes. */
  lemma StepDecides(s: State, e: Event)
    requires Inv(s) && Enabled(s, e)
    ensures Step(s, e).rows == RowsAfter(s, e) && FilesAfter(s, e, Step(s, e)) && MapAfter(s, e, Step(s, e))
  {
    var t := Step(s, e);
    StepKeepsInv(s, e);
    match e
    case OpenFile(p, f, d, num) => OpenFiles(s, e);
    case CreateFile(p, f, d, num) => OpenFiles(s, e);
    case Close(p, f) =>
      KeptStep(s, t, s.rows[p][f].value);
      KeptFiles(s, t, e);
    case Fork(parent, child) =>
      assert s.rows[parent][..0] + Empty(|s.rows[parent]|) == s.rows[child];
      ForkKeepsInv(s, parent, child, 0);
      KeptFiles(s, t, e);
    case Exit(p) =>
      ExitKeepsInv(s, p, 0);
      KeptFiles(s, t, e);
    case StatFile(num) => StatFiles(s, e);
    case UnlinkFile(num, regular) => StatFiles(s, e);
  }

  const ROOT_INODE := 1

  /** init_fs: nothing open, the root directory held once, in the first slot. */
  function Boot(procs: nat, files: nat, descs: nat, nodes: nat, used: set<nat>): State {
    State(seq(procs, _ => Empty(files)), seq(descs, _ => Desc(0, None)),
          seq(nodes, n => if n == 0 then Node(ROOT_INODE, 1) else Node(0, 0)), 0, used, multiset{})
  }

  lemma BootInv(procs: nat, files: nat, descs: nat, nodes: nat, used: set<nat>)
    requires ROOT_INODE in used
    ensures Inv(Boot(procs, files, descs, nodes, used))
  {
    var s := Boot(procs, files, descs, nodes, used);
    forall d | 0 <= d < |s.fds| ensures DescOk(s, d) { TotalZero(s.rows, {d}); }
    forall n | 0 <= n < |s.nodes| ensures NodeOk(s, n) { TotalZero(s.rows, Owners(s.fds, n)); }
  }

  ghost predicate IsRun(ss: seq<State>, es: seq<Event>) {
    |ss| == |es| + 1 &&
    (exists procs, files, descs, nodes, used ::
       0 < nodes && ROOT_INODE in used && ss[0] == Boot(procs, files, descs, nodes, used)) &&
    forall i :: 0 <= i < |es| ==> Enabled(ss[i], es[i]) && ss[i + 1] == Step(ss[i], es[i])
  }

  /** Reference conservation over every run: `fd_cnt` is exact, and `i_cnt` is too large by exactly the
      number of refused unlinks of its inode. */
  lemma {:induction false} RunsConserve(ss: seq<State>, es: seq<Event>, k: nat)
    requires IsRun(ss, es) && k <= |es|
    ensures Inv(ss[k]) && ss[k].root < |ss[k].nodes|
    decreases k
  {
    if k == 0 {
      var procs, files, descs, nodes, used :|
        0 < nodes && ROOT_INODE in used && ss[0] == Boot(procs, files, descs, nodes, used);
      BootInv(procs, files, descs, nodes, used);
    } else {
      RunsConserve(ss, es, k - 1);
      StepKeepsInv(ss[k - 1], es[k - 1]);
    }
  }

  /** Entry f of process p is open on file `num` through descriptor d. */
  predicate EntryOn(s: State, p: nat, f: nat, d: nat, num: nat) {
    Within(s, p, f) && s.rows[p][f] == Some(d) && FileOf(s, d) == Some(num)
  }

  lemma StepKeepsEntry(s: State, e: Event, p: nat, f: nat, d: nat, num: nat)
    requires Inv(s) && Enabled(s, e) && EntryOn(s, p, f, d, num) && e != Close(p, f) && e != Exit(p)
    ensures EntryOn(Step(s, e), p, f, d, num)
  {
    var t := Step(s, e);
    StepDecides(s, e);
    assert Within(t, p, f) && t.rows[p][f] == Some(d);
    assert Pointed(t, d);
  }

  /** Over every run: an entry stays on its descriptor, and that on its file, until the process closes it or
      exits, whatever is opened, closed, forked or unlinked in between. */
  lemma {:induction false} EntryKeepsFile(ss: seq<State>, es: seq<Event>, j: nat, k: nat, p: nat, f: nat, d: nat,
                                          num: nat)
    requires IsRun(ss, es) && j <= k <= |es| && EntryOn(ss[j], p, f, d, num)
    requires forall i :: j <= i < k ==> es[i] != Close(p, f) && es[i] != Exit(p)
    ensures EntryOn(ss[k], p, f, d, num)
    decreases k
  {
    if j < k {
      EntryKeepsFile(ss, es, j, k - 1, p, f, d, num);
      RunsConserve(ss, es, k - 1);
      StepKeepsEntry(ss[k - 1], es[k - 1], p, f, d, num);
    }
  }

  /** Refused unlinks are never forgotten. */
  lemma StepRemembers(s: State, e: Event, num: nat)
    requires Inv(s) && Enabled(s, e)
    ensures num in s.refused ==> num in Step(s, e).refused
    ensures e.UnlinkFile? && e.num == num && Refuses(s, num, e.regular) ==> num in Step(s, e).refused
  {
    match e
    case OpenFile(p, f, d, num) =>
    case CreateFile(p, f, d, num) =>
    case Close(p, f) =>
    case Fork(parent, child) => ForkStays(s, e);
    case Exit(p) => ExitStays(s, e);
    case StatFile(num) =>
    case UnlinkFile(num, regular) =>
  }

  lemma {:induction false} RefusedIsKept(ss: seq<State>, es: seq<Event>, j: nat, k: nat)
    requires IsRun(ss, es) && j < k <= |es| && es[j].UnlinkFile? && Refuses(ss[j], es[j].num, es[j].regular)
    ensures es[j].num in ss[k].refused
    decreases k
  {
    var s, e := ss[k - 1], es[k - 1];
    RunsConserve(ss, es, k - 1);
    StepRemembers(s, e, es[j].num);
    if j + 1 < k {
      RefusedIsKept(ss, es, j, k - 1);
    }
  }

  /** Over every run: once an unlink of a file has been refused, every later one is refused too, whoever
      has the file open by then. */
  lemma RefusedForever(ss: seq<State>, es: seq<Event>, j: nat, k: nat, regular: bool)
    requires IsRun(ss, es) && j < k <= |es| && es[j].UnlinkFile? && Refuses(ss[j], es[j].num, es[j].regular)
    ensures SlotFor(ss[k].nodes, es[j].num) < |ss[k].nodes| && Refuses(ss[k], es[j].num, regular)
  {
    RunsConserve(ss, es, k);
    RefusedIsKept(ss, es, j, k);
    UnlinkGoesThroughIff(ss[k], es[j].num, regular);
  }

  const ROOT_NODE := Node(ROOT_INODE, 1)

  lemma SmallBoot()
    ensures Boot(1, 1, 1, 2, {1}) == State([[None]], [Desc(0, None)], [ROOT_NODE, Node(0, 0)], 0, {1}, multiset{})
  {
    var s := Boot(1, 1, 1, 2, {1});
    assert Empty(1) == [None];
    assert s.rows == [[None]] && s.fds == [Desc(0, None)] && s.nodes == [ROOT_NODE, Node(0, 0)];
  }

  lemma SmallSlots()
    ensures SlotFor([ROOT_NODE, Node(0, 0)], 6) == 1 && SlotFor([ROOT_NODE, Node(6, 1)], 6) == 1
  {
    var nodes, held := [ROOT_NODE, Node(0, 0)], [ROOT_NODE, Node(6, 1)];
    var h, v, k := Holding(nodes, 6, 0), Vacant(nodes, 0), Holding(held, 6, 0);
    assert nodes[1].cnt == 0 && held[1].num == 6;
    assert h == 2 && v == 1 && k == 1;
  }

  const S0 := State([[None]], [Desc(0, None)], [ROOT_NODE, Node(0, 0)], 0, {1}, multiset{})
  const S1 := State([[Some(0)]], [Desc(1, Some(1))], [ROOT_NODE, Node(6, 1)], 0, {1, 6}, multiset{})
  const S2 := State([[Some(0)]], [Desc(1, Some(1))], [ROOT_NODE, Node(6, 2)], 0, {1, 6}, multiset{6})
  const S3 := State([[None]], [Desc(0, None)], [ROOT_NODE, Node(6, 1)], 0, {1, 6}, multiset{6})

  lemma SmallCreate()
    ensures Enabled(S0, CreateFile(0, 0, 0, 6)) && Step(S0, CreateFile(0, 0, 0, 6)) == S1
  {
    SmallSlots();
    var c := Create(S0, 0, 0, 0, 6);
    assert S0.rows[0][0 := Some(0)] == S1.rows[0];
    assert c.used == {1, 6} && c.rows == S1.rows && c.fds == S1.fds && c.nodes == S1.nodes;
  }

  lemma SmallUnlink()
    ensures Enabled(S1, UnlinkFile(6, true)) && Refuses(S1, 6, true) && Step(S1, UnlinkFile(6, true)) == S2
  {
    SmallSlots();
    assert Get(S1, 6).nodes == S2.nodes;
    assert Unlink(S1, 6, true).refused == multiset{6};
  }

  lemma SmallClose()
    ensures Enabled(S2, Close(0, 0)) && Step(S2, Close(0, 0)) == S3
  {
    var d := Drop(S2, 0, 0);
    assert S2.rows[0][0 := None] == S0.rows[0];
    assert d.rows == S3.rows && d.fds == S3.fds && d.nodes == S3.nodes;
  }

  /** A file is created, its unlink is refused while it is open, and it is closed: nobody has it open, and
      yet it cannot be deleted. */
  lemma ClosedFileStaysRefused()
    ensures exists ss: seq<State>, es: seq<Event> ::
              IsRun(ss, es) && es == [CreateFile(0, 0, 0, 6), UnlinkFile(6, true), Close(0, 0)] &&
              !HasOpen(ss[3], 6) && SlotFor(ss[3].nodes, 6) < |ss[3].nodes| && Refuses(ss[3], 6, true)
  {
    var ss, es := [S0, S1, S2, S3], [CreateFile(0, 0, 0, 6), UnlinkFile(6, true), Close(0, 0)];
    SmallIsRun(ss, es);
    RefusedForever(ss, es, 1, 3, true);
    assert !HasOpen(ss[3], 6);
  }

  lemma SmallIsRun(ss: seq<State>, es: seq<Event>)
    requires ss == [S0, S1, S2, S3] && es == [CreateFile(0, 0, 0, 6), UnlinkFile(6, true), Close(0, 0)]
    ensures IsRun(ss, es) && Refuses(ss[1], 6, true)
  {
    SmallBoot();
    SmallCreate();
    SmallUnlink();
    SmallClose();
    assert ss[0] == Boot(1, 1, 1, 2, {1}) && ROOT_INODE in {1};
  }

  /** Over every run: when an unlink goes through, no process has a descriptor on the inode it deletes, no
      slot holds that inode afterwards, and its number may be given out again. */
  lemma UnlinkedIsUnused(ss: seq<State>, es: seq<Event>, k: nat)
    requires IsRun(ss, es) && k < |es| && es[k].UnlinkFile? && !Refuses(ss[k], es[k].num, es[k].regular)
    ensures var num := es[k].num;
            !HasOpen(ss[k], num) && !HasOpen(ss[k + 1], num) && !Cached(ss[k + 1].nodes, num) && num !in ss[k + 1].used
  {
    var s, t, num := ss[k], ss[k + 1], es[k].num;
    RunsConserve(ss, es, k);
    RunsConserve(ss, es, k + 1);
    UnlinkGoesThroughIff(s, num, es[k].regular);
    SlotForOk(s, num);
    StatKeepsInv(s, num);
    CachedIff(t, num);
  }
}
