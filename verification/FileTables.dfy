/** The tables of the file system task: do_open, do_close, do_stat, do_unlink, fs_fork and fs_exit on
    filp, fd_table and the inode cache, against the reference counts of RefCounts.dfy. */
module FileTables {
  import opened Options
  import opened Bits
  import opened Device
  import opened InodeCache
  import opened RefCounts

  const I_REGULAR: u32 := 0x8000

  /** The numbers and counts of the slots of the inode cache. */
  function Nodes(slots: seq<Slot>): (r: seq<Node>)
    ensures |r| == |slots| && forall k :: 0 <= k < |r| ==> r[k] == Node(slots[k].num, slots[k].cnt)
  {
    seq(|slots|, k requires 0 <= k < |slots| => Node(slots[k].num, slots[k].cnt))
  }

  lemma NodesUpdate(slots: seq<Slot>, k: nat, x: Slot)
    requires k < |slots|
    ensures Nodes(slots[k := x]) == Nodes(slots)[k := Node(x.num, x.cnt)]
  {
  }

  predicate Holds(slots: seq<Slot>, num: nat, k: nat) {
    k < |slots| && 0 < slots[k].cnt && slots[k].num == num
  }

  /** What get_inode picks: the slot that holds the number, else the first free one, else none. */
  ghost predicate Picks(slots: seq<Slot>, num: nat, k: int) {
    -1 <= k < |slots| &&
    (0 <= k ==> Holds(slots, num, k) ||
                (slots[k].cnt == 0 && (forall j :: 0 <= j < k ==> 0 < slots[j].cnt) &&
                 forall j :: 0 <= j < |slots| ==> !Holds(slots, num, j))) &&
    (k == -1 ==> forall j :: 0 <= j < |slots| ==> 0 < slots[j].cnt && !Holds(slots, num, j))
  }

  ghost predicate AtMostOne(slots: seq<Slot>, num: nat) {
    forall i, j :: 0 <= i < |slots| && 0 <= j < |slots| && Holds(slots, num, i) && Holds(slots, num, j) ==> i == j
  }

  lemma PicksSlotFor(slots: seq<Slot>, num: nat, k: int)
    requires Picks(slots, num, k) && AtMostOne(slots, num)
    ensures SlotFor(Nodes(slots), num) == if k == -1 then |slots| else k
  {
    var nodes := Nodes(slots);
    var h, v := Holding(nodes, num, 0), Vacant(nodes, 0);
    assert h < |slots| ==> Holds(slots, num, h);
    if 0 <= k && Holds(slots, num, k) {
      assert nodes[k] == Node(num, slots[k].cnt);
    }
  }

  /** A number that is clear in the inode map is in no slot. */
  lemma NobodyHolds(s: State, slots: seq<Slot>, num: nat)
    requires Inv(s) && s.nodes == Nodes(slots) && num !in s.used
    ensures forall j :: 0 <= j < |slots| ==> !Holds(slots, num, j)
  {
    forall j | 0 <= j < |slots| ensures !Holds(slots, num, j) {
      assert s.nodes[j] == Node(slots[j].num, slots[j].cnt);
    }
  }

  lemma MirrorsAtMostOne(slots: seq<Slot>, d: seq<byte>, base: nat, count: nat, num: nat)
    requires Mirrors(slots, d, base, count)
    ensures AtMostOne(slots, num)
  {
  }

  /** A slot taken or taken once more, on the counts. */
  lemma GetOnNodes(s: State, slots: seq<Slot>, num: nat, k: int, x: Slot, now: seq<Slot>)
    requires s.nodes == Nodes(slots) && 0 <= k < |slots| && SlotFor(s.nodes, num) == k
    requires now == slots[k := x] && x.num == num && x.cnt == slots[k].cnt + 1
    ensures s.(nodes := Nodes(now)) == Get(s, num)
  {
    NodesUpdate(slots, k, x);
  }

  /** A slot put back, on the counts. */
  lemma PutOnNodes(s: State, slots: seq<Slot>, k: nat, x: Slot, now: seq<Slot>)
    requires s.nodes == Nodes(slots) && k < |slots| && now == slots[k := x] && x.num == slots[k].num
    requires x.cnt == slots[k].cnt - 1
    ensures s.(nodes := Nodes(now)) == Put(s, k)
  {
    NodesUpdate(slots, k, x);
  }

  lemma RowGrows(row: seq<Ref>, f: nat)
    requires f < |row|
    ensures (row[..f] + Empty(|row| - f))[f := row[f]] == row[..f + 1] + Empty(|row| - f - 1)
    ensures row[f] == None ==> row[..f] + Empty(|row| - f) == row[..f + 1] + Empty(|row| - f - 1)
  {
  }

  /** One turn of the loop of fs_exit, on the counts. */
  lemma ExitOne(g: State, p: nat, f: nat)
    requires Inv(g) && Within(g, p, f)
    ensures g.rows[p][f].None? ==> ExitFrom(g, p, f) == ExitFrom(g, p, f + 1)
    ensures g.rows[p][f].Some? ==> DropOk(g, p, f) && ExitFrom(g, p, f) == ExitFrom(Drop(g, p, f), p, f + 1)
  {
    if g.rows[p][f].Some? {
      DropKeepsInv(g, p, f);
    }
  }

  /** One turn of the loop of fs_fork, on the counts. */
  lemma ForkOne(s: State, g: State, row: seq<Ref>, parent: nat, child: nat, f: nat) returns (h: State)
    requires Inv(g) && child < |s.rows| && parent < |s.rows| && parent != child && s.rows[parent] == row && f < |row|
    requires g.rows == s.rows[child := row[..f] + Empty(|row| - f)]
    ensures Inv(h) && h.rows == s.rows[child := row[..f + 1] + Empty(|row| - f - 1)]
    ensures ForkFrom(h, row, child, f + 1) == ForkFrom(g, row, child, f)
    ensures h.root == g.root && h.used == g.used && h.refused == g.refused
    ensures row[f].None? ==> h.fds == g.fds && h.nodes == g.nodes
    ensures row[f].Some? ==>
              var d := row[f].value;
              d < |g.fds| && g.fds[d].node.Some? && g.fds[d].node.value < |g.nodes| &&
              0 < g.nodes[g.fds[d].node.value].cnt &&
              h.fds == g.fds[d := g.fds[d].(cnt := g.fds[d].cnt + 1)] &&
              h.nodes == ChangeCount(g.nodes, g.fds[d].node.value, 1)
  {
    h := g;
    RowGrows(row, f);
    if row[f].Some? {
      var d := row[f].value;
      EntryBound(g, parent, f);
      NodeInUse(g, d);
      ShareKeepsInv(g, child, f, d);
      h := Share(g, child, f, d);
    }
  }

  class Tables {
    const filp: array<seq<Ref>>
    const fds: array<Desc>
    const cache: Cache
    const root: nat
    ghost var used: set<nat>
    ghost var refused: multiset<nat>

    ghost function Abs(): State
      reads this, filp, fds, cache.slots
    {
      State(filp[..], fds[..], Nodes(cache.slots[..]), root, used, refused)
    }

    ghost predicate Separate() {
      filp as object != fds && filp as object != cache.slots && fds as object != cache.slots &&
      filp as object != cache.dev.bytes && filp as object != cache.dev.fsbuf &&
      fds as object != cache.dev.bytes && fds as object != cache.dev.fsbuf
    }

    ghost predicate Valid()
      reads this, filp, fds, cache.slots, cache.dev.bytes
    {
      Separate() && cache.Valid() && Inv(Abs())
    }

    /** init_fs: empty tables, and the root directory taken into the empty cache. */
    constructor (procs: nat, files: nat, descs: nat, cache: Cache, ghost used: set<nat>)
      requires cache.Valid() && 0 < cache.slots.Length && ROOT_INODE <= cache.count && ROOT_INODE in used
      requires forall k :: 0 <= k < cache.slots.Length ==> cache.slots[k] == Slot(Words(0, 0, 0, 0), 0, 0)
      modifies cache.slots, cache.dev.fsbuf
      ensures Valid() && fresh(filp) && fresh(fds) && this.cache == cache
      ensures Abs() == Boot(procs, files, descs, cache.slots.Length, used)
    {
      filp := new seq<Ref>[procs](_ => Empty(files));
      fds := new Desc[descs](_ => Desc(0, None));
      this.cache, root, this.used, refused := cache, 0, used, multiset{};
      new;
      ghost var n, was := cache.slots.Length, cache.slots[..];
      var k := cache.GetInode(ROOT_INODE);
      assert was[0].cnt == 0;
      assert cache.slots[..] == was[0 := cache.slots[0]];
      BootInv(procs, files, descs, n, used);
      assert Nodes(cache.slots[..]) == Boot(procs, files, descs, n, used).nodes;
      assert Abs() == Boot(procs, files, descs, n, used);
    }

    /** get_inode on the cache is Get on the counts; -1 where it panics. */
    method GetSlot(num: nat, ghost s: State) returns (k: int)
      requires Valid() && s == Abs() && 0 < num <= cache.count
      modifies cache.slots, cache.dev.fsbuf
      ensures cache.Valid() && -1 <= k < cache.slots.Length
      ensures SlotFor(s.nodes, num) == if k == -1 then cache.slots.Length else k
      ensures k == -1 ==> Abs() == s
      ensures 0 <= k ==> Abs() == Get(s, num) && 0 < cache.slots[k].cnt && cache.slots[k].num == num
      ensures 0 <= k ==> Place(cache.base, num) + INODE_SIZE <= cache.dev.bytes.Length &&
                         cache.slots[k].words == InodeAt(cache.dev.bytes[..], cache.base, num)
    {
      ghost var was := cache.slots[..];
      MirrorsAtMostOne(was, cache.dev.bytes[..], cache.base, cache.count, num);
      k := cache.GetInode(num);
      assert Picks(was, num, k);
      PicksSlotFor(was, num, k);
      if 0 <= k {
        GetOnNodes(s, was, num, k, cache.slots[k], cache.slots[..]);
      }
    }

    /** new_inode on the cache is NewInode on the counts, for a number that is clear in the inode map. */
    method NewSlot(num: nat, w: Words, ghost s: State) returns (k: int)
      requires Valid() && s == Abs() && 0 < num <= cache.count && num !in used
      modifies cache.slots, cache.dev.bytes, cache.dev.fsbuf, this`used
      ensures cache.Valid() && -1 <= k < cache.slots.Length
      ensures SlotFor(s.nodes, num) == if k == -1 then cache.slots.Length else k
      ensures k == -1 ==> Abs() == s && cache.dev.bytes[..] == old(cache.dev.bytes[..])
      ensures 0 <= k ==> Abs() == RefCounts.NewInode(s, num) && Holds(cache.slots[..], num, k)
      ensures 0 <= k ==> InodeReplaced(old(cache.dev.bytes[..]), cache.dev.bytes[..], cache.base, num, w)
    {
      ghost var was := cache.slots[..];
      MirrorsAtMostOne(was, cache.dev.bytes[..], cache.base, cache.count, num);
      NobodyHolds(s, was, num);
      k := cache.NewInode(num, w);
      assert Picks(was, num, k);
      PicksSlotFor(was, num, k);
      if 0 <= k {
        NewInodeCountsOne(s, num);
        used := used + {num};
        GetOnNodes(s.(used := s.used + {num}), was, num, k, cache.slots[k], cache.slots[..]);
      }
    }

    method FirstFree(row: seq<Ref>) returns (fd: int)
      ensures -1 <= fd < |row| && (0 <= fd ==> row[fd].None? && forall i :: 0 <= i < fd ==> row[i].Some?)
      ensures fd == -1 <==> forall i :: 0 <= i < |row| ==> row[i].Some?
    {
      for i := 0 to |row|
        invariant forall j :: 0 <= j < i ==> row[j].Some?
      {
        if row[i].None? { return i; }
      }
      return -1;
    }

    method FirstUnbound() returns (d: int)
      ensures -1 <= d < fds.Length && (0 <= d ==> fds[d].node.None? && forall i :: 0 <= i < d ==> fds[i].node.Some?)
      ensures d == -1 <==> forall i :: 0 <= i < fds.Length ==> fds[i].node.Some?
    {
      for i := 0 to fds.Length
        invariant forall j :: 0 <= j < i ==> fds[j].node.Some?
      {
        if fds[i].node.None? { return i; }
      }
      return -1;
    }

    /** do_open panics: no free entry, no free descriptor, or no slot for the inode. */
    ghost predicate NoRoom(s: State, p: nat, num: nat)
      requires p < |s.rows|
    {
      (forall i :: 0 <= i < |s.rows[p]| ==> s.rows[p][i].Some?) ||
      (forall d :: 0 <= d < |s.fds| ==> s.fds[d].node.Some?) || SlotFor(s.nodes, num) == |s.nodes|
    }

    /** Entry f of process p is the first free one, and d the first free descriptor. */
    ghost predicate FirstOf(s: State, p: nat, f: nat, d: nat) {
      FreeEntry(s, p, f, d) && (forall i :: 0 <= i < f ==> s.rows[p][i].Some?) &&
      forall i :: 0 <= i < d ==> s.fds[i].node.Some?
    }

    /** get_inode for a file that was found, new_inode for one that is created. */
    method TakeInode(num: nat, create: bool, w: Words, ghost s: State) returns (k: int)
      requires Valid() && s == Abs() && 0 < num <= cache.count && (create <==> num !in used)
      modifies cache.slots, cache.dev.bytes, cache.dev.fsbuf, this`used
      ensures cache.Valid() && -1 <= k < cache.slots.Length
      ensures SlotFor(s.nodes, num) == if k == -1 then cache.slots.Length else k
      ensures k == -1 ==> Abs() == s
      ensures 0 <= k ==> Abs() == if create then RefCounts.NewInode(s, num) else Get(s, num)
      ensures 0 <= k ==> Holds(cache.slots[..], num, k)
      ensures k == -1 || !create ==> cache.dev.bytes[..] == old(cache.dev.bytes[..])
      ensures 0 <= k && create ==> InodeReplaced(old(cache.dev.bytes[..]), cache.dev.bytes[..], cache.base, num, w)
    {
      if create {
        k := NewSlot(num, w, s);
      } else {
        k := GetSlot(num, s);
      }
    }

    /** Entry f of process p points at descriptor d, which is open on slot k. */
    method BindEntry(p: nat, f: nat, d: nat, k: nat, ghost g: State)
      requires g == Abs() && Separate() && p < filp.Length && f < |filp[p]| && d < fds.Length
      modifies filp, fds
      ensures Abs() == Bind(g, p, f, d, k)
    {
      filp[p] := filp[p][f := Some(d)];
      fds[d] := Desc(1, Some(k));
      assert filp[..] == g.rows[p := g.rows[p][f := Some(d)]];
    }

    /** What an open does to the disk, from image `d` to image `e`: a created inode gets the fields `w`, O_TRUNC
        makes the size 0, and an open of a file that was found without O_TRUNC changes nothing. */
    ghost predicate DiskAfterOpen(d: seq<byte>, e: seq<byte>, num: nat, create: bool, w: Words, trunc: bool) {
      0 < num && Place(cache.base, num) + INODE_SIZE <= |d| &&
      if create then InodeReplaced(d, e, cache.base, num, if trunc then w.(size := 0) else w)
      else if trunc then InodeReplaced(d, e, cache.base, num, InodeAt(d, cache.base, num).(size := 0))
      else e == d
    }

    lemma CreatedThenTruncated(d: seq<byte>, e: seq<byte>, f: seq<byte>, num: nat, create: bool, w: Words)
      requires 0 < num && Place(cache.base, num) + INODE_SIZE <= |d| && |e| == |d|
      requires if create then InodeReplaced(d, e, cache.base, num, w) else e == d
      requires InodeReplaced(e, f, cache.base, num, InodeAt(e, cache.base, num).(size := 0))
      ensures DiskAfterOpen(d, f, num, create, w, true)
    {
      if create {
        ReplacedTwice(d, e, f, cache.base, num, w, w.(size := 0));
      }
    }

    /** O_TRUNC: the size becomes 0, and the inode is synced. */
    method Truncate(k: nat, ghost num: nat)
      requires cache.Valid() && Holds(cache.slots[..], num, k)
      modifies cache.slots, cache.dev.bytes, cache.dev.fsbuf
      ensures cache.Valid() && Nodes(cache.slots[..]) == Nodes(old(cache.slots[..]))
      ensures 0 < num && Place(cache.base, num) + INODE_SIZE <= cache.dev.bytes.Length
      ensures var d := old(cache.dev.bytes[..]);
              InodeReplaced(d, cache.dev.bytes[..], cache.base, num, InodeAt(d, cache.base, num).(size := 0))
    {
      assert SlotOk(cache.slots[..][k], cache.dev.bytes[..], cache.base, cache.count);
      ghost var was := cache.slots[..];
      cache.Store(k, cache.slots[k].words.(size := 0));
      NodesUpdate(was, k, cache.slots[k]);
    }

    /** The inode taken, and emptied with O_TRUNC. */
    method TakeAndTruncate(num: nat, create: bool, w: Words, trunc: bool, ghost s: State) returns (k: int)
      requires Valid() && s == Abs() && 0 < num <= cache.count && (create <==> num !in used)
      modifies cache.slots, cache.dev.bytes, cache.dev.fsbuf, this`used
      ensures cache.Valid() && -1 <= k < cache.slots.Length
      ensures SlotFor(s.nodes, num) == if k == -1 then cache.slots.Length else k
      ensures k == -1 ==> Abs() == s && cache.dev.bytes[..] == old(cache.dev.bytes[..])
      ensures 0 <= k ==> Abs() == if create then RefCounts.NewInode(s, num) else Get(s, num)
      ensures 0 <= k ==> DiskAfterOpen(old(cache.dev.bytes[..]), cache.dev.bytes[..], num, create, w, trunc)
    {
      ghost var d := cache.dev.bytes[..];
      k := TakeInode(num, create, w, s);
      if 0 <= k && trunc {
        ghost var e := cache.dev.bytes[..];
        Truncate(k, num);
        CreatedThenTruncated(d, e, cache.dev.bytes[..], num, create, w);
      }
    }

    /** do_open on a free entry and a free descriptor; false where get_inode panics. */
    method OpenAt(p: nat, f: nat, d: nat, num: nat, create: bool, w: Words, trunc: bool, ghost s: State)
      returns (ok: bool)
      requires Valid() && s == Abs() && FreeEntry(s, p, f, d) && 0 < num <= cache.count && (create <==> num !in used)
      modifies filp, fds, cache.slots, cache.dev.bytes, cache.dev.fsbuf, this`used
      ensures ok <==> SlotFor(s.nodes, num) < |s.nodes|
      ensures !ok ==> Abs() == s && cache.dev.bytes[..] == old(cache.dev.bytes[..])
      ensures ok ==> Valid() && Abs() == if create then Create(s, p, f, d, num) else Open(s, p, f, d, num)
      ensures ok ==> DiskAfterOpen(old(cache.dev.bytes[..]), cache.dev.bytes[..], num, create, w, trunc)
    {
      var k := TakeAndTruncate(num, create, w, trunc, s);
      if k == -1 { return false; }
      OpenKeepsInv(s, p, f, d, num);
      ghost var t := if create then Create(s, p, f, d, num) else Open(s, p, f, d, num);
      assert Inv(t);
      BindEntry(p, f, d, k, Abs());
      assert Abs() == t;
      return true;
    }

    /** do_open once the path has been looked up: `num` is the inode number of the file found, or the one
        alloc_imap_bit gave to a new file, whose fields are then `w`; `trunc` is O_TRUNC.  The result is -1
        where the source panics. */
    method DoOpen(p: nat, num: nat, create: bool, w: Words, trunc: bool) returns (fd: int, ghost d: int)
      requires Valid() && p < filp.Length && 0 < num <= cache.count && (create <==> num !in used)
      modifies filp, fds, cache.slots, cache.dev.bytes, cache.dev.fsbuf, this`used
      ensures fd == -1 <==> NoRoom(old(Abs()), p, num)
      ensures fd == -1 ==> Abs() == old(Abs()) && cache.dev.bytes[..] == old(cache.dev.bytes[..])
      ensures 0 <= fd ==> 0 <= d && FirstOf(old(Abs()), p, fd, d) && SlotFor(old(Abs()).nodes, num) < |old(Abs()).nodes|
      ensures 0 <= fd ==> Valid()
      ensures 0 <= fd && create ==> Abs() == Create(old(Abs()), p, fd, d, num)
      ensures 0 <= fd && !create ==> Abs() == Open(old(Abs()), p, fd, d, num)
      ensures 0 <= fd ==> DiskAfterOpen(old(cache.dev.bytes[..]), cache.dev.bytes[..], num, create, w, trunc)
    {
      ghost var s := Abs();
      d := -1;
      fd := FirstFree(filp[p]);
      if fd == -1 { return; }
      var free := FirstUnbound();
      if free == -1 { return -1, -1; }
      assert FirstOf(s, p, fd, free);
      var ok := OpenAt(p, fd, free, num, create, w, trunc, s);
      return if ok then fd else -1, free;
    }

    /** One user less of a bound descriptor and of its inode. */
    method ReleaseDesc(d: nat, ghost n: nat)
      requires cache.Valid() && Separate() && d < fds.Length && fds[d].node == Some(n)
      requires n < cache.slots.Length && 0 < cache.slots[n].cnt
      modifies fds, cache.slots
      ensures cache.Valid()
      ensures var c := old(fds[d]).cnt - 1;
              fds[..] == old(fds[..])[d := Desc(c, if c == 0 then None else Some(n))]
      ensures Nodes(cache.slots[..]) == ChangeCount(Nodes(old(cache.slots[..])), n, -1)
    {
      ghost var was, them := cache.slots[..], fds[..];
      cache.PutInode(fds[d].node.value);
      NodesUpdate(was, n, cache.slots[n]);
      assert fds[..] == them;
      fds[d] := fds[d].(cnt := fds[d].cnt - 1);
      if fds[d].cnt == 0 {
        fds[d] := fds[d].(node := None);
      }
    }

    /** do_close on an entry in use. */
    method DoClose(p: nat, f: nat)
      requires Valid() && p < filp.Length && f < |filp[p]| && filp[p][f].Some?
      modifies filp, fds, cache.slots
      ensures Valid() && DropOk(old(Abs()), p, f) && Abs() == Drop(old(Abs()), p, f)
    {
      ghost var s := Abs();
      DropKeepsInv(s, p, f);
      ghost var t := Drop(s, p, f);
      var d := filp[p][f].value;
      ghost var n := fds[d].node.value;
      assert s.nodes[n].cnt == cache.slots[n].cnt;
      ReleaseDesc(d, n);
      filp[p] := filp[p][f := None];
      assert filp[..] == t.rows && fds[..] == t.fds && Nodes(cache.slots[..]) == t.nodes;
      assert Abs() == t;
    }

    /** fs_exit: every entry of the process is given back. */
    method FsExit(p: nat)
      requires Valid() && p < filp.Length
      modifies filp, fds, cache.slots
      ensures Valid() && Abs() == ExitFrom(old(Abs()), p, 0) && Kept(old(Abs()), Abs())
      ensures filp[..] == old(filp[..])[p := Empty(|old(filp[p])|)]
    {
      ghost var s := Abs();
      ExitKeepsInv(s, p, 0);
      for f := 0 to |filp[p]|
        invariant Valid() && |filp[p]| == |s.rows[p]| && ExitFrom(Abs(), p, f) == ExitFrom(s, p, 0)
      {
        ExitOne(Abs(), p, f);
        if filp[p][f].Some? {
          DoClose(p, f);
        }
      }
    }

    /** fs_fork's part for one entry in use. */
    method CountEntry(d: nat)
      requires cache.Valid() && Separate() && d < fds.Length && fds[d].node.Some?
      requires fds[d].node.value < cache.slots.Length && 0 < cache.slots[fds[d].node.value].cnt
      modifies fds, cache.slots
      ensures cache.Valid()
      ensures fds[..] == old(fds[..])[d := old(fds[d]).(cnt := old(fds[d]).cnt + 1)]
      ensures Nodes(cache.slots[..]) == ChangeCount(Nodes(old(cache.slots[..])), old(fds[d]).node.value, 1)
    {
      ghost var was := cache.slots[..];
      fds[d] := fds[d].(cnt := fds[d].cnt + 1);
      cache.ShareInode(fds[d].node.value);
      NodesUpdate(was, fds[d].node.value, cache.slots[fds[d].node.value]);
    }

    /** The row of the child as far as it has been counted, and what is left to do. */
    ghost predicate Counted(s: State, g: State, row: seq<Ref>, child: nat, f: nat)
      reads this, filp, fds, cache.slots, cache.dev.bytes
    {
      cache.Valid() && Separate() && child < |s.rows| && f <= |row| && filp[..] == s.rows[child := row] && Inv(g) &&
      root == s.root && used == s.used && refused == s.refused &&
      g == State(s.rows[child := row[..f] + Empty(|row| - f)], fds[..], Nodes(cache.slots[..]), root, used, refused) &&
      ForkFrom(g, row, child, f) == ForkFrom(s, row, child, 0)
    }

    /** One turn of the loop of fs_fork. */
    method ForkEntry(child: nat, f: nat, ghost parent: nat, ghost s: State, ghost g: State, ghost row: seq<Ref>)
      returns (ghost h: State)
      requires Counted(s, g, row, child, f) && f < |row| && parent < |s.rows| && parent != child
      requires s.rows[parent] == row
      modifies fds, cache.slots
      ensures Counted(s, h, row, child, f + 1)
    {
      assert filp[child] == row;
      h := ForkOne(s, g, row, parent, child, f);
      if filp[child][f].Some? {
        var d := filp[child][f].value;
        assert g.nodes[g.fds[d].node.value].cnt == cache.slots[g.fds[d].node.value].cnt;
        CountEntry(d);
        assert fds[..] == h.fds && Nodes(cache.slots[..]) == h.nodes;
      }
    }

    /** do_fork copies the parent's table over the child's empty one, and fs_fork then counts its
        entries. */
    method Fork(parent: nat, child: nat)
      requires Valid() && parent < filp.Length && child < filp.Length && parent != child
      requires filp[child] == Empty(|filp[parent]|)
      modifies filp, fds, cache.slots
      ensures Valid() && Abs() == ForkFrom(old(Abs()), old(filp[parent]), child, 0) && Kept(old(Abs()), Abs())
      ensures filp[..] == old(filp[..])[child := old(filp[parent])]
    {
      ghost var g := Abs();
      ghost var s, row := g, filp[parent];
      assert row[..0] + Empty(|row|) == s.rows[child];
      ForkKeepsInv(s, parent, child, 0);
      filp[child] := filp[parent];
      assert s.rows[child := s.rows[child]] == s.rows;
      for f := 0 to |filp[child]|
        invariant filp[child] == row && Counted(s, g, row, child, f)
      {
        g := ForkEntry(child, f, parent, s, g, row);
      }
      assert row[..|row|] + Empty(0) == row;
      assert g == Abs();
    }

    /** do_stat once the path has been looked up; false where get_inode panics. */
    method DoStat(num: nat) returns (ok: bool)
      requires Valid() && 0 < num <= cache.count
      modifies cache.slots, cache.dev.fsbuf
      ensures ok <==> SlotFor(old(Abs()).nodes, num) < |old(Abs()).nodes|
      ensures Valid() && Abs() == if ok then Stat(old(Abs()), num) else old(Abs())
    {
      ghost var s := Abs();
      var k := GetSlot(num, s);
      if k == -1 { return false; }
      StatKeepsInv(s, num);
      ghost var g, was := Abs(), cache.slots[..];
      cache.PutInode(k);
      PutOnNodes(g, was, k, cache.slots[k], cache.slots[..]);
      assert Abs() == Stat(s, num);
      return true;
    }

    /** do_unlink once the path has been looked up, as far as counts and the inode go: it is refused, with
        the inode kept, or the inode is erased.  None where get_inode panics. */
    method DoUnlink(num: nat) returns (done: Option<bool>)
      requires Valid() && 0 < num <= cache.count && num in used
      requires Place(cache.base, num) + INODE_SIZE <= cache.dev.bytes.Length
      modifies cache.slots, cache.dev.bytes, cache.dev.fsbuf, this`used, this`refused
      ensures done.None? <==> SlotFor(old(Abs()).nodes, num) == |old(Abs()).nodes|
      ensures var regular := InodeAt(old(cache.dev.bytes[..]), cache.base, num).mode == I_REGULAR;
              done.Some? ==> SlotFor(old(Abs()).nodes, num) < |old(Abs()).nodes| && Valid() &&
                             (done.value <==> !Refuses(old(Abs()), num, regular)) &&
                             Abs() == Unlink(old(Abs()), num, regular)
      ensures if done == Some(true)
              then InodeReplaced(old(cache.dev.bytes[..]), cache.dev.bytes[..], cache.base, num, Words(0, 0, 0, 0))
              else cache.dev.bytes[..] == old(cache.dev.bytes[..])
    {
      ghost var s := Abs();
      var k := GetSlot(num, s);
      if k == -1 { return None; }
      ghost var regular := InodeAt(cache.dev.bytes[..], cache.base, num).mode == I_REGULAR;
      UnlinkKeepsInv(s, num, regular);
      ghost var g, was := Abs(), cache.slots[..];
      assert g.nodes[k] == Node(was[k].num, was[k].cnt);
      if cache.slots[k].words.mode != I_REGULAR || 1 < cache.slots[k].cnt {
        refused := refused + multiset{num};
        return Some(false);
      }
      cache.Erase(k);
      PutOnNodes(g, was, k, cache.slots[k], cache.slots[..]);
      used := used - {num};
      assert Abs() == Unlink(s, num, regular);
      return Some(true);
    }
  }
}
