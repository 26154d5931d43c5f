/** The inode cache (fs/main.c): get_inode, put_inode and sync_inode over the inode array on disk.
    Between operations a cached inode is the inode on disk. */
module InodeCache {
  import opened Bits
  import opened Device

  const INODE_SIZE := 32

  /** The fields of an inode that are kept on disk. */
  datatype Words = Words(mode: u32, size: u32, start: u32, nrSects: u32)

  function EncodeWords(w: Words): (r: seq<byte>)
    ensures |r| == 16
  {
    Encode(w.mode) + Encode(w.size) + Encode(w.start) + Encode(w.nrSects)
  }

  function DecodeWords(s: seq<byte>): Words
    requires |s| == 16
  {
    Words(Decode(s[0..4]), Decode(s[4..8]), Decode(s[8..12]), Decode(s[12..16]))
  }

  lemma WordsRoundTrip(w: Words)
    ensures DecodeWords(EncodeWords(w)) == w
  {
    var s := EncodeWords(w);
    assert s[0..4] == Encode(w.mode) && s[4..8] == Encode(w.size);
    assert s[8..12] == Encode(w.start) && s[12..16] == Encode(w.nrSects);
    DecodeEncode(w.mode);
    DecodeEncode(w.size);
    DecodeEncode(w.start);
    DecodeEncode(w.nrSects);
  }

  /** Where inode `nr` lives when the inode array starts with sector `base`. */
  function Place(base: nat, nr: nat): nat
    requires 0 < nr
  {
    base * SECTOR_SIZE + (nr - 1) * INODE_SIZE
  }

  /** The sector and the offset the source computes for inode `nr` are that place. */
  lemma PlaceInSector(base: nat, nr: nat)
    requires 0 < nr
    ensures var sect := base + (nr - 1) * INODE_SIZE / SECTOR_SIZE;
            var off := (nr - 1) % (SECTOR_SIZE / INODE_SIZE) * INODE_SIZE;
            off + INODE_SIZE <= SECTOR_SIZE && Place(base, nr) == sect * SECTOR_SIZE + off
  {
  }

  /** Which bytes of its place hold which field of an inode, lowest byte first: the mode, the size, the first
      sector and the number of sectors, four bytes each. */
  lemma InodeLayout(d: seq<byte>, base: nat, nr: nat)
    requires 0 < nr && Place(base, nr) + INODE_SIZE <= |d|
    ensures var at, w := Place(base, nr), InodeAt(d, base, nr);
            d[at..at + 4] == Encode(w.mode) && d[at + 4..at + 8] == Encode(w.size) &&
            d[at + 8..at + 12] == Encode(w.start) && d[at + 12..at + 16] == Encode(w.nrSects)
  {
    var at := Place(base, nr);
    var s := d[at..at + 16];
    SliceOfSlice(d, at, 16, 0, 4);
    SliceOfSlice(d, at, 16, 4, 4);
    SliceOfSlice(d, at, 16, 8, 4);
    SliceOfSlice(d, at, 16, 12, 4);
    EncodeDecode(s[0..4]);
    EncodeDecode(s[4..8]);
    EncodeDecode(s[8..12]);
    EncodeDecode(s[12..16]);
  }

  /** The array of `count` inodes fits on a disk image. */
  predicate Fits(d: seq<byte>, base: nat, count: nat) {
    base * SECTOR_SIZE + count * INODE_SIZE <= |d|
  }

  function InodeAt(d: seq<byte>, base: nat, nr: nat): Words
    requires 0 < nr && Place(base, nr) + INODE_SIZE <= |d|
  {
    DecodeWords(d[Place(base, nr)..Place(base, nr) + 16])
  }

  /** From image `d` to image `e` inode `nr` has become `w`; every other inode is as before, and so is every
      byte outside the 32 of `nr`. */
  ghost predicate InodeReplaced(d: seq<byte>, e: seq<byte>, base: nat, nr: nat, w: Words) {
    0 < nr && |e| == |d| && Place(base, nr) + INODE_SIZE <= |d| && InodeAt(e, base, nr) == w &&
    (forall x :: 0 <= x < |d| && !(Place(base, nr) <= x < Place(base, nr) + INODE_SIZE) ==> e[x] == d[x]) &&
    (forall m :: 0 < m && m != nr && Place(base, m) + INODE_SIZE <= |d| ==> InodeAt(e, base, m) == InodeAt(d, base, m))
  }

  lemma ReplacedTwice(d: seq<byte>, e: seq<byte>, f: seq<byte>, base: nat, nr: nat, v: Words, w: Words)
    requires InodeReplaced(d, e, base, nr, v) && InodeReplaced(e, f, base, nr, w)
    ensures InodeReplaced(d, f, base, nr, w)
  {
  }

  /** Writing inode `nr` makes it read back, leaves every other inode alone, and touches no byte
      outside its own 32. */
  lemma StoreInode(d: seq<byte>, base: nat, nr: nat, w: Words)
    requires 0 < nr && Place(base, nr) + INODE_SIZE <= |d|
    ensures InodeReplaced(d, Splice(d, Place(base, nr), EncodeWords(w)), base, nr, w)
  {
    var e, at := Splice(d, Place(base, nr), EncodeWords(w)), Place(base, nr);
    assert e[at..at + 16] == EncodeWords(w);
    WordsRoundTrip(w);
    forall m | 0 < m && m != nr && Place(base, m) + INODE_SIZE <= |d|
      ensures InodeAt(e, base, m) == InodeAt(d, base, m)
    {
      var b := Place(base, m);
      assert b + INODE_SIZE <= at || at + INODE_SIZE <= b;
      assert e[b..b + 16] == d[b..b + 16];
    }
  }

  /** A slot of inode_table; `cnt` is i_cnt, and a slot whose count is 0 is free.  One device only. */
  datatype Slot = Slot(words: Words, num: nat, cnt: nat)

  ghost predicate SlotOk(s: Slot, d: seq<byte>, base: nat, count: nat)
    requires Fits(d, base, count)
  {
    0 < s.cnt ==> 0 < s.num <= count && s.words == InodeAt(d, base, s.num)
  }

  /** Every slot in use mirrors its inode on disk, and no inode is cached twice. */
  ghost predicate Mirrors(slots: seq<Slot>, d: seq<byte>, base: nat, count: nat) {
    Fits(d, base, count) &&
    (forall k :: 0 <= k < |slots| ==> SlotOk(slots[k], d, base, count)) &&
    (forall j, k :: 0 <= j < |slots| && 0 <= k < |slots| && 0 < slots[j].cnt && 0 < slots[k].cnt && j != k ==>
       slots[j].num != slots[k].num)
  }

  /** Changing a slot in use together with its inode on disk keeps the mirror. */
  lemma StoreMirrors(slots: seq<Slot>, d: seq<byte>, base: nat, count: nat, k: nat, w: Words, cnt: nat)
    requires Mirrors(slots, d, base, count) && k < |slots| && 0 < slots[k].cnt
    ensures Place(base, slots[k].num) + INODE_SIZE <= |d|
    ensures Mirrors(slots[k := slots[k].(words := w, cnt := cnt)],
                    Splice(d, Place(base, slots[k].num), EncodeWords(w)), base, count)
  {
    assert SlotOk(slots[k], d, base, count);
    var nr := slots[k].num;
    StoreInode(d, base, nr, w);
    var slots', e := slots[k := slots[k].(words := w, cnt := cnt)], Splice(d, Place(base, nr), EncodeWords(w));
    forall j | 0 <= j < |slots'| ensures SlotOk(slots'[j], e, base, count) {
      assert SlotOk(slots[j], d, base, count);
      if j != k && 0 < slots[j].cnt {
        assert slots[j].num != nr;
        assert InodeAt(e, base, slots[j].num) == InodeAt(d, base, slots[j].num);
      }
    }
  }

  class Cache {
    const dev: Disk
    const base: nat
    const count: nat
    const slots: array<Slot>

    /** The disk is well formed and the table is not part of it. */
    ghost predicate Separate() {
      dev.Valid() && slots as object != dev.bytes && slots as object != dev.fsbuf
    }

    ghost predicate Valid()
      reads slots, dev.bytes
    {
      Separate() && Mirrors(slots[..], dev.bytes[..], base, count)
    }

    /** init_fs: an empty cache of `n` slots. */
    constructor (dev: Disk, base: nat, count: nat, n: nat)
      requires dev.Valid() && Fits(dev.bytes[..], base, count)
      ensures Valid() && this.dev == dev && this.base == base && this.count == count && fresh(slots)
      ensures slots.Length == n
      ensures forall k :: 0 <= k < n ==> slots[k] == Slot(Words(0, 0, 0, 0), 0, 0)
    {
      this.dev, this.base, this.count := dev, base, count;
      slots := new Slot[n](_ => Slot(Words(0, 0, 0, 0), 0, 0));
    }

    /** Which slot holds inode `nr`, if any: the search loop of get_inode. */
    method Find(nr: nat) returns (found: int, free: int)
      ensures -1 <= found < slots.Length && -1 <= free < slots.Length
      ensures 0 <= found ==> 0 < slots[found].cnt && slots[found].num == nr
      ensures found == -1 ==> forall k :: 0 <= k < slots.Length ==> !(0 < slots[k].cnt && slots[k].num == nr)
      ensures 0 <= free ==> slots[free].cnt == 0 && forall k :: 0 <= k < free ==> 0 < slots[k].cnt
      ensures found == -1 && free == -1 ==> forall k :: 0 <= k < slots.Length ==> 0 < slots[k].cnt
    {
      found, free := -1, -1;
      for k := 0 to slots.Length
        invariant -1 <= free < k
        invariant (0 <= free ==> slots[free].cnt == 0 && forall j :: 0 <= j < free ==> 0 < slots[j].cnt)
        invariant found == -1
        invariant forall j :: 0 <= j < k ==> !(0 < slots[j].cnt && slots[j].num == nr)
        invariant free == -1 ==> forall j :: 0 <= j < k ==> 0 < slots[j].cnt
      {
        if slots[k].cnt != 0 {
          if slots[k].num == nr {
            found := k;
            return;
          }
        } else if free == -1 {
          free := k;
        }
      }
    }

    /** get_inode: the slot of inode `nr`, with one more user; filled from disk if it was not cached.
        The result is -1 where the source panics because every slot is in use. */
    method GetInode(nr: nat) returns (k: int)
      requires Valid() && 0 < nr <= count
      modifies slots, dev.fsbuf
      ensures -1 <= k < slots.Length
      ensures k == -1 <==> forall j :: 0 <= j < slots.Length ==> 0 < old(slots[j].cnt) && old(slots[j].num) != nr
      ensures k == -1 ==> slots[..] == old(slots[..]) && Valid()
      ensures 0 <= k ==> k < slots.Length && Valid() && Place(base, nr) + INODE_SIZE <= dev.bytes.Length
      ensures 0 <= k ==>
                slots[..] == old(slots[..])[k := Slot(InodeAt(dev.bytes[..], base, nr), nr, old(slots[k].cnt) + 1)]
      ensures 0 <= k && 0 < old(slots[k].cnt) ==> old(slots[k].num) == nr
      ensures 0 <= k && old(slots[k].cnt) == 0 ==>
                (forall j :: 0 <= j < k ==> 0 < old(slots[j].cnt)) &&
                forall j :: 0 <= j < slots.Length ==> !(0 < old(slots[j].cnt) && old(slots[j].num) == nr)
    {
      ghost var was := slots[..];
      var found, free := Find(nr);
      PlaceInSector(base, nr);
      if 0 <= found {
        assert SlotOk(was[found], dev.bytes[..], base, count);
        slots[found] := slots[found].(cnt := slots[found].cnt + 1);
        MoreUsers(was, dev.bytes[..], base, count, found, slots[found].cnt);
        assert slots[..] == was[found := was[found].(cnt := slots[found].cnt)];
        return found;
      }
      if free == -1 {
        return -1;
      }
      var w := ReadWords(nr);
      slots[free] := Slot(w, nr, 1);
      assert slots[..] == was[free := Slot(w, nr, 1)];
      LoadMirrors(was, dev.bytes[..], base, count, free, nr);
      return free;
    }

    /** Read the on-disk fields of inode `nr`. */
    method ReadWords(nr: nat) returns (w: Words)
      requires dev.Valid() && 0 < nr <= count && Fits(dev.bytes[..], base, count)
      modifies dev.fsbuf
      ensures Place(base, nr) + INODE_SIZE <= dev.bytes.Length && w == InodeAt(dev.bytes[..], base, nr)
    {
      PlaceInSector(base, nr);
      var sect, off := base + (nr - 1) * INODE_SIZE / SECTOR_SIZE, (nr - 1) % (SECTOR_SIZE / INODE_SIZE) * INODE_SIZE;
      dev.RdSect(sect);
      SectorWindow(dev.bytes[..], dev.fsbuf[..], sect, off, 16);
      w := DecodeWords(dev.fsbuf[off..off + 16]);
    }

    /** put_inode. */
    method PutInode(k: nat)
      requires Valid() && k < slots.Length && 0 < slots[k].cnt
      modifies slots
      ensures Valid() && slots[..] == old(slots[..])[k := old(slots[k]).(cnt := old(slots[k].cnt) - 1)]
    {
      ghost var was := slots[..];
      slots[k] := slots[k].(cnt := slots[k].cnt - 1);
      assert slots[..] == was[k := was[k].(cnt := was[k].cnt - 1)];
      MoreUsers(was, dev.bytes[..], base, count, k, was[k].cnt - 1);
    }

    /** One more user of a slot in use, as fs_fork counts it. */
    method ShareInode(k: nat)
      requires Valid() && k < slots.Length && 0 < slots[k].cnt
      modifies slots
      ensures Valid() && slots[..] == old(slots[..])[k := old(slots[k]).(cnt := old(slots[k].cnt) + 1)]
    {
      ghost var was := slots[..];
      slots[k] := slots[k].(cnt := slots[k].cnt + 1);
      assert slots[..] == was[k := was[k].(cnt := was[k].cnt + 1)];
      MoreUsers(was, dev.bytes[..], base, count, k, was[k].cnt + 1);
    }

    /** new_inode, for a number that is not cached: its slot is filled in, the count is set to 1, and the
        inode is synced.  The result is -1 where get_inode panics. */
    method NewInode(nr: nat, w: Words) returns (k: int)
      requires Valid() && 0 < nr <= count
      requires forall j :: 0 <= j < slots.Length ==> !(0 < slots[j].cnt && slots[j].num == nr)
      modifies slots, dev.bytes, dev.fsbuf
      ensures -1 <= k < slots.Length
      ensures k == -1 <==> forall j :: 0 <= j < slots.Length ==> 0 < old(slots[j].cnt)
      ensures k == -1 ==> slots[..] == old(slots[..]) && dev.bytes[..] == old(dev.bytes[..]) && Valid()
      ensures 0 <= k ==> k < slots.Length && Valid() && slots[..] == old(slots[..])[k := Slot(w, nr, 1)]
      ensures 0 <= k ==> InodeReplaced(old(dev.bytes[..]), dev.bytes[..], base, nr, w)
      ensures 0 <= k ==> old(slots[k].cnt) == 0 && forall j :: 0 <= j < k ==> 0 < old(slots[j].cnt)
    {
      ghost var was := slots[..];
      k := GetInode(nr);
      if k == -1 { return; }
      Store(k, w);
      slots[k] := slots[k].(cnt := 1);
      assert slots[..] == was[k := Slot(w, nr, 1)];
    }

    /** sync_inode: the fields of the slot go to its place on disk, and nothing else on disk changes. */
    method SyncInode(k: nat)
      requires Separate() && Fits(dev.bytes[..], base, count) && k < slots.Length && 0 < slots[k].num <= count
      modifies dev.bytes, dev.fsbuf
      ensures Place(base, slots[k].num) + INODE_SIZE <= dev.bytes.Length
      ensures dev.bytes[..] == Splice(old(dev.bytes[..]), Place(base, slots[k].num), EncodeWords(slots[k].words))
    {
      var nr := slots[k].num;
      PlaceInSector(base, nr);
      var sect, off := base + (nr - 1) * INODE_SIZE / SECTOR_SIZE, (nr - 1) % (SECTOR_SIZE / INODE_SIZE) * INODE_SIZE;
      dev.Update(sect, off, EncodeWords(slots[k].words));
    }

    /** Change the fields of a slot in use and sync it, as new_inode, do_open and do_rdwt do. */
    method Store(k: nat, w: Words)
      requires Valid() && k < slots.Length && 0 < slots[k].cnt
      modifies slots, dev.bytes, dev.fsbuf
      ensures Valid() && slots[..] == old(slots[..])[k := old(slots[k]).(words := w)]
      ensures Place(base, slots[k].num) + INODE_SIZE <= dev.bytes.Length
      ensures dev.bytes[..] == Splice(old(dev.bytes[..]), Place(base, slots[k].num), EncodeWords(w))
      ensures InodeReplaced(old(dev.bytes[..]), dev.bytes[..], base, slots[k].num, w)
    {
      ghost var was := slots[..];
      ghost var d, nr := dev.bytes[..], slots[k].num;
      StoreMirrors(was, dev.bytes[..], base, count, k, w, was[k].cnt);
      assert SlotOk(was[k], dev.bytes[..], base, count);
      slots[k] := slots[k].(words := w);
      assert slots[..] == was[k := was[k].(words := w, cnt := was[k].cnt)];
      SyncInode(k);
      StoreInode(d, base, nr, w);
    }

    /** do_unlink: clear the fields, drop the last user, then sync. */
    method Erase(k: nat)
      requires Valid() && k < slots.Length && 0 < slots[k].cnt
      modifies slots, dev.bytes, dev.fsbuf
      ensures Valid()
      ensures slots[..] == old(slots[..])[k := old(slots[k]).(words := Words(0, 0, 0, 0), cnt := old(slots[k].cnt) - 1)]
      ensures Place(base, slots[k].num) + INODE_SIZE <= dev.bytes.Length
      ensures dev.bytes[..] == Splice(old(dev.bytes[..]), Place(base, slots[k].num), EncodeWords(Words(0, 0, 0, 0)))
      ensures InodeReplaced(old(dev.bytes[..]), dev.bytes[..], base, slots[k].num, Words(0, 0, 0, 0))
    {
      ghost var was := slots[..];
      ghost var d, nr := dev.bytes[..], slots[k].num;
      StoreMirrors(was, dev.bytes[..], base, count, k, Words(0, 0, 0, 0), was[k].cnt - 1);
      assert SlotOk(was[k], dev.bytes[..], base, count);
      slots[k] := slots[k].(words := Words(0, 0, 0, 0));
      slots[k] := slots[k].(cnt := slots[k].cnt - 1);
      assert slots[..] == was[k := was[k].(words := Words(0, 0, 0, 0), cnt := was[k].cnt - 1)];
      SyncInode(k);
      StoreInode(d, base, nr, Words(0, 0, 0, 0));
    }
  }

  lemma MoreUsers(slots: seq<Slot>, d: seq<byte>, base: nat, count: nat, k: nat, cnt: nat)
    requires Mirrors(slots, d, base, count) && k < |slots| && 0 < slots[k].cnt
    ensures Mirrors(slots[k := slots[k].(cnt := cnt)], d, base, count)
  {
  }

  /** Filling a free slot with an inode that is not cached keeps the mirror. */
  lemma LoadMirrors(slots: seq<Slot>, d: seq<byte>, base: nat, count: nat, k: nat, nr: nat)
    requires Mirrors(slots, d, base, count) && k < |slots| && slots[k].cnt == 0 && 0 < nr <= count
    requires forall j :: 0 <= j < |slots| ==> !(0 < slots[j].cnt && slots[j].num == nr)
    ensures Place(base, nr) + INODE_SIZE <= |d|
    ensures Mirrors(slots[k := Slot(InodeAt(d, base, nr), nr, 1)], d, base, count)
  {
  }
}
