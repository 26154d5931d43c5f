/** The root directory: new_directory_entry (fs/open.c) and search_file (fs/misc.c), which walk the
    directory file sector by sector, 32 entries of 16 bytes at a time. */
module Directory {
  import opened Bits
  import opened Device

  const PER_SECT := 32
  const ENTRY_SIZE := 16

  /** What strcmp sees of a name: the bytes before the first 0. */
  type Name = seq<byte>

  /** A name that fits into an entry with its terminating 0. */
  predicate IsName(name: Name) {
    |name| <= 11 && forall i :: 0 <= i < |name| ==> name[i] != 0
  }

  /** An inode number; 0 stands for none. */
  datatype Num = Num(word: u32)

  const NONE := Num(0)

  /** An unused entry has no inode number. */
  datatype Entry = Entry(inode: Num, name: Name)

  const UNUSED := Entry(NONE, [])

  /** `slots` is the directory file, `count` is i_size in entries, unused ones included. */
  datatype Dir = Dir(slots: seq<Entry>, count: nat)

  // ---------------------------------------------------------------- what the operations mean

  /** The first entry from i on, before `end`, that satisfies the search for `name`; `end` if none. */
  function Find(slots: seq<Entry>, name: Name, i: nat, end: nat): (r: nat)
    requires i <= end <= |slots|
    ensures i <= r <= end && (r < end ==> slots[r].name == name)
    ensures forall k :: i <= k < r ==> slots[k].name != name
    decreases end - i
  {
    if i == end || slots[i].name == name then i else Find(slots, name, i + 1, end)
  }

  /** How many entries search_file looks at: one more than the directory has, unless that would need
      one more sector. */
  function Examined(count: nat): (r: nat)
    ensures count <= r <= count + 1
  {
    if count % PER_SECT == 0 then count else count + 1
  }

  function Lookup(d: Dir, name: Name): Num
    requires Examined(d.count) <= |d.slots|
  {
    var k := Find(d.slots, name, 0, Examined(d.count));
    if k < Examined(d.count) then d.slots[k].inode else NONE
  }

  /** The first unused entry from i on, before `end`; `end` if none. */
  function Hole(slots: seq<Entry>, i: nat, end: nat): (r: nat)
    requires i <= end <= |slots|
    ensures i <= r <= end && (r < end ==> slots[r].inode == NONE)
    ensures forall k :: i <= k < r ==> slots[k].inode != NONE
    decreases end - i
  {
    if i == end || slots[i].inode == NONE then i else Hole(slots, i + 1, end)
  }

  /** No unused entry, and the last sector in use is full: the new entry goes past the buffer. */
  predicate Lost(d: Dir)
    requires d.count <= |d.slots|
  {
    Hole(d.slots, 0, d.count) == d.count && 0 < d.count && d.count % PER_SECT == 0
  }

  /** new_directory_entry: the first unused entry, else one more at the end, which is lost when it does
      not fall into a sector that has been read. */
  function Insert(d: Dir, name: Name, inode: Num): Dir
    requires d.count < |d.slots|
  {
    var k := Hole(d.slots, 0, d.count);
    if k < d.count then d.(slots := d.slots[k := Entry(inode, name)])
    else if Lost(d) then d.(count := d.count + 1)
    else Dir(d.slots[k := Entry(inode, name)], d.count + 1)
  }

  /** Entry k is the first unused one of the directory. */
  ghost predicate FirstUnused(d: Dir, k: nat) {
    k < d.count <= |d.slots| && d.slots[k].inode == NONE && forall i :: 0 <= i < k ==> d.slots[i].inode != NONE
  }

  /** Where a new entry goes: to the first unused one; if there is none, behind the last one, and nowhere when
      the directory fills whole sectors.  No other entry changes, and only in the last two cases the size. */
  lemma InsertDecides(d: Dir, name: Name, inode: Num)
    requires d.count < |d.slots|
    ensures var e := Insert(d, name, inode);
            if exists i :: 0 <= i < d.count && d.slots[i].inode == NONE
            then e.count == d.count && exists k: nat :: FirstUnused(d, k) && e.slots == d.slots[k := Entry(inode, name)]
            else e.count == d.count + 1 &&
                 e.slots == if d.count % PER_SECT == 0 && d.count != 0 then d.slots
                            else d.slots[d.count := Entry(inode, name)]
  {
    var k := Hole(d.slots, 0, d.count);
    if k < d.count {
      assert FirstUnused(d, k);
    }
  }

  /** Whole sectors, room for one more, unused entries have no name and nothing lies beyond the size. */
  ghost predicate Ok(d: Dir) {
    d.count < |d.slots| && |d.slots| % PER_SECT == 0 &&
    (forall k :: 0 <= k < |d.slots| && d.slots[k].inode == NONE ==> d.slots[k].name == []) &&
    (forall k :: d.count <= k < |d.slots| ==> d.slots[k] == UNUSED)
  }

  /** After an insertion every name but the new one is looked up as before; the new one is found with
      its inode number exactly when the entry was not lost. */
  lemma InsertLookup(d: Dir, name: Name, inode: Num, other: Name)
    requires Ok(d) && inode != NONE && name != [] && other != [] && d.count + 1 < |d.slots|
    requires Lookup(d, name) == NONE
    ensures var e := Insert(d, name, inode);
            Ok(e) && Examined(e.count) <= |e.slots| &&
            (other != name ==> Lookup(e, other) == Lookup(d, other)) &&
            (Lookup(e, name) == inode <==> !Lost(d)) && (Lost(d) ==> Lookup(e, name) == NONE)
  {
    var e := Insert(d, name, inode);
    Absent(d, name);
    if Lost(d) {
      SameLookup(d, e, other);
      SameLookup(d, e, name);
    } else {
      var k := Hole(d.slots, 0, d.count);
      FoundAt(e, name, k);
      if other != name {
        SameLookup(d, e, other);
      }
    }
  }

  /** A name that looks up to 0 is nowhere in the directory. */
  lemma Absent(d: Dir, name: Name)
    requires Ok(d) && name != [] && Lookup(d, name) == NONE
    ensures forall k :: 0 <= k < |d.slots| ==> d.slots[k].name != name
  {
  }

  lemma FoundAt(e: Dir, name: Name, k: nat)
    requires Examined(e.count) <= |e.slots| && k < e.count && e.slots[k].name == name
    requires forall j :: 0 <= j < |e.slots| && j != k ==> e.slots[j].name != name
    ensures Lookup(e, name) == e.slots[k].inode
  {
  }

  /** Lookups agree when the directories differ only in entries that carry neither name. */
  lemma SameLookup(d: Dir, e: Dir, name: Name)
    requires Ok(d) && Ok(e) && |e.slots| == |d.slots| && name != []
    requires forall k :: 0 <= k < |d.slots| ==>
               d.slots[k] == e.slots[k] || (d.slots[k].name != name && e.slots[k].name != name)
    ensures Lookup(e, name) == Lookup(d, name)
  {
  }

  // ---------------------------------------------------------------- runs of creations

  datatype Event = Create(name: Name, inode: Num)

  /** A creation follows a failed search; names fit and inode numbers are never 0. */
  ghost predicate StepsTo(d: Dir, c: Event, e: Dir) {
    c.inode != NONE && IsName(c.name) && c.name != [] && d.count + 1 < |d.slots| && Examined(d.count) <= |d.slots| &&
    Lookup(d, c.name) == NONE && e == Insert(d, c.name, c.inode)
  }

  ghost predicate IsRun(ds: seq<Dir>, cs: seq<Event>) {
    |ds| == |cs| + 1 && Ok(ds[0]) && forall i :: 0 <= i < |cs| ==> StepsTo(ds[i], cs[i], ds[i + 1])
  }

  lemma {:induction false} RunsKeepOk(ds: seq<Dir>, cs: seq<Event>, n: nat)
    requires IsRun(ds, cs) && n <= |cs|
    ensures Ok(ds[n]) && Examined(ds[n].count) <= |ds[n].slots|
    decreases n
  {
    if 0 < n {
      RunsKeepOk(ds, cs, n - 1);
      assert StepsTo(ds[n - 1], cs[n - 1], ds[n]);
      InsertLookup(ds[n - 1], cs[n - 1].name, cs[n - 1].inode, cs[n - 1].name);
    }
  }

  /** Over every run of creations: a name that looked up to inode number `x` at step m still does at any
      later step n, unless it was absent and created in between. */
  lemma {:induction false} LookupsAreStable(ds: seq<Dir>, cs: seq<Event>, m: nat, n: nat, name: Name)
    requires IsRun(ds, cs) && m <= n <= |cs| && name != [] && forall i :: m <= i < n ==> cs[i].name != name
    ensures Examined(ds[m].count) <= |ds[m].slots| && Examined(ds[n].count) <= |ds[n].slots|
    ensures Lookup(ds[n], name) == Lookup(ds[m], name)
    decreases n
  {
    RunsKeepOk(ds, cs, m);
    if m < n {
      LookupsAreStable(ds, cs, m, n - 1, name);
      RunsKeepOk(ds, cs, n - 1);
      StepKeepsLookup(ds[n - 1], cs[n - 1], ds[n], name);
    }
  }

  lemma StepKeepsLookup(d: Dir, c: Event, e: Dir, name: Name)
    requires Ok(d) && StepsTo(d, c, e) && name != [] && c.name != name
    ensures Examined(e.count) <= |e.slots| && Lookup(e, name) == Lookup(d, name)
  {
    InsertLookup(d, c.name, c.inode, name);
  }

  /** Over every run of creations: a created name whose entry was not lost is found, with its inode number,
      at every later step. */
  lemma CreatedIsFound(ds: seq<Dir>, cs: seq<Event>, m: nat, n: nat)
    requires IsRun(ds, cs) && m < n <= |cs|
    requires ds[m].count <= |ds[m].slots| && !Lost(ds[m])
    ensures Examined(ds[n].count) <= |ds[n].slots| && Lookup(ds[n], cs[m].name) == cs[m].inode
  {
    RunsKeepOk(ds, cs, m);
    RunsKeepOk(ds, cs, m + 1);
    assert StepsTo(ds[m], cs[m], ds[m + 1]);
    InsertLookup(ds[m], cs[m].name, cs[m].inode, cs[m].name);
    NamesAreDistinct(ds, cs, m, n);
    LookupsAreStable(ds, cs, m + 1, n, cs[m].name);
  }

  /** A name that has been created and found is not created again. */
  lemma {:induction false} NamesAreDistinct(ds: seq<Dir>, cs: seq<Event>, m: nat, n: nat)
    requires IsRun(ds, cs) && m < n <= |cs|
    requires Examined(ds[m + 1].count) <= |ds[m + 1].slots| && Lookup(ds[m + 1], cs[m].name) == cs[m].inode
    ensures forall i :: m + 1 <= i < n ==> cs[i].name != cs[m].name
    decreases n
  {
    if m + 1 < n {
      NamesAreDistinct(ds, cs, m, n - 1);
      assert StepsTo(ds[m], cs[m], ds[m + 1]);
      LookupsAreStable(ds, cs, m + 1, n - 1, cs[m].name);
      assert StepsTo(ds[n - 1], cs[n - 1], ds[n]);
    }
  }

  // ---------------------------------------------------------------- the creation that is lost

  /** The entries mkfs writes: ".", "dev_tty0", "dev_tty1", "dev_tty2" and "cmd.tar". */
  const MKFS_ENTRIES: seq<Entry> := [
    Entry(Num(1), [0x2E]),
    Entry(Num(2), [0x64, 0x65, 0x76, 0x5F, 0x74, 0x74, 0x79, 0x30]),
    Entry(Num(3), [0x64, 0x65, 0x76, 0x5F, 0x74, 0x74, 0x79, 0x31]),
    Entry(Num(4), [0x64, 0x65, 0x76, 0x5F, 0x74, 0x74, 0x79, 0x32]),
    Entry(Num(5), [0x63, 0x6D, 0x64, 0x2E, 0x74, 0x61, 0x72])]

  const NUMBERS: seq<Num> := [
    Num(6), Num(7), Num(8), Num(9), Num(10), Num(11), Num(12), Num(13), Num(14), Num(15),
    Num(16), Num(17), Num(18), Num(19), Num(20), Num(21), Num(22), Num(23), Num(24), Num(25),
    Num(26), Num(27), Num(28), Num(29), Num(30), Num(31), Num(32), Num(33)]

  lemma MkfsNames(i: nat)
    requires i < 5
    ensures MKFS_ENTRIES[i].inode != NONE && MKFS_ENTRIES[i].name != [] && MKFS_ENTRIES[i].name[0] < 0x78
  {
  }

  lemma NumbersAreValid(i: nat)
    requires i < 28
    ensures NUMBERS[i] != NONE
  {
  }

  /** Names made of one letter: x to xxxxxxxxxxx, then the same with y and z. */
  function NewName(k: nat): (name: Name)
    requires k < 28
    ensures IsName(name) && name != [] && name[0] >= 0x78
  {
    seq(1 + k % 11, _ => if k < 11 then 0x78 else if k < 22 then 0x79 else 0x7A)
  }

  lemma NewNamesDiffer(j: nat, k: nat)
    requires j < k < 28
    ensures NewName(j) != NewName(k)
  {
    if j % 11 == k % 11 {
      assert NewName(j)[0] != NewName(k)[0];
    }
  }

  /** The directory file as mkfs leaves it. */
  const MKFS_DIR: Dir := Dir(MKFS_ENTRIES + seq(2048 * PER_SECT - 5, _ => UNUSED), 5)

  /** No unused entry before the end. */
  ghost predicate Dense(d: Dir) {
    Ok(d) && Hole(d.slots, 0, d.count) == d.count && Examined(d.count) <= |d.slots|
  }

  /** The names are valid, different, and none of them is in the directory; there is room for them. */
  ghost predicate AllNew(d: Dir, cs: seq<Event>) {
    Dense(d) && d.count + |cs| < |d.slots| &&
    (forall i :: 0 <= i < |cs| ==> cs[i].inode != NONE && IsName(cs[i].name) && cs[i].name != []) &&
    (forall i :: 0 <= i < |cs| ==> Lookup(d, cs[i].name) == NONE) &&
    forall i, j :: 0 <= i < j < |cs| ==> cs[i].name != cs[j].name
  }

  lemma DenseStep(d: Dir, cs: seq<Event>)
    requires AllNew(d, cs) && cs != [] && !Lost(d)
    ensures var e := Insert(d, cs[0].name, cs[0].inode);
            StepsTo(d, cs[0], e) && e.count == d.count + 1 && AllNew(e, cs[1..])
  {
    var c, e := cs[0], Insert(d, cs[0].name, cs[0].inode);
    InsertLookup(d, c.name, c.inode, c.name);
    forall i | 0 <= i < |cs[1..]| ensures Lookup(e, cs[1..][i].name) == NONE {
      InsertLookup(d, c.name, c.inode, cs[i + 1].name);
    }
  }

  /** A run of creations from `d` on, the last of which is not found. */
  ghost predicate LosesLast(d: Dir, ds: seq<Dir>, cs: seq<Event>) {
    cs != [] && IsRun(ds, cs) && ds[0] == d &&
    Examined(ds[|cs|].count) <= |ds[|cs|].slots| && Lookup(ds[|cs|], cs[|cs| - 1].name) == NONE
  }

  lemma LosesOne(d: Dir, c: Event)
    requires AllNew(d, [c]) && Lost(d)
    ensures LosesLast(d, [d, Insert(d, c.name, c.inode)], [c])
  {
    assert [c][0] == c;
    InsertLookup(d, c.name, c.inode, c.name);
  }

  /** One more step in front. */
  lemma LosesCons(d: Dir, c: Event, es: seq<Dir>, cs: seq<Event>)
    requires Ok(d) && es != [] && StepsTo(d, c, es[0]) && LosesLast(es[0], es, cs)
    ensures LosesLast(d, [d] + es, [c] + cs)
  {
    var ds, bs := [d] + es, [c] + cs;
    forall i | 0 <= i < |bs| ensures StepsTo(ds[i], bs[i], ds[i + 1]) {
      if 0 < i { assert StepsTo(es[i - 1], cs[i - 1], es[i]); }
    }
  }

  /** The last of n creations meets a full sector. */
  predicate UpToSectorEnd(count: nat, n: nat) {
    0 < count && 0 < n <= PER_SECT && count % PER_SECT == if n == 1 then 0 else PER_SECT + 1 - n
  }

  lemma OneNearer(count: nat, n: nat)
    requires UpToSectorEnd(count, n) && 1 < n
    ensures UpToSectorEnd(count + 1, n - 1) && count % PER_SECT != 0
  {
  }

  /** Creations of new names one after the other, up to the end of the sector: the last one is lost. */
  lemma {:induction false} LastIsLost(d: Dir, cs: seq<Event>) returns (ds: seq<Dir>)
    requires AllNew(d, cs) && UpToSectorEnd(d.count, |cs|)
    ensures LosesLast(d, ds, cs)
    decreases |cs|
  {
    var c, rest := cs[0], cs[1..];
    var e := Insert(d, c.name, c.inode);
    assert cs == [c] + rest;
    if |cs| == 1 {
      assert cs == [c];
      LosesOne(d, c);
      ds := [d, e];
    } else {
      OneNearer(d.count, |cs|);
      DenseStep(d, cs);
      var es := LastIsLost(e, rest);
      LosesCons(d, c, es, rest);
      ds := [d] + es;
    }
  }

  lemma MkfsIsDense()
    ensures Dense(MKFS_DIR) && |MKFS_DIR.slots| == 2048 * PER_SECT && MKFS_DIR.count == 5
  {
    var d := MKFS_DIR;
    forall i | 0 <= i < 5 ensures d.slots[i].inode != NONE {
      MkfsNames(i);
      assert d.slots[i] == MKFS_ENTRIES[i];
    }
    assert forall i :: 5 <= i < |d.slots| ==> d.slots[i] == UNUSED;
  }

  lemma NewNameIsNew(k: nat)
    requires k < 28 && Examined(5) <= |MKFS_DIR.slots|
    ensures Lookup(MKFS_DIR, NewName(k)) == NONE
  {
    var d := MKFS_DIR;
    forall j | 0 <= j < 5 ensures d.slots[j].name != NewName(k) {
      MkfsNames(j);
      assert d.slots[j] == MKFS_ENTRIES[j];
    }
    var j := Find(d.slots, NewName(k), 0, Examined(5));
  }

  /** Twenty-eight creations after mkfs: the last entry does not fit into the first sector of the
      directory, and is not found. */
  lemma FullSectorLosesEntry()
    ensures exists ds: seq<Dir>, cs: seq<Event> ::
              IsRun(ds, cs) && ds[0] == MKFS_DIR && |cs| == 28 && Examined(ds[28].count) <= |ds[28].slots| &&
              Lookup(ds[28], cs[27].name) == NONE
  {
    var cs := seq(28, k requires 0 <= k < 28 => Create(NewName(k), NUMBERS[k]));
    MkfsIsDense();
    forall i | 0 <= i < 28 ensures cs[i].inode != NONE && Lookup(MKFS_DIR, cs[i].name) == NONE {
      NumbersAreValid(i);
      NewNameIsNew(i);
    }
    forall i, j | 0 <= i < j < 28 ensures cs[i].name != cs[j].name {
      NewNamesDiffer(i, j);
    }
    var ds := LastIsLost(MKFS_DIR, cs);
  }

  // ---------------------------------------------------------------- the entry behind the last

  /** The lookup among the entries the directory has. */
  function ProperLookup(d: Dir, name: Name): Num
    requires d.count <= |d.slots|
  {
    var k := Find(d.slots, name, 0, d.count);
    if k < d.count then d.slots[k].inode else NONE
  }

  /** search_file gives the proper answer exactly when it does not look at one entry too many, finds the
      name before, or that entry does not carry the name or is unused. */
  lemma ExtraEntryIff(d: Dir, name: Name)
    requires d.count < |d.slots|
    ensures Lookup(d, name) == ProperLookup(d, name) <==>
            d.count % PER_SECT == 0 || Find(d.slots, name, 0, d.count) < d.count ||
            d.slots[d.count].name != name || d.slots[d.count].inode == NONE
  {
    var i, j := Find(d.slots, name, 0, d.count), Find(d.slots, name, 0, Examined(d.count));
    if i < d.count {
      assert i == j;
    }
  }

  /** In a directory with nothing beyond its size the answer is always the proper one. */
  lemma OkLooksProper(d: Dir, name: Name)
    requires Ok(d)
    ensures Lookup(d, name) == ProperLookup(d, name)
  {
    ExtraEntryIff(d, name);
  }

  /** How many entries before k are in use. */
  function Live(slots: seq<Entry>, k: nat): nat
    requires k <= |slots|
  {
    if k == 0 then 0 else Live(slots, k - 1) + if slots[k - 1].inode == NONE then 0 else 1
  }

  /** The directory part of do_unlink for the entry at k, which holds the file: the entry is cleared, and if
      it was the last one the size becomes the number of entries in use before it. */
  function Remove(d: Dir, k: nat): Dir
    requires k < d.count <= |d.slots|
  {
    Dir(d.slots[k := UNUSED], if k + 1 == d.count then Live(d.slots, k) else d.count)
  }

  lemma {:induction false} AllLive(slots: seq<Entry>, k: nat)
    requires k <= |slots| && forall i :: 0 <= i < k ==> slots[i].inode != NONE
    ensures Live(slots, k) == k
  {
    if k != 0 { AllLive(slots, k - 1); }
  }

  /** The directory of mkfs with three more entries. */
  function Three(a: Entry, b: Entry, c: Entry): (slots: seq<Entry>)
    ensures |slots| == 2048 * PER_SECT && slots[5] == a && slots[6] == b && slots[7] == c
    ensures forall i :: 0 <= i < 5 ==> slots[i] == MKFS_ENTRIES[i]
    ensures forall i :: 8 <= i < |slots| ==> slots[i] == UNUSED
  {
    MKFS_ENTRIES + [a, b, c] + seq(2048 * PER_SECT - 8, _ => UNUSED)
  }

  /** Three files created after mkfs, the first and then the last of them deleted: the size counts six entries,
      and the remaining file, in the seventh, is found only because one entry too many is looked at. */
  lemma ExtraEntryMatters()
    ensures var a, b, c := Entry(NUMBERS[0], NewName(0)), Entry(NUMBERS[1], NewName(1)), Entry(NUMBERS[2], NewName(2));
            var d := Remove(Remove(Dir(Three(a, b, c), 8), 5), 7);
            d.count == 6 && d.slots == Three(UNUSED, b, UNUSED) &&
            Lookup(d, NewName(1)) == NUMBERS[1] && ProperLookup(d, NewName(1)) == NONE
  {
    var a, b, c := Entry(NUMBERS[0], NewName(0)), Entry(NUMBERS[1], NewName(1)), Entry(NUMBERS[2], NewName(2));
    var s, t := Three(UNUSED, b, c), Three(UNUSED, b, UNUSED);
    assert Three(a, b, c)[5 := UNUSED] == s && s[7 := UNUSED] == t;
    SixAreLive(b, c);
    forall i | 0 <= i < 5 ensures t[i].name != NewName(1) {
      MkfsNames(i);
    }
    var i, j := Find(t, NewName(1), 0, 6), Find(t, NewName(1), 0, 7);
    assert i == 6 && j == 6;
    NumbersAreValid(1);
  }

  lemma SixAreLive(b: Entry, c: Entry)
    requires b.inode != NONE || b == Entry(NUMBERS[1], NewName(1))
    ensures Live(Three(UNUSED, b, c), 7) == 6
  {
    var s := Three(UNUSED, b, c);
    NumbersAreValid(1);
    forall i | 0 <= i < 5 ensures s[i].inode != NONE {
      MkfsNames(i);
    }
    AllLive(s, 5);
    assert Live(s, 6) == 5;
  }
}
