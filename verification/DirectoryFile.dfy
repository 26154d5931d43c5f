/** The directory file on disk: entries of 16 bytes, the loops of new_directory_entry (fs/open.c) and
    search_file (fs/misc.c) over the sectors that hold them. */
module DirectoryFile {
  import opened Bits
  import opened Device
  import opened Directory
  import opened Strings

  function EntryOf(s: seq<byte>): Entry
    requires |s| == ENTRY_SIZE
  {
    Entry(Num(Decode(s[0..4])), CString(s[4..], 0))
  }

  /** What is stored for an entry: the inode number, the name and its terminating 0. */
  function EntryBytes(inode: Num, name: Name): (t: seq<byte>)
    ensures |t| == 5 + |name| && t[..4] == Encode(inode.word) && t[4..4 + |name|] == name && t[4 + |name|] == 0
  {
    Encode(inode.word) + name + [0]
  }

  /** Which bytes of an entry hold what: the inode number in the first four, lowest byte first, then the name
      up to its first 0. */
  lemma EntryLayout(s: seq<byte>)
    requires |s| == ENTRY_SIZE
    ensures s[0..4] == Encode(EntryOf(s).inode.word) && EntryOf(s).name == CString(s[4..], 0)
  {
    EncodeDecode(s[0..4]);
  }

  /** An entry reads back as stored, whatever the unused bytes of its name hold. */
  lemma EntryRoundTrip(inode: Num, name: Name, rest: seq<byte>)
    requires IsName(name) && |name| + |rest| == 11
    ensures EntryOf(EntryBytes(inode, name) + rest) == Entry(inode, name)
  {
    var s := EntryBytes(inode, name) + rest;
    assert s[0..4] == Encode(inode.word);
    assert s[4..] == name + [0] + rest;
    DecodeEncode(inode.word);
    CStringOf(name, 0, rest);
  }

  /** The directory file of `n` sectors from `start` on. */
  function Slots(d: seq<byte>, start: nat, n: nat): (r: seq<Entry>)
    requires (start + n) * SECTOR_SIZE <= |d|
    ensures |r| == n * PER_SECT
    ensures forall k :: 0 <= k < |r| ==> r[k] == EntryAt(d, start, k)
  {
    seq(n * PER_SECT, k requires 0 <= k < n * PER_SECT => EntryAt(d, start, k))
  }

  function EntryAt(d: seq<byte>, start: nat, k: nat): Entry
    requires start * SECTOR_SIZE + k * ENTRY_SIZE + ENTRY_SIZE <= |d|
  {
    EntryOf(d[start * SECTOR_SIZE + k * ENTRY_SIZE..start * SECTOR_SIZE + k * ENTRY_SIZE + ENTRY_SIZE])
  }

  // ---------------------------------------------------------------- one sector at a time

  /** The j-th entry of the sector in a buffer. */
  function BufferEntry(buf: seq<byte>, j: nat): Entry
    requires (j + 1) * ENTRY_SIZE <= |buf|
  {
    EntryOf(buf[j * ENTRY_SIZE..j * ENTRY_SIZE + ENTRY_SIZE])
  }

  /** The buffer holds the 32 entries of `slots` from `base` on. */
  ghost predicate Holds(buf: seq<byte>, slots: seq<Entry>, base: nat) {
    SECTOR_SIZE <= |buf| && base + PER_SECT <= |slots| &&
    forall j :: 0 <= j < PER_SECT ==> BufferEntry(buf, j) == slots[base + j]
  }

  lemma BufferEntryAt(d: seq<byte>, buf: seq<byte>, start: nat, sect: nat, k: nat, j: nat)
    requires (sect + 1) * SECTOR_SIZE <= |d| && SECTOR_SIZE <= |buf| && j < PER_SECT
    requires buf[..SECTOR_SIZE] == Sectors(d, sect, 1)
    requires start * SECTOR_SIZE + k * ENTRY_SIZE == sect * SECTOR_SIZE + j * ENTRY_SIZE
    ensures BufferEntry(buf, j) == EntryAt(d, start, k)
  {
    SectorWindow(d, buf, sect, j * ENTRY_SIZE, ENTRY_SIZE);
  }

  lemma SectorHolds(d: seq<byte>, buf: seq<byte>, start: nat, n: nat, i: nat, sect: nat, base: nat)
    requires (start + n) * SECTOR_SIZE <= |d| && i < n && sect == start + i && base == i * PER_SECT
    requires SECTOR_SIZE <= |buf| && buf[..SECTOR_SIZE] == Sectors(d, sect, 1)
    ensures Holds(buf, Slots(d, start, n), base)
  {
    forall j | 0 <= j < PER_SECT ensures BufferEntry(buf, j) == Slots(d, start, n)[base + j] {
      BufferEntryAt(d, buf, start, sect, base + j, j);
    }
  }

  /** `slots` are the entries of the `n` sectors from `start` on of the image `d`. */
  ghost predicate Reads(d: seq<byte>, start: nat, n: nat, slots: seq<Entry>) {
    (start + n) * SECTOR_SIZE <= |d| && slots == Slots(d, start, n)
  }

  /** The buffer holds sector `sect` of the image `d`. */
  ghost predicate Buffered(dev: Disk, d: seq<byte>, sect: nat)
    reads dev.fsbuf
  {
    dev.Valid() && sect < dev.sectors && |d| == dev.sectors * SECTOR_SIZE &&
    dev.fsbuf[..SECTOR_SIZE] == Sectors(d, sect, 1)
  }

  /** RD_SECT of sector i of the directory. */
  method LoadSector(dev: Disk, start: nat, i: nat, ghost n: nat, ghost d: seq<byte>, ghost slots: seq<Entry>,
                    ghost base: nat)
    requires dev.Valid() && dev.bytes[..] == d && Reads(d, start, n, slots) && i < n && base == i * PER_SECT
    modifies dev.fsbuf
    ensures Holds(dev.fsbuf[..], slots, base) && Buffered(dev, d, start + i)
  {
    dev.RdSect(start + i);
    SectorHolds(d, dev.fsbuf[..], start, n, i, start + i, base);
  }

  // ---------------------------------------------------------------- new_directory_entry

  lemma {:induction false} HoleSkips(slots: seq<Entry>, i: nat, end: nat)
    requires i < end <= |slots| && slots[i].inode != NONE
    ensures Hole(slots, i, end) == Hole(slots, i + 1, end)
  {
  }

  /** What a look at the 32 entries from `base` on has found, with `left0` entries to go: the first unused one,
      or none and `left` entries still to go. */
  ghost predicate Seen(slots: seq<Entry>, base: nat, count: nat, left0: nat, dst: int, j: nat, left: nat) {
    base + left0 == count <= |slots| && -1 <= dst < PER_SECT && j <= PER_SECT && left <= left0 &&
    (dst == -1 ==> left == left0 - j && (left == 0 || j == PER_SECT) &&
                   Hole(slots, base, count) == Hole(slots, base + j, count)) &&
    (0 <= dst ==> base + dst < count && Hole(slots, base, count) == base + dst)
  }

  /** The inner loop: the entries of the sector in the buffer, while any of the `left0` entries remain. */
  method ScanSector(dev: Disk, left0: nat, ghost slots: seq<Entry>, ghost base: nat, ghost count: nat)
    returns (dst: int, j: nat, left: nat)
    requires Holds(dev.fsbuf[..], slots, base) && base + left0 == count <= |slots|
    ensures Seen(slots, base, count, left0, dst, j, left)
  {
    dst, j, left := -1, 0, left0;
    while j < PER_SECT && 0 < left
      invariant 0 <= j <= PER_SECT && left == left0 - j
      invariant Hole(slots, base, count) == Hole(slots, base + j, count)
    {
      if BufferEntry(dev.fsbuf[..], j).inode == NONE {
        dst := j;
        return;
      }
      HoleSkips(slots, base + j, count);
      j := j + 1;
      left := left - 1;
    }
  }

  /** Read sector i of the directory and look for an unused entry. */
  method ScanNext(dev: Disk, start: nat, i: nat, left0: nat, ghost n: nat, ghost d: seq<byte>, ghost slots: seq<Entry>,
                  ghost base: nat, ghost count: nat)
    returns (dst: int, j: nat, left: nat)
    requires dev.Valid() && dev.bytes[..] == d && Reads(d, start, n, slots) && i < n && base == i * PER_SECT
    requires base + left0 == count <= |slots|
    modifies dev.fsbuf
    ensures Buffered(dev, d, start + i) && Seen(slots, base, count, left0, dst, j, left)
  {
    LoadSector(dev, start, i, n, d, slots, base);
    dst, j, left := ScanSector(dev, left0, slots, base, count);
  }

  /** Sectors before the i-th hold no unused entry, and `left` entries are to go. */
  ghost predicate Going(slots: seq<Entry>, n: nat, count: nat, hole: nat, i: nat, left: nat) {
    i < n && i * PER_SECT + left == count < n * PER_SECT == |slots| && (0 < i ==> 0 < left) &&
    hole == Hole(slots, i * PER_SECT, count)
  }

  lemma GoesOn(slots: seq<Entry>, n: nat, count: nat, hole: nat, i: nat, base: nat, left0: nat, j: nat, left: nat)
    requires Going(slots, n, count, hole, i, left0) && base == i * PER_SECT
    requires Seen(slots, base, count, left0, -1, j, left) && left != 0
    ensures Going(slots, n, count, hole, i + 1, left)
  {
  }

  lemma Ends(slots: seq<Entry>, n: nat, count: nat, hole: nat, i: nat, base: nat, left0: nat, found: int, j: nat,
             left: nat, dst: nat, grows: bool)
    requires Going(slots, n, count, hole, i, left0) && base == i * PER_SECT
    requires Seen(slots, base, count, left0, found, j, left) && (found != -1 || left == 0)
    requires dst == (if found == -1 then j else found) && (grows <==> found == -1)
    ensures PlaceOk(n, count, hole, i, dst, grows)
  {
  }

  /** One turn of the outer loop: the place, or on to the next sector. */
  method ScanStep(dev: Disk, start: nat, i: nat, left0: nat, ghost n: nat, ghost count: nat, ghost d: seq<byte>,
                  ghost slots: seq<Entry>, ghost hole: nat)
    returns (done: bool, dst: nat, grows: bool, left: nat)
    requires dev.Valid() && dev.bytes[..] == d && Reads(d, start, n, slots) && Going(slots, n, count, hole, i, left0)
    modifies dev.fsbuf
    ensures done ==> PlaceOk(n, count, hole, i, dst, grows) && Buffered(dev, d, start + i)
    ensures !done ==> Going(slots, n, count, hole, i + 1, left)
  {
    ghost var base := i * PER_SECT;
    var found, j;
    found, j, left := ScanNext(dev, start, i, left0, n, d, slots, base, count);
    grows := found == -1;
    dst := if grows then j else found;
    done := found != -1 || left == 0;
    if done {
      Ends(slots, n, count, hole, i, base, left0, found, j, left, dst, grows);
    } else {
      GoesOn(slots, n, count, hole, i, base, left0, j, left);
    }
  }

  /** The outer loop: where the new entry goes, as a sector of the directory and an entry of that sector;
      entry 32 lies behind the sector. */
  method FindPlace(dev: Disk, start: nat, n: nat, count: nat, ghost d: seq<byte>, ghost slots: seq<Entry>,
                   ghost hole: nat)
    returns (i: nat, dst: nat, grows: bool)
    requires dev.Valid() && dev.bytes[..] == d && Reads(d, start, n, slots) && Going(slots, n, count, hole, 0, count)
    modifies dev.fsbuf
    ensures PlaceOk(n, count, hole, i, dst, grows) && Buffered(dev, d, start + i)
  {
    var left, done := count, false;
    i := 0;
    while true
      invariant Going(slots, n, count, hole, i, left)
      decreases n - i
    {
      done, dst, grows, left := ScanStep(dev, start, i, left, n, count, d, slots, hole);
      if done {
        return;
      }
      i := i + 1;
    }
  }

  /** Sector i and entry dst of it are the place of the first unused entry, or of one more entry at the end. */
  ghost predicate PlaceOk(n: nat, count: nat, hole: nat, i: nat, dst: nat, grows: bool) {
    i < n && dst <= PER_SECT && i * PER_SECT + dst == hole && (grows <==> hole == count) &&
    (grows && 0 < count ==> 0 < dst) && (dst == PER_SECT ==> grows)
  }

  /** Entry 32 of a sector is the place exactly when the entry is lost. */
  lemma PlaceIsLostIff(slots: seq<Entry>, n: nat, count: nat, i: nat, dst: nat, grows: bool)
    requires count <= |slots| && PlaceOk(n, count, Hole(slots, 0, count), i, dst, grows)
    ensures dst == PER_SECT <==> Lost(Dir(slots, count))
  {
  }

  /** From image `d` to image `e` entry `dst` of sector `sect` was stored, unless it lies behind the sector. */
  ghost predicate EntryStored(d: seq<byte>, e: seq<byte>, sect: nat, dst: nat, name: Name, inode: Num) {
    IsName(name) && (sect + 1) * SECTOR_SIZE <= |d| && dst <= PER_SECT &&
    e == if dst < PER_SECT then Splice(d, sect * SECTOR_SIZE + dst * ENTRY_SIZE, EntryBytes(inode, name)) else d
  }

  /** Fill in entry `dst` of the buffer and write its first 512 bytes to sector `sect`.  The entry behind
      the last one of the sector lies in the buffer, but not in those bytes. */
  method WriteEntry(dev: Disk, sect: nat, dst: nat, name: Name, inode: Num, ghost d: seq<byte>)
    requires dev.bytes[..] == d && Buffered(dev, d, sect)
    requires SECTOR_SIZE + ENTRY_SIZE <= dev.fsbuf.Length && dst <= PER_SECT && IsName(name)
    modifies dev.bytes, dev.fsbuf
    ensures EntryStored(d, dev.bytes[..], sect, dst, name, inode)
  {
    ghost var was := dev.fsbuf[..];
    var t, off := EntryBytes(inode, name), dst * ENTRY_SIZE;
    dev.Fill(off, t);
    ghost var buf := dev.fsbuf[..];
    dev.WrSect(sect);
    StoredEntry(d, dev.bytes[..], sect, dst, name, inode, was, buf);
  }

  lemma StoredEntry(d: seq<byte>, e: seq<byte>, sect: nat, dst: nat, name: Name, inode: Num, was: seq<byte>,
                    buf: seq<byte>)
    requires (sect + 1) * SECTOR_SIZE <= |d| && SECTOR_SIZE + ENTRY_SIZE <= |was| && dst <= PER_SECT && IsName(name)
    requires was[..SECTOR_SIZE] == Sectors(d, sect, 1) && buf == Splice(was, dst * ENTRY_SIZE, EntryBytes(inode, name))
    requires e == Splice(d, sect * SECTOR_SIZE, buf[..SECTOR_SIZE])
    ensures EntryStored(d, e, sect, dst, name, inode)
  {
    if dst < PER_SECT {
      SectorStore(d, sect, dst * ENTRY_SIZE, EntryBytes(inode, name), was, buf);
    } else {
      assert buf[..SECTOR_SIZE] == was[..SECTOR_SIZE];
      SpliceBack(d, sect * SECTOR_SIZE, buf[..SECTOR_SIZE]);
    }
  }

  lemma SameEntry(d: seq<byte>, e: seq<byte>, at: nat, t: seq<byte>, b: nat)
    requires at + |t| <= |d| && e == Splice(d, at, t) && |t| <= ENTRY_SIZE && b + ENTRY_SIZE <= |d|
    requires b + ENTRY_SIZE <= at || at + ENTRY_SIZE <= b
    ensures e[b..b + ENTRY_SIZE] == d[b..b + ENTRY_SIZE]
  {
  }

  lemma NewEntry(d: seq<byte>, e: seq<byte>, at: nat, inode: Num, name: Name)
    requires at + ENTRY_SIZE <= |d| && IsName(name) && e == Splice(d, at, EntryBytes(inode, name))
    ensures EntryOf(e[at..at + ENTRY_SIZE]) == Entry(inode, name)
  {
    var t := EntryBytes(inode, name);
    var rest := d[at + |t|..at + ENTRY_SIZE];
    assert e[at..at + ENTRY_SIZE] == t + rest;
    EntryRoundTrip(inode, name, rest);
  }

  lemma OnlyInside(d: seq<byte>, e: seq<byte>, start: nat, n: nat, off: nat, t: seq<byte>)
    requires (start + n) * SECTOR_SIZE <= |d| && off + |t| <= n * SECTOR_SIZE
    requires e == Splice(d, start * SECTOR_SIZE + off, t)
    ensures SameOutside(e, d, start, n)
  {
  }

  /** Storing an entry changes that entry and no other. */
  lemma StoreEntry(d: seq<byte>, e: seq<byte>, start: nat, n: nat, k: nat, inode: Num, name: Name)
    requires (start + n) * SECTOR_SIZE <= |d| && k < n * PER_SECT && IsName(name)
    requires e == Splice(d, start * SECTOR_SIZE + k * ENTRY_SIZE, EntryBytes(inode, name))
    ensures Slots(e, start, n) == Slots(d, start, n)[k := Entry(inode, name)]
    ensures SameOutside(e, d, start, n)
  {
    var at, t := start * SECTOR_SIZE + k * ENTRY_SIZE, EntryBytes(inode, name);
    OnlyInside(d, e, start, n, k * ENTRY_SIZE, t);
    NewEntry(d, e, at, inode, name);
    forall m | 0 <= m < n * PER_SECT && m != k ensures EntryAt(e, start, m) == EntryAt(d, start, m) {
      SameEntry(d, e, at, t, start * SECTOR_SIZE + m * ENTRY_SIZE);
    }
  }

  /** What a creation does to the directory file. */
  ghost predicate Inserted(d: seq<byte>, e: seq<byte>, start: nat, n: nat, count: nat, count': nat, name: Name,
                           inode: Num) {
    |e| == |d| && (start + n) * SECTOR_SIZE <= |d| && count < n * PER_SECT && SameOutside(e, d, start, n) &&
    Dir(Slots(e, start, n), count') == Insert(Dir(Slots(d, start, n), count), name, inode)
  }

  lemma PlaceIsInserted(d: seq<byte>, e: seq<byte>, start: nat, n: nat, count: nat, name: Name, inode: Num,
                        slots: seq<Entry>, hole: nat, i: nat, sect: nat, dst: nat, grows: bool, count': nat)
    requires Reads(d, start, n, slots) && count < |slots| == n * PER_SECT && sect == start + i
    requires hole == Hole(slots, 0, count) && PlaceOk(n, count, hole, i, dst, grows)
    requires EntryStored(d, e, sect, dst, name, inode)
    requires count' == if grows then count + 1 else count
    ensures Inserted(d, e, start, n, count, count', name, inode)
  {
    PlaceIsLostIff(slots, n, count, i, dst, grows);
    if dst < PER_SECT {
      var k := i * PER_SECT + dst;
      assert sect * SECTOR_SIZE + dst * ENTRY_SIZE == start * SECTOR_SIZE + k * ENTRY_SIZE;
      StoreEntry(d, e, start, n, k, inode, name);
    }
  }

  lemma StartGoing(slots: seq<Entry>, n: nat, count: nat)
    requires count < n * PER_SECT == |slots|
    ensures Going(slots, n, count, Hole(slots, 0, count), 0, count)
  {
  }

  /** Find the place of the new entry and store it there. */
  method PlaceEntry(dev: Disk, start: nat, n: nat, count: nat, name: Name, inode: Num, ghost d: seq<byte>,
                    ghost slots: seq<Entry>, ghost hole: nat)
    returns (ghost i: nat, ghost sect: nat, ghost dst: nat, grows: bool)
    requires dev.Valid() && dev.bytes[..] == d && Reads(d, start, n, slots) && Going(slots, n, count, hole, 0, count)
    requires SECTOR_SIZE + ENTRY_SIZE <= dev.fsbuf.Length && IsName(name)
    modifies dev.bytes, dev.fsbuf
    ensures PlaceOk(n, count, hole, i, dst, grows) && sect == start + i
    ensures EntryStored(d, dev.bytes[..], sect, dst, name, inode)
  {
    var k, entry;
    k, entry, grows := FindPlace(dev, start, n, count, d, slots, hole);
    i, sect, dst := k, start + k, entry;
    WriteEntry(dev, start + k, entry, name, inode, d);
  }

  /** new_directory_entry on the directory file of `n` sectors from `start` on. */
  method NewDirectoryEntry(dev: Disk, start: nat, n: nat, count: nat, name: Name, inode: Num) returns (count': nat)
    requires dev.Valid() && start + n <= dev.sectors && SECTOR_SIZE + ENTRY_SIZE <= dev.fsbuf.Length
    requires count < n * PER_SECT && IsName(name)
    modifies dev.bytes, dev.fsbuf
    ensures Inserted(old(dev.bytes[..]), dev.bytes[..], start, n, count, count', name, inode)
  {
    ghost var d := dev.bytes[..];
    ghost var slots := Slots(d, start, n);
    ghost var hole, i, sect, dst := Hole(slots, 0, count), 0, 0, 0;
    StartGoing(slots, n, count);
    var grows;
    i, sect, dst, grows := PlaceEntry(dev, start, n, count, name, inode, d, slots, hole);
    count' := if grows then count + 1 else count;
    PlaceIsInserted(d, dev.bytes[..], start, n, count, name, inode, slots, hole, i, sect, dst, grows, count');
  }

  // ---------------------------------------------------------------- search_file

  lemma {:induction false} FindSkips(slots: seq<Entry>, name: Name, i: nat, end: nat)
    requires i < end <= |slots| && slots[i].name != name
    ensures Find(slots, name, i, end) == Find(slots, name, i + 1, end)
  {
  }

  /** The inner loop: the entries of the sector in the buffer, up to one more than the directory has. */
  method SearchSector(dev: Disk, name: Name, m0: nat, count: nat, ghost slots: seq<Entry>, ghost end: nat)
    returns (found: bool, inode: Num, m: nat)
    requires Holds(dev.fsbuf[..], slots, m0) && m0 % PER_SECT == 0 && m0 < count && end == Examined(count) <= |slots|
    ensures found ==> Find(slots, name, m0, end) < end && inode == slots[Find(slots, name, m0, end)].inode
    ensures !found ==> m <= end && Find(slots, name, m0, end) == Find(slots, name, m, end)
    ensures !found ==> m == m0 + PER_SECT || m == count + 1
  {
    found, inode, m := false, NONE, m0;
    var j := 0;
    while j < PER_SECT
      invariant 0 <= j <= PER_SECT && m == m0 + j && m <= end && m <= count && !found
      invariant Find(slots, name, m0, end) == Find(slots, name, m, end)
    {
      assert m < end;
      var e := BufferEntry(dev.fsbuf[..], j);
      if e.name == name {
        return true, e.inode, m;
      }
      FindSkips(slots, name, m, end);
      m := m + 1;
      if m > count {
        return;
      }
      j := j + 1;
    }
  }

  /** Read sector i of the directory and search it. */
  method SearchNext(dev: Disk, start: nat, i: nat, name: Name, m0: nat, count: nat, ghost n: nat, ghost d: seq<byte>,
                    ghost slots: seq<Entry>, ghost end: nat)
    returns (found: bool, inode: Num, m: nat)
    requires dev.Valid() && dev.bytes[..] == d && Reads(d, start, n, slots) && i < n
    requires m0 == i * PER_SECT < count && end == Examined(count) <= |slots|
    modifies dev.fsbuf
    ensures found ==> Find(slots, name, m0, end) < end && inode == slots[Find(slots, name, m0, end)].inode
    ensures !found ==> m <= end && Find(slots, name, m0, end) == Find(slots, name, m, end)
    ensures !found ==> m == m0 + PER_SECT || m == count + 1
  {
    LoadSector(dev, start, i, n, d, slots, m0);
    found, inode, m := SearchSector(dev, name, m0, count, slots, end);
  }

  /** The sectors a directory of `count` entries takes. */
  lemma SectorsOf(count: nat, blocks: nat, i: nat)
    requires blocks == (count + PER_SECT - 1) / PER_SECT && i <= blocks
    ensures i < blocks ==> i * PER_SECT < count
    ensures i == blocks ==> count <= i * PER_SECT && (i * PER_SECT == count <==> count % PER_SECT == 0)
  {
  }

  /** The outer loop. */
  method SearchSectors(dev: Disk, start: nat, count: nat, name: Name, ghost n: nat, ghost d: seq<byte>,
                       ghost slots: seq<Entry>, ghost end: nat)
    returns (inode: Num)
    requires dev.Valid() && dev.bytes[..] == d && Reads(d, start, n, slots) && count < n * PER_SECT == |slots|
    requires end == Examined(count) <= |slots|
    modifies dev.fsbuf
    ensures inode == var k := Find(slots, name, 0, end); if k < end then slots[k].inode else NONE
  {
    var nrBlks, m, i, found := (count + PER_SECT - 1) / PER_SECT, 0, 0, false;
    while i < nrBlks
      invariant 0 <= i <= nrBlks && m == i * PER_SECT && m <= end
      invariant Find(slots, name, 0, end) == Find(slots, name, m, end)
    {
      SectorsOf(count, nrBlks, i);
      found, inode, m := SearchNext(dev, start, i, name, m, count, n, d, slots, end);
      if found {
        return;
      }
      if m > count {
        break;
      }
      i := i + 1;
    }
    SectorsOf(count, nrBlks, i);
    assert m == end;
    return NONE;
  }

  /** search_file, after the path has been stripped to `name`; the empty name is the directory itself,
      whose inode number is `root`. */
  method SearchFile(dev: Disk, start: nat, ghost n: nat, count: nat, root: Num, name: Name) returns (inode: Num)
    requires dev.Valid() && start + n <= dev.sectors && count < n * PER_SECT
    modifies dev.fsbuf
    ensures Examined(count) <= n * PER_SECT
    ensures inode == if name == [] then root else Lookup(Dir(Slots(dev.bytes[..], start, n), count), name)
  {
    if name == [] {
      return root;
    }
    ghost var d := dev.bytes[..];
    inode := SearchSectors(dev, start, count, name, n, d, Slots(d, start, n), Examined(count));
  }

  /** A creation followed by a search for it, on the disk: it is found exactly when the entry was not lost. */
  method CreateThenSearch(dev: Disk, start: nat, n: nat, count: nat, root: Num, name: Name, inode: Num)
    returns (found: Num)
    requires dev.Valid() && start + n <= dev.sectors && SECTOR_SIZE + ENTRY_SIZE <= dev.fsbuf.Length
    requires count + 1 < n * PER_SECT && IsName(name) && name != [] && inode != NONE
    requires Ok(Dir(Slots(dev.bytes[..], start, n), count)) && Examined(count) <= n * PER_SECT
    requires Lookup(Dir(Slots(dev.bytes[..], start, n), count), name) == NONE
    modifies dev.bytes, dev.fsbuf
    ensures found == inode <==> !Lost(Dir(Slots(old(dev.bytes[..]), start, n), count))
    ensures found != inode ==> found == NONE
  {
    ghost var d := Dir(Slots(dev.bytes[..], start, n), count);
    InsertLookup(d, name, inode, name);
    var count' := NewDirectoryEntry(dev, start, n, count, name, inode);
    found := SearchFile(dev, start, n, count', root, name);
  }
}
