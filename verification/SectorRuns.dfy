/** The sector map from mkfs on, over every run of file creations and deletions. */
module SectorRuns {
  import opened Bits
  import opened Device
  import opened SectorMap

  const FILE_SECTS := 2048

  // ---------------------------------------------------------------- set_smap

  /** The map mkfs writes: the reserved bit and the root directory, and the extent of cmd.tar. */
  predicate Initial(b: nat, cmd: nat) {
    b <= FILE_SECTS || cmd <= b < cmd + FILE_SECTS
  }

  lemma PokeBit(d: seq<byte>, x: nat, k: nat, b: nat)
    requires x < |d| && k < 8 && b < 8 * |d|
    ensures BitAt(d[x := d[x] | Mask(k)], b) <==> BitAt(d, b) || b == 8 * x + k
  {
    if b / 8 == x {
      SetBit(d[x], k, b % 8);
    }
  }

  /** `e` is `d` with the bits [lo, lo + n) set. */
  ghost predicate RunAdded(d: seq<byte>, e: seq<byte>, lo: nat, n: nat) {
    |e| == |d| && forall b :: 0 <= b < 8 * |d| ==> (BitAt(e, b) <==> BitAt(d, b) || lo <= b < lo + n)
  }

  lemma AddBit(d: seq<byte>, e: seq<byte>, lo: nat, n: nat, x: nat, k: nat)
    requires RunAdded(d, e, lo, n) && x < |e| && k < 8 && lo + n == 8 * x + k
    ensures RunAdded(d, e[x := e[x] | Mask(k)], lo, n + 1)
  {
    forall b | 0 <= b < 8 * |d|
      ensures BitAt(e[x := e[x] | Mask(k)], b) <==> BitAt(d, b) || lo <= b < lo + n + 1
    {
      PokeBit(e, x, k, b);
    }
  }

  /** Set bit `k` of byte `i` of the sector in the buffer and step to the next bit, reading on at the
      end of the sector. */
  method MarkOne(dev: Disk, sect: nat, i: nat, k: nat, ghost x: nat)
    returns (sect': nat, i': nat, k': nat, ghost x': nat)
    requires dev.Valid() && sect < dev.sectors && i < SECTOR_SIZE && k < 8 && x == sect * SECTOR_SIZE + i
    requires x + 1 < dev.bytes.Length
    modifies dev.bytes, dev.fsbuf
    ensures sect' < dev.sectors && i' < SECTOR_SIZE && k' < 8 && x' == sect' * SECTOR_SIZE + i'
    ensures 8 * x' + k' == 8 * x + k + 1
    ensures Overlay(dev, sect') == old(Overlay(dev, sect))[x := old(Overlay(dev, sect))[x] | Mask(k)]
  {
    assert dev.fsbuf[i] == Overlay(dev, sect)[x];
    Poke(dev, sect, i, dev.fsbuf[i] | Mask(k), x);
    sect', i', k', x' := sect, i, k + 1, x;
    if k' == 8 {
      k', x' := 0, x + 1;
      sect', i' := Carry(dev, sect, i + 1, x + 1);
    }
  }

  /** The bit loop of set_smap: mark `n` sectors from bit `bit` of byte `byteOff` of sector `sect0` on. */
  method MarkRun(dev: Disk, sect0: nat, byteOff: nat, bit: nat, n: nat, ghost lo: nat)
    requires dev.Valid() && byteOff < SECTOR_SIZE && bit < 8 && sect0 < dev.sectors
    requires lo == 8 * (sect0 * SECTOR_SIZE + byteOff) + bit && lo + n + 8 < 8 * dev.bytes.Length
    modifies dev.bytes, dev.fsbuf
    ensures RunAdded(old(dev.bytes[..]), dev.bytes[..], lo, n)
  {
    ghost var d := dev.bytes[..];
    dev.RdSect(sect0);
    SpliceBack(d, sect0 * SECTOR_SIZE, dev.fsbuf[..SECTOR_SIZE]);
    var sect: nat, i: nat, k: nat, left: nat := sect0, byteOff, bit, n;
    ghost var x: nat, done: nat := sect * SECTOR_SIZE + i, 0;
    while 0 < left
      invariant done + left == n && sect < dev.sectors && i < SECTOR_SIZE && k < 8 && x == sect * SECTOR_SIZE + i
      invariant lo + done == 8 * x + k
      invariant RunAdded(d, Overlay(dev, sect), lo, done)
    {
      ghost var e := Overlay(dev, sect);
      AddBit(d, e, lo, done, x, k);
      ghost var f := e[x := e[x] | Mask(k)];
      sect, i, k, x := MarkOne(dev, sect, i, k, x);
      assert Overlay(dev, sect) == f;
      left := left - 1;
      done := done + 1;
    }
    dev.WrSect(sect);
  }

  /** Byte x of the sector the map starts with. */
  function HeadByte(x: nat): byte {
    if x < FILE_SECTS / 8 then 0xFF else if x == FILE_SECTS / 8 then 0x01 else 0
  }

  /** The sector the map starts with: bits 0 to 2048 set. */
  method FillHead(dev: Disk)
    requires dev.Valid()
    modifies dev.fsbuf
    ensures forall x :: 0 <= x < SECTOR_SIZE ==> dev.fsbuf[x] == HeadByte(x)
  {
    for i := 0 to SECTOR_SIZE
      invariant forall x :: 0 <= x < i ==> dev.fsbuf[x] == 0
    {
      dev.fsbuf[i] := 0;
    }
    for i := 0 to (FILE_SECTS + 1) / 8
      invariant forall x :: 0 <= x < SECTOR_SIZE ==> dev.fsbuf[x] == if x < i then 0xFF else 0
    {
      dev.fsbuf[i] := 0xFF;
    }
    for i := 0 to (FILE_SECTS + 1) % 8
      invariant dev.fsbuf[FILE_SECTS / 8] == if i == 0 then 0 else 0x01
      invariant forall x :: 0 <= x < SECTOR_SIZE && x != FILE_SECTS / 8 ==>
                  dev.fsbuf[x] == if x < FILE_SECTS / 8 then 0xFF else 0
    {
      dev.fsbuf[(FILE_SECTS + 1) / 8] := dev.fsbuf[(FILE_SECTS + 1) / 8] | Mask(i);
    }
  }

  /** `e` is `d` with the map of `count` sectors from `smap0` on replaced by zeros and its head. */
  ghost predicate Formatted(d: seq<byte>, e: seq<byte>, smap0: nat, count: nat) {
    var base := smap0 * SECTOR_SIZE * 8;
    (smap0 + count) * SECTOR_SIZE <= |d| && SameOutside(e, d, smap0, count) &&
    forall b :: base <= b < base + count * SECTOR_SIZE * 8 ==> (BitAt(e, b) <==> b <= base + FILE_SECTS)
  }

  lemma HeadFormatted(d: seq<byte>, buf: seq<byte>, smap0: nat)
    requires (smap0 + 1) * SECTOR_SIZE <= |d| && |buf| == SECTOR_SIZE
    requires forall x :: 0 <= x < SECTOR_SIZE ==> buf[x] == HeadByte(x)
    ensures Formatted(d, Splice(d, smap0 * SECTOR_SIZE, buf), smap0, 1)
  {
  }

  lemma ZeroFormatted(d: seq<byte>, e: seq<byte>, buf: seq<byte>, smap0: nat, i: nat, s: nat)
    requires Formatted(d, e, smap0, i) && 0 < i && s == smap0 + i && (s + 1) * SECTOR_SIZE <= |d|
    requires |buf| == SECTOR_SIZE
    requires forall x :: 0 <= x < SECTOR_SIZE ==> buf[x] == 0
    ensures Formatted(d, Splice(e, s * SECTOR_SIZE, buf), smap0, i + 1)
  {
    var f, base, mid := Splice(e, s * SECTOR_SIZE, buf), smap0 * SECTOR_SIZE * 8, s * SECTOR_SIZE * 8;
    forall b | base <= b < base + (i + 1) * SECTOR_SIZE * 8 ensures BitAt(f, b) <==> b <= base + FILE_SECTS {
      if b < mid {
        assert f[b / 8] == e[b / 8] && BitAt(f, b) == BitAt(e, b);
      } else {
        assert f[b / 8] == 0;
      }
    }
  }

  /** set_smap: afterwards exactly the reserved bit, the root directory and cmd.tar are marked. */
  method SetSmap(dev: Disk, smap0: nat, count: nat, n1st: nat, install: nat)
    requires dev.Valid() && 0 < count && smap0 + count < dev.sectors && n1st <= install + 1
    requires install + 1 - n1st + FILE_SECTS <= count * SECTOR_SIZE * 8
    modifies dev.bytes, dev.fsbuf
    ensures MarksInitial(old(dev.bytes[..]), dev.bytes[..], smap0, count, install + 1 - n1st)
  {
    ghost var d := dev.bytes[..];
    FillHead(dev);
    HeadFormatted(d, dev.fsbuf[..SECTOR_SIZE], smap0);
    dev.WrSect(smap0);
    for i := 0 to SECTOR_SIZE
      invariant forall x :: 0 <= x < i ==> dev.fsbuf[x] == 0
      invariant Formatted(d, dev.bytes[..], smap0, 1)
    {
      dev.fsbuf[i] := 0;
    }
    for i := 1 to count
      invariant forall x :: 0 <= x < SECTOR_SIZE ==> dev.fsbuf[x] == 0
      invariant Formatted(d, dev.bytes[..], smap0, i)
    {
      var s := smap0 + i;
      ZeroFormatted(d, dev.bytes[..], dev.fsbuf[..SECTOR_SIZE], smap0, i, s);
      dev.WrSect(s);
    }
    ghost var e := dev.bytes[..];
    var bitOff := install - n1st + 1;
    var sectBeg, byteOff := bitOff / 8 / SECTOR_SIZE, bitOff / 8 % SECTOR_SIZE;
    ghost var lo := smap0 * SECTOR_SIZE * 8 + bitOff;
    CmdPlace(smap0, bitOff);
    MarkRun(dev, smap0 + sectBeg, byteOff, bitOff % 8, FILE_SECTS, lo);
    MarkedInitial(d, e, dev.bytes[..], smap0, count, bitOff, lo);
  }

  ghost predicate MarksInitial(d: seq<byte>, e: seq<byte>, smap0: nat, count: nat, cmd: nat) {
    var base := smap0 * SECTOR_SIZE * 8;
    (smap0 + count) * SECTOR_SIZE <= |d| && SameOutside(e, d, smap0, count) &&
    forall b :: base <= b < base + count * SECTOR_SIZE * 8 ==> (BitAt(e, b) <==> Initial(b - base, cmd))
  }

  lemma CmdPlace(smap0: nat, bitOff: nat)
    ensures smap0 * SECTOR_SIZE * 8 + bitOff
         == 8 * ((smap0 + bitOff / 8 / SECTOR_SIZE) * SECTOR_SIZE + bitOff / 8 % SECTOR_SIZE) + bitOff % 8
  {
  }

  lemma MarkedInitial(d: seq<byte>, e: seq<byte>, f: seq<byte>, smap0: nat, count: nat, cmd: nat, lo: nat)
    requires Formatted(d, e, smap0, count) && RunAdded(e, f, lo, FILE_SECTS)
    requires lo == smap0 * SECTOR_SIZE * 8 + cmd && cmd + FILE_SECTS <= count * SECTOR_SIZE * 8
    ensures MarksInitial(d, f, smap0, count, cmd)
  {
    forall x | 0 <= x < |d| && !(smap0 * SECTOR_SIZE <= x < (smap0 + count) * SECTOR_SIZE) ensures f[x] == d[x] {
      forall j | 0 <= j < 8 ensures Bit(f[x], j) == Bit(e[x], j) {
        var b := 8 * x + j;
        assert b / 8 == x && b % 8 == j;
        assert BitAt(f, b) <==> BitAt(e, b);
      }
      SameByte(e[x], f[x]);
    }
  }

  lemma SameByte(b: byte, c: byte)
    requires forall j :: 0 <= j < 8 ==> Bit(c, j) == Bit(b, j)
    ensures b == c
  {
    assert Bit(b, 0) == Bit(c, 0) && Bit(b, 1) == Bit(c, 1) && Bit(b, 2) == Bit(c, 2) && Bit(b, 3) == Bit(c, 3);
    assert Bit(b, 4) == Bit(c, 4) && Bit(b, 5) == Bit(c, 5) && Bit(b, 6) == Bit(c, 6) && Bit(b, 7) == Bit(c, 7);
  }

  // ---------------------------------------------------------------- runs of creations and deletions

  /** The inode number mkfs gives to cmd.tar. */
  const TAR := 5

  /** The bits of the map and the live files: the bit each file's extent of 2048 sectors starts at, by
      inode number.  `cmd` is the bit cmd.tar was put at; `tar` says that it has not been deleted. */
  datatype State = State(bits: seq<bool>, live: map<nat, nat>, cmd: nat, tar: bool)

  ghost predicate Owned(s: State, b: nat) {
    exists f :: f in s.live && s.live[f] <= b < s.live[f] + FILE_SECTS
  }

  predicate IsTar(s: State, f: nat) {
    s.tar && f == TAR
  }

  /** Created files lie below cmd.tar while it is there. */
  function Limit(s: State): nat {
    if s.tar then s.cmd else |s.bits|
  }

  /** A block of the data area below the limit. */
  predicate BlockStart(s: State, p: nat) {
    p % FILE_SECTS == 1 && FILE_SECTS < p && p + FILE_SECTS <= Limit(s)
  }

  /** Every live extent is a block of its own, or that of cmd.tar, and the set bits are exactly the
      reserved bit, the root directory and the live extents. */
  ghost predicate Inv(s: State) {
    FILE_SECTS < s.cmd && s.cmd + FILE_SECTS <= |s.bits| &&
    (s.tar ==> TAR in s.live && s.live[TAR] == s.cmd) &&
    (forall f :: f in s.live && !IsTar(s, f) ==> BlockStart(s, s.live[f])) &&
    (forall f, g :: f in s.live && g in s.live && f != g ==> s.live[f] != s.live[g]) &&
    (forall b :: 0 <= b < |s.bits| ==> (s.bits[b] <==> b <= FILE_SECTS || Owned(s, b)))
  }

  ghost predicate FreeBlock(s: State, p: nat) {
    BlockStart(s, p) && p + FILE_SECTS <= |s.bits| && forall b :: p <= b < p + FILE_SECTS ==> !s.bits[b]
  }

  ghost predicate HasFreeBlock(s: State) {
    exists p: nat :: FreeBlock(s, p)
  }

  /** create_file's part: alloc_smap_bit fills the first 2048 clear bits. */
  function Create(s: State, f: nat): State {
    s.(bits := FillFirst(s.bits, FILE_SECTS), live := s.live[f := FirstZero(s.bits)])
  }

  /** do_unlink's part: the extent of `f` is cleared. */
  function Unlink(s: State, f: nat): State
    requires f in s.live && s.live[f] + FILE_SECTS <= |s.bits|
  {
    State(ClearRange(s.bits, s.live[f], FILE_SECTS), s.live - {f}, s.cmd, s.tar && f != TAR)
  }

  lemma SameBlock(p: nat, q: nat, b: nat)
    requires p % FILE_SECTS == 1 && q % FILE_SECTS == 1 && p <= b < p + FILE_SECTS && q <= b < q + FILE_SECTS
    ensures p == q
  {
  }

  /** Distinct live extents, that of cmd.tar included, do not overlap, and avoid the root directory. */
  lemma ExtentsDisjoint(s: State, f: nat, g: nat, b: nat)
    requires Inv(s) && f in s.live && g in s.live
    requires s.live[f] <= b < s.live[f] + FILE_SECTS
    ensures FILE_SECTS < b < |s.bits|
    ensures s.live[g] <= b < s.live[g] + FILE_SECTS ==> f == g
  {
    if s.live[g] <= b < s.live[g] + FILE_SECTS && !IsTar(s, f) && !IsTar(s, g) {
      SameBlock(s.live[f], s.live[g], b);
    }
  }

  /** The block of the data area that holds bit `b`. */
  function BlockOf(b: nat): (p: nat)
    requires 0 < b
    ensures p % FILE_SECTS == 1 && p <= b < p + FILE_SECTS
  {
    (b - 1) / FILE_SECTS * FILE_SECTS + 1
  }

  /** Below the limit the map is uniform on every block. */
  lemma Uniform(s: State, p: nat, b: nat, c: nat)
    requires Inv(s) && BlockStart(s, p) && p <= b < p + FILE_SECTS && p <= c < p + FILE_SECTS
    ensures s.bits[b] == s.bits[c]
  {
    if s.bits[b] { UniformOneWay(s, p, b, c); }
    if s.bits[c] { UniformOneWay(s, p, c, b); }
  }

  lemma UniformOneWay(s: State, p: nat, b: nat, c: nat)
    requires Inv(s) && BlockStart(s, p) && p <= b < p + FILE_SECTS && p <= c < p + FILE_SECTS && s.bits[b]
    ensures s.bits[c]
  {
    assert Owned(s, b);
    var f :| f in s.live && s.live[f] <= b < s.live[f] + FILE_SECTS;
    SameBlock(s.live[f], p, b);
    assert Owned(s, c);
  }

  /** A clear bit whose block ends below the limit lies in a free block. */
  lemma ClearBlock(s: State, b: nat)
    requires Inv(s) && 0 < b < |s.bits| && !s.bits[b] && BlockOf(b) + FILE_SECTS <= Limit(s)
    ensures FreeBlock(s, BlockOf(b))
  {
    var r := BlockOf(b);
    assert BlockStart(s, r);
    forall c | r <= c < r + FILE_SECTS ensures !s.bits[c] {
      Uniform(s, r, c, b);
    }
  }

  /** While a whole free block remains below the limit, the first clear bit starts one. */
  lemma FirstClearStartsBlock(s: State)
    requires Inv(s) && HasFreeBlock(s)
    ensures FreeBlock(s, FirstZero(s.bits))
  {
    var q: nat :| FreeBlock(s, q);
    var p := FirstZero(s.bits);
    assert !s.bits[q];
    assert p <= q;
    assert s.bits[0];
    BlockBefore(BlockOf(p), q, p);
    ClearBlock(s, p);
    assert !s.bits[BlockOf(p)];
  }

  lemma BlockBefore(r: nat, q: nat, p: nat)
    requires r % FILE_SECTS == 1 && q % FILE_SECTS == 1 && r <= p < r + FILE_SECTS && p <= q
    ensures r <= q
  {
  }

  /** A creation takes a whole free block, and keeps the invariant. */
  lemma CreateKeepsInv(s: State, f: nat)
    requires Inv(s) && HasFreeBlock(s) && f !in s.live
    ensures FreeBlock(s, FirstZero(s.bits)) && Create(s, f).live[f] == FirstZero(s.bits)
    ensures Create(s, f).bits == SetRange(s.bits, FirstZero(s.bits), FILE_SECTS)
    ensures Inv(Create(s, f))
  {
    var p, t := FirstZero(s.bits), Create(s, f);
    FirstClearStartsBlock(s);
    FillBlock(s.bits, p, FILE_SECTS);
    forall g | g in s.live ensures s.live[g] != p {
      assert Owned(s, s.live[g]);
      assert s.bits[s.live[g]];
    }
    forall b | 0 <= b < |t.bits| ensures t.bits[b] <==> b <= FILE_SECTS || Owned(t, b) {
      CreateOwns(s, f, t, b);
    }
  }

  lemma CreateOwns(s: State, f: nat, t: State, b: nat)
    requires f !in s.live && f in t.live && t.live == s.live[f := t.live[f]]
    ensures Owned(t, b) <==> Owned(s, b) || t.live[f] <= b < t.live[f] + FILE_SECTS
  {
    if Owned(s, b) {
      var g :| g in s.live && s.live[g] <= b < s.live[g] + FILE_SECTS;
      assert t.live[g] == s.live[g];
    }
  }

  /** A deletion, of cmd.tar or of a created file, keeps the invariant. */
  lemma UnlinkKeepsInv(s: State, f: nat)
    requires Inv(s) && f in s.live
    ensures s.live[f] + FILE_SECTS <= |s.bits| && Inv(Unlink(s, f))
  {
    var t := Unlink(s, f);
    forall b | 0 <= b < |t.bits| ensures t.bits[b] <==> b <= FILE_SECTS || Owned(t, b) {
      UnlinkOwns(s, f, t, b);
    }
  }

  lemma UnlinkOwns(s: State, f: nat, t: State, b: nat)
    requires Inv(s) && f in s.live && t.live == s.live - {f}
    ensures Owned(t, b) <==> Owned(s, b) && !(s.live[f] <= b < s.live[f] + FILE_SECTS)
    ensures s.live[f] <= b < s.live[f] + FILE_SECTS ==> FILE_SECTS < b
  {
    if s.live[f] <= b < s.live[f] + FILE_SECTS {
      forall g | g in t.live ensures !(t.live[g] <= b < t.live[g] + FILE_SECTS) {
        ExtentsDisjoint(s, f, g, b);
      }
    }
    if Owned(s, b) && !(s.live[f] <= b < s.live[f] + FILE_SECTS) {
      var g :| g in s.live && s.live[g] <= b < s.live[g] + FILE_SECTS;
      assert g in t.live && t.live[g] == s.live[g];
    }
  }

  /** Creating a file and deleting it again leaves the map as it was. */
  lemma CreateThenUnlink(s: State, f: nat)
    requires Inv(s) && HasFreeBlock(s) && f !in s.live
    ensures var t := Create(s, f);
            t.live[f] + FILE_SECTS <= |t.bits| && Unlink(t, f) == s
  {
    CreateKeepsInv(s, f);
    var t := Create(s, f);
    assert Unlink(t, f).bits == s.bits;
    assert Unlink(t, f).live == s.live;
  }

  // ---------------------------------------------------------------- when a creation gets one run

  /** Behind cmd.tar nothing is in use. */
  lemma BehindTarIsClear(s: State, b: nat)
    requires Inv(s) && s.tar && s.cmd + FILE_SECTS <= b < |s.bits|
    ensures !s.bits[b]
  {
    assert !Owned(s, b);
  }

  /** Clear bits can only lie behind the first one. */
  lemma ZerosBound(bits: seq<bool>)
    ensures Zeros(bits) <= |bits| - FirstZero(bits)
  {
    var p := FirstZero(bits);
    var front, rest := bits[..p], bits[p..];
    assert bits == front + rest;
    ZerosAppend(front, rest);
    assert Zeros(front) == 0 by {
      ZerosOfFull(front);
    }
    ZerosAtMost(rest);
  }

  lemma {:induction false} ZerosAtMost(bits: seq<bool>)
    ensures Zeros(bits) <= |bits|
  {
    if bits != [] { ZerosAtMost(bits[1..]); }
  }

  /** Without cmd.tar a map with 2048 clear bits has a whole free block. */
  lemma RoomWithoutTar(s: State)
    requires Inv(s) && !s.tar && FILE_SECTS <= Zeros(s.bits)
    ensures HasFreeBlock(s)
  {
    ZerosBound(s.bits);
    assert s.bits[0];
    ClearBlock(s, FirstZero(s.bits));
  }

  /** With cmd.tar on a block boundary and no free block below it, the first clear bit is behind it. */
  lemma FirstClearBehindTar(s: State)
    requires Inv(s) && s.tar && (s.cmd - 1) % FILE_SECTS == 0 && !HasFreeBlock(s) && 0 < Zeros(s.bits)
    ensures s.cmd + FILE_SECTS <= FirstZero(s.bits) < |s.bits|
  {
    var p := FirstZero(s.bits);
    ZerosOfFull(s.bits);
    assert s.bits[0];
    if p < s.cmd {
      BlockNotAfter(BlockOf(p), s.cmd, p);
      ClearBlock(s, p);
      assert HasFreeBlock(s);
    } else {
      TarIsSet(s, p);
    }
  }

  lemma TarIsSet(s: State, b: nat)
    requires Inv(s) && s.tar
    ensures s.cmd <= b < s.cmd + FILE_SECTS ==> s.bits[b]
  {
    assert s.cmd <= b < s.cmd + FILE_SECTS ==> Owned(s, b);
  }

  /** A creation that succeeds gets one run of sectors exactly when a whole free block remains below
      cmd.tar, or cmd.tar itself starts on a block boundary; otherwise its sectors straddle cmd.tar. */
  lemma CreateIsRunIff(s: State)
    requires Inv(s) && FILE_SECTS <= Zeros(s.bits)
    ensures FillsOneRun(s.bits, FILE_SECTS) <==> HasFreeBlock(s) || (s.cmd - 1) % FILE_SECTS == 0
  {
    FillIsRun(s.bits, FILE_SECTS);
    if HasFreeBlock(s) {
      FirstClearStartsBlock(s);
    } else if !s.tar {
      RoomWithoutTar(s);
    } else if (s.cmd - 1) % FILE_SECTS == 0 {
      FirstClearBehindTar(s);
      ZerosBound(s.bits);
      forall b | FirstZero(s.bits) <= b < |s.bits| ensures !s.bits[b] {
        BehindTarIsClear(s, b);
      }
    } else {
      SplitByTar(s);
    }
  }

  lemma SplitByTar(s: State)
    requires Inv(s) && s.tar && (s.cmd - 1) % FILE_SECTS != 0 && !HasFreeBlock(s) && 0 < Zeros(s.bits)
    ensures var p := FirstZero(s.bits); p < s.cmd < p + FILE_SECTS && s.bits[s.cmd]
  {
    var p, tail := FirstZero(s.bits), BlockOf(s.cmd);
    TailIsClear(s, tail);
    assert s.bits[0];
    if p < tail {
      BlockNotAfter(BlockOf(p), tail, p);
      ClearBlock(s, p);
    }
    assert Owned(s, s.cmd);
  }

  lemma BlockNotAfter(r: nat, q: nat, p: nat)
    requires r % FILE_SECTS == 1 && q % FILE_SECTS == 1 && r <= p < r + FILE_SECTS && p < q
    ensures r + FILE_SECTS <= q
  {
  }

  /** The bits between the last whole block and cmd.tar belong to nobody. */
  lemma TailIsClear(s: State, tail: nat)
    requires Inv(s) && s.tar && tail == BlockOf(s.cmd) && tail != s.cmd
    ensures FILE_SECTS < tail < s.cmd && !s.bits[tail]
  {
    if Owned(s, tail) {
      var f :| f in s.live && s.live[f] <= tail < s.live[f] + FILE_SECTS;
      SameBlock(s.live[f], tail, tail);
    }
  }

  // ---------------------------------------------------------------- whole runs

  datatype Event = CreateFile(f: nat) | UnlinkFile(f: nat)

  ghost predicate StepsTo(s: State, e: Event, t: State) {
    match e
    case CreateFile(f) => f !in s.live && HasFreeBlock(s) && t == Create(s, f)
    case UnlinkFile(f) => f in s.live && s.live[f] + FILE_SECTS <= |s.bits| && t == Unlink(s, f)
  }

  /** The map as mkfs leaves it: cmd.tar is the only file. */
  ghost predicate Fresh(s: State) {
    FILE_SECTS < s.cmd && s.cmd + FILE_SECTS <= |s.bits| && s.tar && s.live == map[TAR := s.cmd] &&
    forall b :: 0 <= b < |s.bits| ==> (s.bits[b] <==> Initial(b, s.cmd))
  }

  ghost predicate IsRun(ss: seq<State>, es: seq<Event>) {
    |ss| == |es| + 1 && Fresh(ss[0]) && forall i :: 0 <= i < |es| ==> StepsTo(ss[i], es[i], ss[i + 1])
  }

  lemma FreshInv(s: State)
    requires Fresh(s)
    ensures Inv(s)
  {
    assert forall b: nat :: Owned(s, b) <==> s.live[TAR] <= b < s.live[TAR] + FILE_SECTS;
  }

  /** From mkfs on, over every run of creations (each with a whole free block left below cmd.tar, if that
      is there) and deletions, of cmd.tar too: live extents are disjoint, and the set bits are exactly
      what is in use. */
  lemma {:induction false} RunsKeepInv(ss: seq<State>, es: seq<Event>, n: nat)
    requires IsRun(ss, es) && n <= |es|
    ensures Inv(ss[n])
    decreases n
  {
    if n == 0 {
      FreshInv(ss[0]);
    } else {
      RunsKeepInv(ss, es, n - 1);
      assert StepsTo(ss[n - 1], es[n - 1], ss[n]);
      match es[n - 1]
      case CreateFile(f) => CreateKeepsInv(ss[n - 1], f);
      case UnlinkFile(f) => UnlinkKeepsInv(ss[n - 1], f);
    }
  }

  /** Creations go on until no whole free block is left. */
  lemma {:induction false} Exhaust(ss: seq<State>, es: seq<Event>) returns (ss': seq<State>, es': seq<Event>)
    requires IsRun(ss, es) && forall f <- ss[|es|].live :: f <= TAR + |es|
    ensures IsRun(ss', es') && ss'[0] == ss[0] && !HasFreeBlock(ss'[|es'|])
    ensures var s, t := ss[|es|], ss'[|es'|]; t.tar == s.tar && t.cmd == s.cmd && |t.bits| == |s.bits|
    decreases Zeros(ss[|es|].bits)
  {
    var s, f := ss[|es|], TAR + |es| + 1;
    if !HasFreeBlock(s) { return ss, es; }
    RunsKeepInv(ss, es, |es|);
    CreateKeepsInv(s, f);
    FillSpends(s.bits, FILE_SECTS);
    var t, e := Create(s, f), CreateFile(f);
    var ts, fs := ss + [t], es + [e];
    forall i | 0 <= i < |fs| ensures StepsTo(ts[i], fs[i], ts[i + 1]) {
      if i < |es| { assert StepsTo(ss[i], es[i], ss[i + 1]); }
    }
    ss', es' := Exhaust(ts, fs);
  }

  lemma {:induction false} FillSpends(bits: seq<bool>, n: nat)
    requires 0 < n && FirstZero(bits) < |bits|
    ensures Zeros(FillFirst(bits, n)) < Zeros(bits)
  {
    if bits[0] {
      FillSpends(bits[1..], n);
    } else {
      FillAtMost(bits[1..], n - 1);
    }
    assert FillFirst(bits, n)[1..] == FillFirst(bits[1..], if bits[0] then n else n - 1);
  }

  lemma {:induction false} FillAtMost(bits: seq<bool>, n: nat)
    ensures Zeros(FillFirst(bits, n)) <= Zeros(bits)
  {
    if bits != [] && n != 0 {
      FillAtMost(bits[1..], if bits[0] then n else n - 1);
      assert FillFirst(bits, n)[1..] == FillFirst(bits[1..], if bits[0] then n else n - 1);
    }
  }

  /** A partition of 14 map sectors: once the blocks below cmd.tar are taken, alloc_smap_bit still finds
      2048 clear bits, and hands out sectors on both sides of cmd.tar as if they were one run. */
  lemma CreationMaySplit()
    ensures exists ss: seq<State>, es: seq<Event> ::
              IsRun(ss, es) && ss[|es|].cmd == TarBit(53248) && |ss[|es|].bits| == SmapSects(53248) * SECTOR_SIZE * 8 &&
              FILE_SECTS <= Zeros(ss[|es|].bits) && !FillsOneRun(ss[|es|].bits, FILE_SECTS)
  {
    var cmd := TarBit(53248);
    var s := State(seq(57344, b requires 0 <= b => Initial(b, cmd)), map[TAR := cmd], cmd, true);
    assert Fresh(s);
    var ss, es := Exhaust([s], []);
    RunsKeepInv(ss, es, |es|);
    var t := ss[|es|];
    RoomBehindTar(t);
    CreateIsRunIff(t);
    assert IsRun(ss, es);
  }

  lemma RoomBehindTar(s: State)
    requires Inv(s) && s.tar
    ensures |s.bits| - (s.cmd + FILE_SECTS) <= Zeros(s.bits)
  {
    var k := s.cmd + FILE_SECTS;
    forall b | 0 <= b < |s.bits[k..]| ensures !s.bits[k..][b] {
      BehindTarIsClear(s, k + b);
    }
    assert s.bits == s.bits[..k] + s.bits[k..];
    ZerosAppend(s.bits[..k], s.bits[k..]);
    ZerosOfClear(s.bits[k..]);
  }

  // ---------------------------------------------------------------- the superblock

  /** nr_smap_sects of a partition of `nrSects` sectors. */
  function SmapSects(nrSects: nat): nat {
    nrSects / (SECTOR_SIZE * 8) + 1
  }

  /** n_1st_sect: behind the boot sector, the superblock, the inode map, the sector map and 4096 inodes. */
  function FirstDataSect(nrSects: nat): nat {
    1 + 1 + 1 + SmapSects(nrSects) + 4096 * 32 / SECTOR_SIZE
  }

  const INSTALL_START := 0x8000

  /** cmd.tar lies on the partition, behind the root directory. */
  predicate TarFits(nrSects: nat) {
    INSTALL_START + FILE_SECTS <= nrSects && FirstDataSect(nrSects) + FILE_SECTS <= INSTALL_START
  }

  /** The bit cmd.tar starts at. */
  function TarBit(nrSects: nat): int {
    INSTALL_START - FirstDataSect(nrSects) + 1
  }

  lemma TarPlace(nrSects: nat)
    requires TarFits(nrSects)
    ensures FILE_SECTS < TarBit(nrSects) && TarBit(nrSects) + FILE_SECTS < SmapSects(nrSects) * SECTOR_SIZE * 8
    ensures TarBit(nrSects) % 8 == 0 <==> SmapSects(nrSects) % 8 == 6
  {
  }

  // ---------------------------------------------------------------- the end of the partition

  /** `s` is a map of a partition of `nrSects` sectors. */
  predicate MapOf(s: State, nrSects: nat) {
    TarFits(nrSects) && s.cmd == TarBit(nrSects) && |s.bits| == SmapSects(nrSects) * SECTOR_SIZE * 8
  }

  /** The 2048 sectors that the bits from `p` on stand for lie on the partition. */
  predicate OnPartition(p: nat, nrSects: nat) {
    FirstDataSect(nrSects) + p - 1 + FILE_SECTS <= nrSects
  }

  /** While cmd.tar is there, all files lie on the partition. */
  lemma FilesOnPartition(s: State, nrSects: nat, f: nat)
    requires Inv(s) && MapOf(s, nrSects) && s.tar && f in s.live
    ensures OnPartition(s.live[f], nrSects)
  {
    assert IsTar(s, f) || BlockStart(s, s.live[f]);
  }

  ghost predicate HasFreeBlockOn(s: State, nrSects: nat) {
    exists p: nat :: FreeBlock(s, p) && OnPartition(p, nrSects)
  }

  /** Afterwards the map has bits for sectors behind the partition.  A creation stays on the partition
      exactly when a whole free block on the partition is left. */
  lemma CreateOnPartitionIff(s: State, nrSects: nat, f: nat)
    requires Inv(s) && MapOf(s, nrSects) && HasFreeBlock(s) && f !in s.live
    ensures OnPartition(Create(s, f).live[f], nrSects) <==> HasFreeBlockOn(s, nrSects)
  {
    FirstClearStartsBlock(s);
    if HasFreeBlockOn(s, nrSects) {
      var q: nat :| FreeBlock(s, q) && OnPartition(q, nrSects);
      assert !s.bits[q];
    }
  }

  /** A partition of 28 MB: once cmd.tar is deleted and the free blocks are taken, some file lies behind the
      end of the partition. */
  lemma CreationMayLeavePartition()
    ensures exists ss: seq<State>, es: seq<Event>, f: nat ::
              IsRun(ss, es) && MapOf(ss[|es|], 57344) && f in ss[|es|].live && !OnPartition(ss[|es|].live[f], 57344)
  {
    var cmd, p := TarBit(57344), 57345;
    var s := State(seq(61440, b requires 0 <= b => Initial(b, cmd)), map[TAR := cmd], cmd, true);
    assert Fresh(s);
    FreshInv(s);
    UnlinkKeepsInv(s, TAR);
    var t := Unlink(s, TAR);
    assert IsRun([s, t], [UnlinkFile(TAR)]);
    var ss, es := Exhaust([s, t], [UnlinkFile(TAR)]);
    RunsKeepInv(ss, es, |es|);
    var f := BlockIsTaken(ss[|es|], p);
    assert IsRun(ss, es);
  }

  /** With no free block left, every block has an owner. */
  lemma BlockIsTaken(s: State, p: nat) returns (f: nat)
    requires Inv(s) && BlockStart(s, p) && !HasFreeBlock(s)
    ensures f in s.live && s.live[f] <= p < s.live[f] + FILE_SECTS && (!s.tar ==> s.live[f] == p)
  {
    assert BlockOf(p) == p;
    if !s.bits[p] {
      ClearBlock(s, p);
    }
    assert Owned(s, p);
    f :| f in s.live && s.live[f] <= p < s.live[f] + FILE_SECTS;
    if !s.tar {
      SameBlock(s.live[f], p, p);
    }
  }

  // ---------------------------------------------------------------- the runs and the disk

  /** The map on disk: its `count` sectors follow the boot sector, the superblock and the inode map. */
  ghost predicate OnDisk(s: State, d: seq<byte>, count: nat) {
    (3 + count) * SECTOR_SIZE <= |d| && s.bits == BitsOf(Sectors(d, 3, count))
  }

  lemma MapBit(d: seq<byte>, count: nat, b: nat)
    requires (3 + count) * SECTOR_SIZE <= |d| && b < 8 * count * SECTOR_SIZE
    ensures BitsOf(Sectors(d, 3, count))[b] == BitAt(d, MAP0 + b)
  {
  }

  /** set_smap leaves a fresh map. */
  lemma MkfsIsFresh(d: seq<byte>, e: seq<byte>, count: nat, cmd: nat)
    requires MarksInitial(d, e, 3, count, cmd) && FILE_SECTS < cmd && cmd + FILE_SECTS <= count * SECTOR_SIZE * 8
    ensures Fresh(State(BitsOf(Sectors(e, 3, count)), map[TAR := cmd], cmd, true))
  {
    var bits := BitsOf(Sectors(e, 3, count));
    forall b | 0 <= b < |bits| ensures bits[b] <==> Initial(b, cmd) {
      MapBit(e, count, b);
    }
  }

  /** Where the bits of the map start on disk. */
  const MAP0 := 8 * 3 * SECTOR_SIZE

  /** The tests of do_unlink on an extent of 2048 set bits from `p` on come down to one question: does it
      start inside a byte, or is the bit behind it set? */
  lemma TestsOfExtent(d: seq<byte>, e: seq<byte>, p: nat, ok: bool)
    requires FreedExactly(d, e, p, FILE_SECTS, ok) && AllSet(d, MAP0 + p, FILE_SECTS)
    ensures p % 8 == 0 ==> MAP0 + p + FILE_SECTS < 8 * |d|
    ensures ok <==> p % 8 != 0 || BitAt(d, MAP0 + p + FILE_SECTS)
  {
    var k := p % 8;
    assert Whole(k, FILE_SECTS) == 255 && Rest(k, FILE_SECTS) == k;
  }

  lemma ExtentIsSet(s: State, f: nat, d: seq<byte>, count: nat)
    requires Inv(s) && f in s.live && OnDisk(s, d, count)
    ensures AllSet(d, MAP0 + s.live[f], FILE_SECTS)
  {
    var p := s.live[f];
    assert p + FILE_SECTS <= |s.bits| == 8 * count * SECTOR_SIZE;
    forall b | MAP0 + p <= b < MAP0 + p + FILE_SECTS ensures BitAt(d, b) {
      var c := b - MAP0;
      assert Owned(s, c);
      MapBit(d, count, c);
    }
  }

  /** Whether do_unlink goes through on the live file `f`, in terms of its place and of the image `d`: exactly
      when its extent starts inside a byte or the bit behind it is set.  That is always so for a created
      file; for cmd.tar it is the alignment that decides, as long as the map goes on behind it. */
  ghost predicate Decides(s: State, f: nat, d: seq<byte>, ok: bool)
    requires f in s.live
  {
    var p := s.live[f];
    (p % 8 == 0 ==> MAP0 + p + FILE_SECTS < 8 * |d|) &&
    (ok <==> p % 8 != 0 || BitAt(d, MAP0 + p + FILE_SECTS)) &&
    (!IsTar(s, f) ==> ok) &&
    (IsTar(s, f) && s.cmd + FILE_SECTS < |s.bits| ==> (ok <==> s.cmd % 8 != 0))
  }

  lemma UnlinkTestsIff(s: State, f: nat, d: seq<byte>, e: seq<byte>, count: nat, ok: bool)
    requires Inv(s) && f in s.live && OnDisk(s, d, count) && FreedExactly(d, e, s.live[f], FILE_SECTS, ok)
    ensures Decides(s, f, d, ok)
  {
    var p := s.live[f];
    ExtentIsSet(s, f, d, count);
    TestsOfExtent(d, e, p, ok);
    if IsTar(s, f) {
      if s.cmd + FILE_SECTS < |s.bits| {
        BehindTarIsClear(s, s.cmd + FILE_SECTS);
        MapBit(d, count, s.cmd + FILE_SECTS);
      }
    } else {
      CreatedInsideByte(s, f);
    }
  }

  /** Created files start at bit 1 of a byte. */
  lemma CreatedInsideByte(s: State, f: nat)
    requires Inv(s) && f in s.live && !IsTar(s, f)
    ensures s.live[f] % 8 == 1
  {
    assert BlockStart(s, s.live[f]);
  }

  /** If it goes through, its pass over the disk is the step Unlink. */
  lemma UnlinkOnDisk(s: State, f: nat, d: seq<byte>, e: seq<byte>, count: nat)
    requires Inv(s) && f in s.live && OnDisk(s, d, count) && FreedExactly(d, e, s.live[f], FILE_SECTS, true)
    ensures s.live[f] + FILE_SECTS <= |s.bits| && OnDisk(Unlink(s, f), e, count)
  {
    var bits := BitsOf(Sectors(e, 3, count));
    forall b | 0 <= b < |bits| ensures bits[b] == ClearRange(s.bits, s.live[f], FILE_SECTS)[b] {
      MapBit(d, count, b);
      MapBit(e, count, b);
    }
  }

  /** alloc_smap_bit with a whole free block left goes through, and its pass over the disk is the step
      Create. */
  lemma CreateOnDisk(s: State, f: nat, d: seq<byte>, e: seq<byte>, count: nat)
    requires Inv(s) && HasFreeBlock(s) && OnDisk(s, d, count) && |e| == |d|
    requires BitsOf(Sectors(e, 3, count)) == FillFirst(BitsOf(Sectors(d, 3, count)), FILE_SECTS)
    ensures FILE_SECTS <= Zeros(s.bits) && OnDisk(Create(s, f), e, count)
  {
    FirstClearStartsBlock(s);
    var p := FirstZero(s.bits);
    var block := s.bits[p..p + FILE_SECTS];
    ZerosOfClear(block);
    ZerosMonotone(s.bits, p, p + FILE_SECTS);
    assert s.bits == s.bits[..p + FILE_SECTS] + s.bits[p + FILE_SECTS..];
    ZerosAppend(s.bits[..p + FILE_SECTS], s.bits[p + FILE_SECTS..]);
  }

  /** create_file's allocation on the disk: a block of its own for inode `f`, and no byte outside the map
      changes. */
  method CreateExtent(dev: Disk, count: nat, n1st: nat, f: nat, ghost s: State) returns (start: nat)
    requires dev.Valid() && 3 + count <= dev.sectors && 2 <= n1st
    requires Inv(s) && HasFreeBlock(s) && f !in s.live && OnDisk(s, dev.bytes[..], count)
    modifies dev.bytes, dev.fsbuf
    ensures Inv(Create(s, f)) && OnDisk(Create(s, f), dev.bytes[..], count)
    ensures start + 1 == n1st + Create(s, f).live[f]
    ensures SameOutside(dev.bytes[..], old(dev.bytes[..]), 3, count)
  {
    ghost var d := dev.bytes[..];
    var ok;
    start, ok := AllocSmapBit(dev, 3, count, n1st, FILE_SECTS);
    CreateKeepsInv(s, f);
    CreateOnDisk(s, f, d, dev.bytes[..], count);
    assert ok;
  }

  /** The byte do_unlink treats as last lies on a disk that goes on behind the map. */
  lemma ExtentOnMap(s: State, f: nat, d: seq<byte>, count: nat, p: nat)
    requires Inv(s) && f in s.live && p == s.live[f] && OnDisk(s, d, count) && (3 + count) * SECTOR_SIZE < |d|
    ensures 3 * SECTOR_SIZE + p / 8 + Whole(p % 8, FILE_SECTS) + 1 < |d|
  {
    assert p + FILE_SECTS <= |s.bits| == 8 * (count * SECTOR_SIZE);
    assert Whole(p % 8, FILE_SECTS) == 255;
  }

  /** do_unlink's release on the disk of the extent that starts at sector `start`. */
  method DeleteExtent(dev: Disk, count: nat, n1st: nat, f: nat, start: nat, ghost s: State) returns (ok: bool)
    requires dev.Valid() && 3 + count < dev.sectors && n1st <= start + 1
    requires Inv(s) && f in s.live && start + 1 == n1st + s.live[f] && OnDisk(s, dev.bytes[..], count)
    modifies dev.bytes, dev.fsbuf
    ensures Decides(s, f, old(dev.bytes[..]), ok)
    ensures ok ==> Deleted(s, f, dev.bytes[..], count)
  {
    ghost var d, p := dev.bytes[..], s.live[f];
    ExtentOnMap(s, f, d, count, p);
    ok := FreeRun(dev, n1st, start, FILE_SECTS, p);
    UnlinkOutcome(s, f, d, dev.bytes[..], count, ok, p);
  }

  /** The image `e` holds the map after the deletion of `f`, and the invariant holds. */
  ghost predicate Deleted(s: State, f: nat, e: seq<byte>, count: nat) {
    f in s.live && s.live[f] + FILE_SECTS <= |s.bits| && Inv(Unlink(s, f)) && OnDisk(Unlink(s, f), e, count)
  }

  lemma UnlinkOutcome(s: State, f: nat, d: seq<byte>, e: seq<byte>, count: nat, ok: bool, p: nat)
    requires Inv(s) && f in s.live && p == s.live[f] && OnDisk(s, d, count) && FreedExactly(d, e, p, FILE_SECTS, ok)
    ensures Decides(s, f, d, ok) && (ok ==> Deleted(s, f, e, count))
  {
    UnlinkTestsIff(s, f, d, e, count, ok);
    if ok {
      UnlinkKeepsInv(s, f);
      UnlinkOnDisk(s, f, d, e, count);
    }
  }

  /** A file created and deleted again: the map on the disk is what it was. */
  method CreateAndDelete(dev: Disk, count: nat, n1st: nat, f: nat, ghost s: State)
    requires dev.Valid() && 3 + count < dev.sectors && 2 <= n1st
    requires Inv(s) && HasFreeBlock(s) && f !in s.live && OnDisk(s, dev.bytes[..], count)
    modifies dev.bytes, dev.fsbuf
    ensures OnDisk(s, dev.bytes[..], count)
  {
    var start := CreateExtent(dev, count, n1st, f, s);
    CreateThenUnlink(s, f);
    var ok := DeleteExtent(dev, count, n1st, f, start, Create(s, f));
  }

  /** mkfs on a partition of `nrSects` sectors, then the deletion of cmd.tar: it stops at the assertion of
      fs/link.c:110 exactly on the partitions whose map takes 6 sectors more than a multiple of 8. */
  method FormatThenDeleteTar(dev: Disk, nrSects: nat) returns (ok: bool)
    requires dev.Valid() && nrSects <= dev.sectors && TarFits(nrSects)
    modifies dev.bytes, dev.fsbuf
    ensures ok <==> SmapSects(nrSects) % 8 != 6
  {
    TarPlace(nrSects);
    var count, n1st := SmapSects(nrSects), FirstDataSect(nrSects);
    ghost var d := dev.bytes[..];
    SetSmap(dev, 3, count, n1st, INSTALL_START);
    ghost var cmd := TarBit(nrSects);
    MkfsIsFresh(d, dev.bytes[..], count, cmd);
    ghost var s := State(BitsOf(Sectors(dev.bytes[..], 3, count)), map[TAR := cmd], cmd, true);
    FreshInv(s);
    ok := DeleteExtent(dev, count, n1st, TAR, INSTALL_START, s);
  }

  /** On a partition of 26 MB, whose map takes 14 sectors, cmd.tar cannot be deleted. */
  method TarRefused(dev: Disk) returns (ok: bool)
    requires dev.Valid() && 53248 <= dev.sectors
    modifies dev.bytes, dev.fsbuf
    ensures !ok
  {
    assert SmapSects(53248) == 14;
    ok := FormatThenDeleteTar(dev, 53248);
  }
}
