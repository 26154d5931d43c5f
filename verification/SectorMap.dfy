/** The sector map of the file system: alloc_smap_bit (fs/open.c) and the bitmap part of do_unlink
    (fs/link.c) against their meaning on the bits of the whole map. */
module SectorMap {
  import opened Bits
  import opened Device

  // ---------------------------------------------------------------- allocation

  /** The sector number given to the first clear bit of `bits`, whose first bit stands for `base`,
      unless one was given before. */
  function Hit(bits: seq<bool>, base: nat, sect: nat): nat {
    if sect != 0 then sect else if FirstZero(bits) < |bits| then base + FirstZero(bits) else 0
  }

  lemma HitAppend(a: seq<bool>, b: seq<bool>, base: nat, sect: nat)
    requires 0 < base
    ensures Hit(a + b, base, sect) == Hit(b, base + |a|, Hit(a, base, sect))
  {
    FirstZeroAppend(a, b);
  }

  /** Everything the scan keeps track of, after it has passed `bits`. */
  ghost predicate Scanned(bits: seq<bool>, base: nat, sect0: nat, n: nat, sect: nat, left: nat) {
    sect == Hit(bits, base, sect0) && left == Left(bits, n)
  }

  lemma ScannedAppend(a: seq<bool>, b: seq<bool>, base: nat, sect0: nat, n: nat, sect: nat, left: nat, sect': nat,
                      left': nat)
    requires 0 < base && Scanned(a, base, sect0, n, sect, left) && Scanned(b, base + |a|, sect, left, sect', left')
    ensures Scanned(a + b, base, sect0, n, sect', left')
    ensures FillFirst(a + b, n) == FillFirst(a, n) + FillFirst(b, left)
  {
    HitAppend(a, b, base, sect0);
    FillFirstAppend(a, b, n);
  }

  /** The scan passes one more bit. */
  lemma ScanBit(bits: seq<bool>, k: nat, base: nat, sect0: nat, n: nat, sect: nat, left: nat)
    requires k < |bits| && 0 < base && Scanned(bits[..k], base, sect0, n, sect, left)
    ensures var v := bits[k];
            Scanned(bits[..k + 1], base, sect0, n, if v || sect != 0 then sect else base + k,
                    if v || left == 0 then left else left - 1) &&
            FillFirst(bits[..k + 1], n) == FillFirst(bits[..k], n) + [v || 0 < left]
  {
    var v := bits[k];
    assert bits[..k + 1] == bits[..k] + [v];
    assert [v][1..] == [];
    assert Zeros([v]) == (if v then 0 else 1) && FirstZero([v]) == if v then 1 else 0;
    ScannedAppend(bits[..k], [v], base, sect0, n, sect, left,
                  if v || sect != 0 then sect else base + k, if v || left == 0 then left else left - 1);
  }

  /** The bits of `c` are `front` followed by the bits of `b` from `k` on. */
  ghost predicate Merged(c: byte, front: seq<bool>, b: byte, k: nat) {
    |front| == k <= 8 && forall j :: 0 <= j < 8 ==> Bit(c, j) == if j < k then front[j] else Bit(b, j)
  }

  lemma MergeBit(c: byte, front: seq<bool>, b: byte, k: nat)
    requires k < 8 && Merged(c, front, b, k)
    ensures Merged(c, front + [Bit(b, k)], b, k + 1)
    ensures Merged(c | Mask(k), front + [true], b, k + 1)
  {
    forall j | 0 <= j < 8 ensures Bit(c | Mask(k), j) <==> j == k || Bit(c, j) {
      SetBit(c, k, j);
    }
  }

  lemma MergedBits(c: byte, front: seq<bool>, b: byte, k: nat)
    requires Merged(c, front, b, k)
    ensures BitsOf([c]) == front + BitsOf([b])[k..]
  {
  }

  /** The bit the innermost loop looks at is still that of the original byte. */
  lemma SeenBit(b: byte, c: byte, k: nat, front: seq<bool>)
    requires k < 8 && Merged(c, front, b, k)
    ensures BitsOf([b])[k] == Bit(b, k) == Bit(c, k)
  {
  }

  /** The innermost loop has passed the first `k` bits of `b`, which it has changed to `c`. */
  ghost predicate Passed(b: byte, c: byte, k: nat, base: nat, sect0: nat, n: nat, sect: nat, left: nat) {
    k <= 8 && Scanned(BitsOf([b])[..k], base, sect0, n, sect, left) &&
    Merged(c, FillFirst(BitsOf([b])[..k], n), b, k)
  }

  /** The innermost loop passes a set bit, or sets a clear one. */
  lemma PassBit(b: byte, c: byte, k: nat, base: nat, sect0: nat, n: nat, sect: nat, left: nat)
    requires k < 8 && 0 < base && Passed(b, c, k, base, sect0, n, sect, left)
    ensures BitsOf([b])[k] == Bit(c, k)
    ensures Bit(c, k) ==> Passed(b, c, k + 1, base, sect0, n, sect, left)
    ensures !Bit(c, k) && 0 < left ==>
              Passed(b, c | Mask(k), k + 1, base, sect0, n, if sect != 0 then sect else base + k, left - 1)
  {
    var front := FillFirst(BitsOf([b])[..k], n);
    SeenBit(b, c, k, front);
    ScanBit(BitsOf([b]), k, base, sect0, n, sect, left);
    MergeBit(c, front, b, k);
  }

  lemma PassedAll(b: byte, c: byte, base: nat, sect0: nat, n: nat, sect: nat, left: nat)
    requires 0 < base && Passed(b, c, 8, base, sect0, n, sect, left)
    ensures BitsOf([c]) == FillFirst(BitsOf([b]), n) && Scanned(BitsOf([b]), base, sect0, n, sect, left)
  {
    assert BitsOf([b])[..8] == BitsOf([b]);
    MergedBits(c, FillFirst(BitsOf([b]), n), b, 8);
  }

  /** The innermost loop ends early at a clear bit when everything is placed. */
  lemma StopAt(b: byte, c: byte, k: nat, base: nat, sect0: nat, n: nat, sect: nat)
    requires k < 8 && 0 < base && Passed(b, c, k, base, sect0, n, sect, 0) && !BitsOf([b])[k]
    ensures Scanned(BitsOf([b]), base, sect0, n, if sect != 0 then sect else base + k, 0)
    ensures BitsOf([c]) == FillFirst(BitsOf([b]), n)
  {
    var bits := BitsOf([b]);
    FillNothing(bits, n, k);
    LateHit(bits, base, sect0, k);
    MergedBits(c, FillFirst(bits[..k], n), b, k);
  }

  /** The innermost loop: the eight bits of one byte, the first of which stands for `base`. */
  method AllocInByte(b: byte, base: nat, sect0: nat, n: nat) returns (c: byte, sect: nat, left: nat)
    requires 0 < base
    ensures BitsOf([c]) == FillFirst(BitsOf([b]), n)
    ensures Scanned(BitsOf([b]), base, sect0, n, sect, left)
  {
    c, sect, left := b, sect0, n;
    var k := 0;
    while k < 8
      invariant 0 <= k <= 8 && Passed(b, c, k, base, sect0, n, sect, left)
    {
      PassBit(b, c, k, base, sect0, n, sect, left);
      if c & Mask(k) == 0 {
        if left == 0 {
          StopAt(b, c, k, base, sect0, n, sect);
        }
        if sect == 0 {
          sect := base + k;
        }
        if 0 < left {
          c := c | Mask(k);
          left := left - 1;
        } else {
          return;
        }
      }
      k := k + 1;
    }
    PassedAll(b, c, base, sect0, n, sect, left);
  }

  /** Once everything is placed, the rest of the map stays as it is. */
  lemma FillNothing(bits: seq<bool>, n: nat, k: nat)
    requires k <= |bits| && Left(bits[..k], n) == 0
    ensures FillFirst(bits, n) == FillFirst(bits[..k], n) + bits[k..] && Left(bits, n) == 0
  {
    assert bits == bits[..k] + bits[k..];
    FillFirstAppend(bits[..k], bits[k..], n);
  }

  lemma LateHit(bits: seq<bool>, base: nat, sect0: nat, k: nat)
    requires k < |bits| && !bits[k] && 0 < base
    ensures Hit(bits, base, sect0) == if Hit(bits[..k], base, sect0) != 0 then Hit(bits[..k], base, sect0) else base + k
  {
  }

  /** The middle loop: the bytes of the sector in `fsbuf`, skipping the full ones. */
  method AllocInSector(dev: Disk, base: nat, sect0: nat, n: nat) returns (sect: nat, left: nat)
    requires dev.Valid() && 0 < base
    modifies dev.fsbuf
    ensures var bits := BitsOf(old(dev.fsbuf[..SECTOR_SIZE]));
            BitsOf(dev.fsbuf[..SECTOR_SIZE]) == FillFirst(bits, n) && Scanned(bits, base, sect0, n, sect, left)
    ensures sect == 0 ==> dev.fsbuf[..SECTOR_SIZE] == old(dev.fsbuf[..SECTOR_SIZE])
  {
    sect, left := sect0, n;
    ghost var was := dev.fsbuf[..SECTOR_SIZE];
    for j := 0 to SECTOR_SIZE
      invariant forall x :: j <= x < SECTOR_SIZE ==> dev.fsbuf[x] == was[x]
      invariant Scanned(BitsOf(was[..j]), base, sect0, n, sect, left)
      invariant BitsOf(dev.fsbuf[..j]) == FillFirst(BitsOf(was[..j]), n)
      invariant sect == 0 ==> dev.fsbuf[..j] == was[..j]
    {
      ghost var b := dev.fsbuf[j];
      ghost var done := dev.fsbuf[..j];
      assert b == was[j];
      ghost var sect', left' := sect, left;
      if dev.fsbuf[j] == 0xFF {
        FullBits(b, left);
      } else {
        var c;
        c, sect, left := AllocInByte(dev.fsbuf[j], base + 8 * j, sect, left);
        dev.fsbuf[j] := c;
        NoHit(b, base + 8 * j, sect', sect);
      }
      assert dev.fsbuf[..j + 1] == done + [dev.fsbuf[j]];
      NextByte(was, j, done, dev.fsbuf[j], base, sect0, n, sect', left', sect, left);
    }
    assert was[..SECTOR_SIZE] == was;
  }

  /** The scan passes one more byte of the sector. */
  lemma NextByte(was: seq<byte>, j: nat, done: seq<byte>, c: byte, base: nat, sect0: nat, n: nat, sect: nat, left: nat,
                 sect': nat, left': nat)
    requires 0 < base && j < |was| && Scanned(BitsOf(was[..j]), base, sect0, n, sect, left)
    requires BitsOf(done) == FillFirst(BitsOf(was[..j]), n)
    requires BitsOf([c]) == FillFirst(BitsOf([was[j]]), left)
    requires Scanned(BitsOf([was[j]]), base + 8 * j, sect, left, sect', left')
    ensures Scanned(BitsOf(was[..j + 1]), base, sect0, n, sect', left')
    ensures BitsOf(done + [c]) == FillFirst(BitsOf(was[..j + 1]), n)
  {
    var b := was[j];
    assert was[..j + 1] == was[..j] + [b];
    BitsOfAppend(was[..j], [b]);
    ScannedAppend(BitsOf(was[..j]), BitsOf([b]), base, sect0, n, sect, left, sect', left');
    BitsOfAppend(done, [c]);
  }

  lemma FullBits(b: byte, n: nat)
    requires b == 0xFF
    ensures FillFirst(BitsOf([b]), n) == BitsOf([b]) && Zeros(BitsOf([b])) == 0
    ensures FirstZero(BitsOf([b])) == 8
  {
    FullByte(b);
    forall j | 0 <= j < 8 ensures BitsOf([b])[j] {
      assert Bit(b, j);
    }
    FillFull(BitsOf([b]), n);
    ZerosOfFull(BitsOf([b]));
  }

  /** A byte with a clear bit yields a sector number. */
  lemma NoHit(b: byte, base: nat, sect0: nat, sect: nat)
    requires b != 0xFF && 0 < base && sect == Hit(BitsOf([b]), base, sect0)
    ensures sect != 0
  {
    FullByte(b);
    var k :| 0 <= k < 8 && !Bit(b, k);
    assert !BitsOf([b])[k];
  }

  /** From image `d` to image `e` the first `n` clear bits of the sectors [first, first + count) were
      filled, and the scan knows what it has seen. */
  ghost predicate Filled(d: seq<byte>, e: seq<byte>, first: nat, count: nat, base: nat, sect0: nat, n: nat, sect: nat,
                         left: nat) {
    (first + count) * SECTOR_SIZE <= |d| && SameOutside(e, d, first, count) &&
    BitsOf(Sectors(e, first, count)) == FillFirst(BitsOf(Sectors(d, first, count)), n) &&
    Scanned(BitsOf(Sectors(d, first, count)), base, sect0, n, sect, left)
  }

  /** One turn of the outermost loop: read a sector of the map, fill it, and write it back once a
      clear bit has been found. */
  method AllocOnDisk(dev: Disk, s: nat, base: nat, sect0: nat, n: nat) returns (sect: nat, left: nat)
    requires dev.Valid() && 0 < base && s < dev.sectors
    modifies dev.bytes, dev.fsbuf
    ensures Filled(old(dev.bytes[..]), dev.bytes[..], s, 1, base, sect0, n, sect, left)
  {
    dev.RdSect(s);
    sect, left := AllocInSector(dev, base, sect0, n);
    if sect != 0 {
      dev.WrSect(s);
      assert Sectors(dev.bytes[..], s, 1) == dev.fsbuf[..SECTOR_SIZE];
    }
  }

  /** The scan that has passed `i` sectors of the map passes one more. */
  method AllocNext(dev: Disk, smap0: nat, i: nat, base: nat, sect0: nat, left0: nat, ghost d: seq<byte>, ghost n: nat)
    returns (sect: nat, left: nat)
    requires dev.Valid() && 0 < base && smap0 + i < dev.sectors
    requires Filled(d, dev.bytes[..], smap0, i, base, 0, n, sect0, left0)
    modifies dev.bytes, dev.fsbuf
    ensures Filled(d, dev.bytes[..], smap0, i + 1, base, 0, n, sect, left)
  {
    ghost var before := dev.bytes[..];
    var s, base' := smap0 + i, base + i * SECTOR_SIZE * 8;
    sect, left := AllocOnDisk(dev, s, base', sect0, left0);
    AdvanceScan(d, before, dev.bytes[..], smap0, i, s, n, base, base', sect0, left0, sect, left);
  }

  /** The outermost loop, which stops after `i` sectors: when everything is placed, or at the end of the map. */
  method ScanMap(dev: Disk, smap0: nat, count: nat, base: nat, n: nat) returns (sect: nat, left: nat, ghost i: nat)
    requires dev.Valid() && smap0 + count <= dev.sectors && 0 < base
    modifies dev.bytes, dev.fsbuf
    ensures i <= count && (i == count || left == 0)
    ensures Filled(old(dev.bytes[..]), dev.bytes[..], smap0, i, base, 0, n, sect, left)
  {
    ghost var d := dev.bytes[..];
    StartScan(d, smap0, base, n);
    sect, left := 0, n;
    var k := 0;
    while k < count && left != 0
      invariant k <= count && Filled(d, dev.bytes[..], smap0, k, base, 0, n, sect, left)
    {
      sect, left := AllocNext(dev, smap0, k, base, sect, left, d, n);
      k := k + 1;
    }
    i := k;
  }

  /** alloc_smap_bit over the map in the sectors [smap0, smap0 + count): the first `n` clear bits are
      set and nothing else on the disk changes; the result is the sector of the first of them. */
  method AllocSmapBit(dev: Disk, smap0: nat, count: nat, n1st: nat, n: nat) returns (sect: nat, ok: bool)
    requires dev.Valid() && smap0 + count <= dev.sectors && 2 <= n1st && 0 < n
    modifies dev.bytes, dev.fsbuf
    ensures SameOutside(dev.bytes[..], old(dev.bytes[..]), smap0, count)
    ensures var bits := BitsOf(Sectors(old(dev.bytes[..]), smap0, count));
            BitsOf(Sectors(dev.bytes[..], smap0, count)) == FillFirst(bits, n) &&
            (ok <==> n <= Zeros(bits)) &&
            (ok ==> FirstZero(bits) < |bits| && sect == FirstZero(bits) - 1 + n1st)
  {
    var base := n1st - 1;
    var left;
    ghost var d, i := dev.bytes[..], 0;
    sect, left, i := ScanMap(dev, smap0, count, base, n);
    ok := left == 0;
    FinishScan(d, dev.bytes[..], smap0, i, count, n, base, sect, left);
  }

  lemma StartScan(d: seq<byte>, smap0: nat, base: nat, n: nat)
    requires smap0 * SECTOR_SIZE <= |d|
    ensures Filled(d, d, smap0, 0, base, 0, n, 0, n)
  {
    assert Sectors(d, smap0, 0) == [];
  }

  /** One more sector of the map has been scanned and written back. */
  lemma AdvanceScan(d: seq<byte>, before: seq<byte>, e: seq<byte>, smap0: nat, i: nat, s: nat, n: nat,
                    base: nat, base': nat, sect: nat, left: nat, sect': nat, left': nat)
    requires s == smap0 + i && base' == base + i * SECTOR_SIZE * 8 && 0 < base
    requires Filled(d, before, smap0, i, base, 0, n, sect, left)
    requires Filled(before, e, s, 1, base', sect, left, sect', left')
    ensures Filled(d, e, smap0, i + 1, base, 0, n, sect', left')
  {
    var here, now := Sectors(d, s, 1), Sectors(e, s, 1);
    assert Sectors(before, s, 1) == here;
    assert Sectors(d, smap0, i + 1) == Sectors(d, smap0, i) + here;
    assert Sectors(e, smap0, i + 1) == Sectors(before, smap0, i) + now;
    BitsOfAppend(Sectors(d, smap0, i), here);
    BitsOfAppend(Sectors(before, smap0, i), now);
    ScannedAppend(BitsOf(Sectors(d, smap0, i)), BitsOf(here), base, 0, n, sect, left, sect', left');
  }

  lemma FinishScan(d: seq<byte>, e: seq<byte>, smap0: nat, i: nat, count: nat, n: nat, base: nat, sect: nat, left: nat)
    requires i <= count && (smap0 + count) * SECTOR_SIZE <= |d| && 0 < n && 0 < base
    requires Filled(d, e, smap0, i, base, 0, n, sect, left)
    requires i == count || left == 0
    ensures SameOutside(e, d, smap0, count)
    ensures var bits := BitsOf(Sectors(d, smap0, count));
            BitsOf(Sectors(e, smap0, count)) == FillFirst(bits, n) && (left == 0 <==> n <= Zeros(bits)) &&
            (left == 0 ==> FirstZero(bits) < |bits| && sect == FirstZero(bits) + base)
  {
    var a, rest := Sectors(d, smap0, i), Sectors(d, smap0 + i, count - i);
    assert Sectors(d, smap0, count) == a + rest;
    assert Sectors(e, smap0, count) == Sectors(e, smap0, i) + rest;
    BitsOfAppend(a, rest);
    BitsOfAppend(Sectors(e, smap0, i), rest);
    ZerosAppend(BitsOf(a), BitsOf(rest));
    FirstZeroAppend(BitsOf(a), BitsOf(rest));
    ZerosOfFull(BitsOf(a));
    if left == 0 {
      FillFirstAppend(BitsOf(a), BitsOf(rest), n);
    } else {
      assert rest == [] && a + rest == a;
    }
  }

  // ---------------------------------------------------------------- release

  /** C division, which truncates toward zero. */
  function TruncDiv(a: int, b: nat): int
    requires 0 < b
  {
    if 0 <= a then a / b else -((-a) / b)
  }

  /** How many whole bytes a run of `n` bits starting at bit `k` of a byte covers after that byte. */
  function Whole(k: nat, n: nat): nat
    requires k < 8
  {
    if n < 8 - k then 0 else (n - (8 - k)) / 8
  }

  /** How many bits of the run are left for the byte after those. */
  function Rest(k: nat, n: nat): nat
    requires k < 8
  {
    if n < 8 - k then 0 else (n - (8 - k)) % 8
  }

  predicate BitAt(d: seq<byte>, b: nat)
    requires b < 8 * |d|
  {
    Bit(d[b / 8], b % 8)
  }

  ghost predicate UpSet(b: byte, k: nat, n: nat) {
    forall j :: k <= j < 8 && j < k + n ==> Bit(b, j)
  }

  /** First byte: clear the bits from `k` up, at most `n` of them; stops at a bit that is not set. */
  method ClearUp(b: byte, k: nat, n: nat) returns (c: byte, left: nat, ok: bool)
    requires k < 8
    ensures ok <==> UpSet(b, k, n)
    ensures ok ==> left == AfterFirst(k, n)
    ensures ok ==> Cleared(b, c, k, n)
  {
    c, left, ok := b, n, true;
    var i := k;
    while i < 8 && 0 < left
      invariant k <= i <= 8 && left == n - (i - k)
      invariant forall j :: k <= j < i ==> Bit(b, j)
      invariant forall j :: 0 <= j < 8 ==> (Bit(c, j) <==> Bit(b, j) && !(k <= j < i))
    {
      if c & Mask(i) == 0 {
        assert !Bit(b, i);
        return c, left, false;
      }
      var c' := c & !Mask(i);
      forall j | 0 <= j < 8 ensures Bit(c', j) <==> j != i && Bit(c, j) {
        ClearBit(c, i, j);
      }
      assert Bit(c, i) && Bit(b, i);
      c := c';
      i := i + 1;
      left := left - 1;
    }
  }

  /** The disk as it will be once the sector in `fsbuf` is written back to `sect`. */
  ghost function Overlay(dev: Disk, sect: nat): (d: seq<byte>)
    requires dev.Valid() && sect < dev.sectors
    reads dev.bytes, dev.fsbuf
    ensures |d| == dev.bytes.Length
  {
    Splice(dev.bytes[..], sect * SECTOR_SIZE, dev.fsbuf[..SECTOR_SIZE])
  }

  /** Move on to the next sector when the byte index has run off the current one. */
  method Carry(dev: Disk, sect: nat, i: nat, ghost at: nat) returns (sect': nat, i': nat)
    requires dev.Valid() && sect < dev.sectors && i <= SECTOR_SIZE && at == sect * SECTOR_SIZE + i < dev.bytes.Length
    modifies dev.bytes, dev.fsbuf
    ensures sect' < dev.sectors && i' < SECTOR_SIZE && sect' * SECTOR_SIZE + i' == at
    ensures Overlay(dev, sect') == old(Overlay(dev, sect))
    ensures dev.fsbuf[i'] == old(Overlay(dev, sect))[at]
  {
    sect', i' := sect, i;
    if i == SECTOR_SIZE {
      dev.WrSect(sect);
      ghost var d := dev.bytes[..];
      sect', i' := sect + 1, 0;
      dev.RdSect(sect');
      SpliceBack(d, sect' * SECTOR_SIZE, dev.fsbuf[..SECTOR_SIZE]);
    }
  }

  /** Change one byte of the sector in `fsbuf`. */
  method Poke(dev: Disk, ghost sect: nat, i: nat, v: byte, ghost at: nat)
    requires dev.Valid() && i < SECTOR_SIZE && sect < dev.sectors && at == sect * SECTOR_SIZE + i
    modifies dev.fsbuf
    ensures Overlay(dev, sect) == old(Overlay(dev, sect))[at := v]
  {
    dev.fsbuf[i] := v;
  }

  /** `d` with `cnt` bytes from `at` on cleared. */
  function ZeroBytes(d: seq<byte>, at: nat, cnt: nat): (r: seq<byte>)
    requires at + cnt <= |d|
    ensures |r| == |d| && forall x :: 0 <= x < |d| ==> r[x] == if at <= x < at + cnt then 0 else d[x]
  {
    d[..at] + seq(cnt, _ => 0) + d[at + cnt..]
  }

  ghost predicate AllFull(d: seq<byte>, at: nat, cnt: nat)
    requires at + cnt <= |d|
  {
    forall x :: at <= x < at + cnt ==> d[x] == 0xFF
  }

  /** Where the pass stands: `sect` is in the buffer and byte `at` is next. */
  ghost predicate At(dev: Disk, sect: nat, i: nat, at: nat) {
    dev.Valid() && sect < dev.sectors && 0 < i <= SECTOR_SIZE && sect * SECTOR_SIZE + i == at
  }

  /** One turn of the middle loop. */
  method ClearNext(dev: Disk, sect: nat, i: nat, ghost at: nat) returns (sect': nat, i': nat, ok: bool)
    requires At(dev, sect, i, at) && at < dev.bytes.Length
    modifies dev.bytes, dev.fsbuf
    ensures ok <==> old(Overlay(dev, sect))[at] == 0xFF
    ensures ok ==> At(dev, sect', i', at + 1) && Overlay(dev, sect') == old(Overlay(dev, sect))[at := 0]
  {
    sect', i' := Carry(dev, sect, i, at);
    ok := dev.fsbuf[i'] == 0xFF;
    if ok {
      Poke(dev, sect', i', 0, at);
      i' := i' + 1;
    }
  }

  lemma ZeroNext(d: seq<byte>, at: nat, j: nat)
    requires at + j < |d|
    ensures ZeroBytes(d, at, j)[at + j] == d[at + j] && ZeroBytes(d, at, j)[at + j := 0] == ZeroBytes(d, at, j + 1)
    ensures AllFull(d, at, j + 1) <==> AllFull(d, at, j) && d[at + j] == 0xFF
  {
  }

  /** Middle bytes: clear `cnt` bytes that must all be full; a count below 1 does nothing. */
  method ClearWhole(dev: Disk, sect0: nat, i0: nat, cnt: int, n: nat, ghost at: nat)
    returns (sect: nat, i: nat, left: nat, ok: bool)
    requires At(dev, sect0, i0, at) && 8 * cnt <= n && at + Count(cnt) <= dev.bytes.Length
    modifies dev.bytes, dev.fsbuf
    ensures ok <==> AllFull(old(Overlay(dev, sect0)), at, Count(cnt))
    ensures ok ==> At(dev, sect, i, at + Count(cnt)) && left == n - 8 * Count(cnt)
    ensures ok ==> Overlay(dev, sect) == ZeroBytes(old(Overlay(dev, sect0)), at, Count(cnt))
  {
    sect, i, left, ok := sect0, i0, n, true;
    ghost var d := Overlay(dev, sect0);
    var j := 0;
    while j < cnt && 0 < left
      invariant 0 <= j <= Count(cnt) && left == n - 8 * j && At(dev, sect, i, at + j)
      invariant AllFull(d, at, j) && Overlay(dev, sect) == ZeroBytes(d, at, j)
    {
      ZeroNext(d, at, j);
      sect, i, ok := ClearNext(dev, sect, i, at + j);
      if !ok { return; }
      j := j + 1;
      left := left - 8;
    }
  }

  function Count(cnt: int): nat {
    if 0 < cnt then cnt else 0
  }

  /** The image after a run of `n` bits starting at bit `k` of byte `at` is released. */
  function Released(d: seq<byte>, c: byte, at: nat, k: nat, n: nat): seq<byte>
    requires k < 8 && at + Whole(k, n) + 1 < |d|
  {
    var e, last := ZeroBytes(d[at := c], at + 1, Whole(k, n)), at + 1 + Whole(k, n);
    e[last := DropLow(e[last], Rest(k, n))]
  }

  ghost predicate Cleared(b: byte, c: byte, k: nat, n: nat) {
    forall j :: 0 <= j < 8 ==> (Bit(c, j) <==> Bit(b, j) && !(k <= j < k + n))
  }

  lemma ReleasedBits(d: seq<byte>, c: byte, at: nat, k: nat, n: nat)
    requires k < 8 && at + Whole(k, n) + 1 < |d| && Cleared(d[at], c, k, n)
    ensures forall b :: 0 <= b < 8 * |d| ==>
              (BitAt(Released(d, c, at, k, n), b) <==> BitAt(d, b) && !(8 * at + k <= b < 8 * at + k + n))
  {
    var e := Released(d, c, at, k, n);
    forall b | 0 <= b < 8 * |d| ensures BitAt(e, b) <==> BitAt(d, b) && !(8 * at + k <= b < 8 * at + k + n) {
      var x, j := b / 8, b % 8;
      var last := at + Whole(k, n) + 1;
      assert b == 8 * x + j;
      if x == last {
        ClearLow(d[last], Rest(k, n), j);
      } else if at < x < last {
        assert e[x] == 0;
      }
    }
  }

  /** The bits of the run that lie outside the byte treated as last are all set. */
  ghost predicate RunSet(d: seq<byte>, at: nat, k: nat, n: nat)
    requires k < 8 && at + Whole(k, n) + 1 < |d|
  {
    UpSet(d[at], k, n) && AllFull(d, at + 1, Whole(k, n))
  }

  /** The `n` bits from `lo` on are set. */
  ghost predicate AllSet(d: seq<byte>, lo: nat, n: int) {
    lo + n <= 8 * |d| && forall b :: lo <= b < lo + n ==> BitAt(d, b)
  }

  lemma RunIsSet(d: seq<byte>, at: nat, k: nat, n: nat)
    requires k < 8 && at + Whole(k, n) + 1 < |d| && RunSet(d, at, k, n)
    ensures AllSet(d, 8 * at + k, n - Rest(k, n))
  {
    forall b | 8 * at + k <= b < 8 * at + k + n - Rest(k, n) ensures BitAt(d, b) {
      FullByte(d[b / 8]);
    }
  }

  lemma FullFromBits(d: seq<byte>, x: nat)
    requires x < |d| && AllSet(d, 8 * x, 8)
    ensures d[x] == 0xFF
  {
    forall j | 0 <= j < 8 ensures Bit(d[x], j) {
      assert BitAt(d, 8 * x + j);
    }
    FullByte(d[x]);
  }

  lemma SetIsRun(d: seq<byte>, at: nat, k: nat, n: nat)
    requires k < 8 && at + Whole(k, n) + 1 < |d| && AllSet(d, 8 * at + k, n - Rest(k, n))
    ensures RunSet(d, at, k, n)
  {
    forall j | k <= j < 8 && j < k + n ensures Bit(d[at], j) {
      assert BitAt(d, 8 * at + j);
    }
    forall x | at < x < at + Whole(k, n) + 1 ensures d[x] == 0xFF {
      FullFromBits(d, x);
    }
  }

  lemma RunSetBits(d: seq<byte>, at: nat, k: nat, n: nat)
    requires k < 8 && at + Whole(k, n) + 1 < |d|
    ensures RunSet(d, at, k, n) <==> AllSet(d, 8 * at + k, n - Rest(k, n))
  {
    if RunSet(d, at, k, n) { RunIsSet(d, at, k, n); }
    if AllSet(d, 8 * at + k, n - Rest(k, n)) { SetIsRun(d, at, k, n); }
  }

  /** The bitmap part of do_unlink, for a run of `n` sectors starting at `start`, whose bit is `p`: it goes through
      exactly when every bit of the run outside the byte treated as last is set, and bit 0 of that
      byte is set; then exactly the bits of the run are cleared. */
  method FreeRun(dev: Disk, n1st: nat, start: nat, n: nat, ghost p: nat) returns (ok: bool)
    requires dev.Valid() && n1st + p == start + 1 && 3 * SECTOR_SIZE + p / 8 + Whole(p % 8, n) + 1 < dev.bytes.Length
    modifies dev.bytes, dev.fsbuf
    ensures FreedExactly(old(dev.bytes[..]), dev.bytes[..], p, n, ok)
  {
    ghost var d := dev.bytes[..];
    var bitIdx := start - n1st + 1;
    ghost var c;
    ok, c := FreeBytes(dev, bitIdx, n);
    PassFreesExactly(d, dev.bytes[..], p, n, ok, c);
  }

  /** On the bits of the disk, whose sector map starts with sector 3: release of the `n` bits from
      `bitIdx` on is refused unless its tests succeed, and clears those bits and no other. */
  ghost predicate FreedExactly(d: seq<byte>, e: seq<byte>, bitIdx: nat, n: nat, ok: bool) {
    var lo, k := 8 * 3 * SECTOR_SIZE + bitIdx, bitIdx % 8;
    var last := lo - k + 8 + 8 * Whole(k, n);
    last < 8 * |d| == 8 * |e| &&
    (ok <==> AllSet(d, lo, n - Rest(k, n)) && BitAt(d, last)) &&
    (ok ==> forall b :: 0 <= b < 8 * |d| ==> (BitAt(e, b) <==> BitAt(d, b) && !(lo <= b < lo + n)))
  }

  lemma PassFreesExactly(d: seq<byte>, e: seq<byte>, bitIdx: nat, n: nat, ok: bool, c: byte)
    requires |e| == |d| && Pass(d, e, 3 * SECTOR_SIZE + bitIdx / 8, bitIdx % 8, n, ok, c)
    ensures FreedExactly(d, e, bitIdx, n, ok)
  {
    var at, k := 3 * SECTOR_SIZE + bitIdx / 8, bitIdx % 8;
    assert 8 * at + k == 8 * 3 * SECTOR_SIZE + bitIdx;
    var last := 8 * (at + 1 + Whole(k, n));
    assert last / 8 == at + 1 + Whole(k, n) && last % 8 == 0;
    RunSetBits(d, at, k, n);
    if ok {
      ReleasedBits(d, c, at, k, n);
    }
  }

  /** Where the run starts on the disk and how many whole bytes it covers, as the source computes it. */
  method FreeBytes(dev: Disk, bitIdx: nat, n: nat) returns (ok: bool, ghost c: byte)
    requires dev.Valid() && 3 * SECTOR_SIZE + bitIdx / 8 + Whole(bitIdx % 8, n) + 1 < dev.bytes.Length
    modifies dev.bytes, dev.fsbuf
    ensures Pass(old(dev.bytes[..]), dev.bytes[..], 3 * SECTOR_SIZE + bitIdx / 8, bitIdx % 8, n, ok, c)
  {
    var byteIdx := bitIdx / 8;
    var byteCnt := TruncDiv(n - (8 - bitIdx % 8), 8);
    RunLayout(bitIdx, n);
    ok, c := FreePass(dev, 3 + byteIdx / SECTOR_SIZE, byteIdx % SECTOR_SIZE, bitIdx % 8, byteCnt, n,
                      3 * SECTOR_SIZE + bitIdx / 8);
  }

  /** What the pass over the run of `n` bits at bit `k` of byte `at` does to the image `d`. */
  ghost predicate Pass(d: seq<byte>, e: seq<byte>, at: nat, k: nat, n: nat, ok: bool, c: byte) {
    k < 8 && at + Whole(k, n) + 1 < |d| &&
    (ok <==> RunSet(d, at, k, n) && Bit(d[at + 1 + Whole(k, n)], 0)) &&
    (ok ==> Cleared(d[at], c, k, n) && e == Released(d, c, at, k, n))
  }

  /** The pass over the bytes of the map. */
  method FreePass(dev: Disk, sect0: nat, i0: nat, k: nat, byteCnt: int, n: nat, ghost at: nat)
    returns (ok: bool, ghost c: byte)
    requires dev.Valid() && sect0 < dev.sectors && i0 < SECTOR_SIZE && at == sect0 * SECTOR_SIZE + i0
    requires k < 8 && Count(byteCnt) == Whole(k, n) && at + Whole(k, n) + 1 < dev.bytes.Length
    requires 8 * byteCnt <= AfterFirst(k, n) && AfterFirst(k, n) - 8 * Count(byteCnt) == Rest(k, n)
    modifies dev.bytes, dev.fsbuf
    ensures Pass(old(dev.bytes[..]), dev.bytes[..], at, k, n, ok, c)
  {
    ghost var d := dev.bytes[..];
    var left;
    left, ok, c := ClearFirst(dev, sect0, i0, k, n, at);
    if ok {
      ok := ClearRest(dev, sect0, i0 + 1, byteCnt, left, at + 1);
      PassSteps(d, dev.bytes[..], c, at, k, n, ok);
    } else {
      PassStops(d, dev.bytes[..], c, at, k, n);
    }
  }

  /** Image `e` is image `d` with `w` full bytes from `at` on cleared and the low bits of the next one dropped. */
  ghost predicate RestCleared(d: seq<byte>, e: seq<byte>, at: nat, w: nat, left: nat, ok: bool) {
    at + w < |d| && left < 8 &&
    var f := ZeroBytes(d, at, w);
    (ok <==> AllFull(d, at, w) && Bit(f[at + w], 0)) && (ok ==> e == f[at + w := DropLow(f[at + w], left)])
  }

  /** The bytes behind the first one. */
  method ClearRest(dev: Disk, sect0: nat, i0: nat, cnt: int, n: nat, ghost at: nat) returns (ok: bool)
    requires At(dev, sect0, i0, at) && 8 * cnt <= n < 8 * Count(cnt) + 8 && at + Count(cnt) < dev.bytes.Length
    modifies dev.bytes, dev.fsbuf
    ensures RestCleared(old(Overlay(dev, sect0)), dev.bytes[..], at, Count(cnt), n - 8 * Count(cnt), ok)
  {
    var sect, i, left;
    sect, i, left, ok := ClearWhole(dev, sect0, i0, cnt, n, at);
    if ok {
      ok := ClearLast(dev, sect, i, left, at + Count(cnt));
    }
  }

  lemma PassStops(d: seq<byte>, g: seq<byte>, c: byte, at: nat, k: nat, n: nat)
    requires k < 8 && at + 1 + Whole(k, n) < |d| && !UpSet(d[at], k, n)
    ensures Pass(d, g, at, k, n, false, c)
  {
  }

  /** The three tests and the three changes of the pass, put together. */
  lemma PassSteps(d: seq<byte>, g: seq<byte>, c: byte, at: nat, k: nat, n: nat, ok: bool)
    requires k < 8 && at + 1 + Whole(k, n) < |d| && UpSet(d[at], k, n) && Cleared(d[at], c, k, n)
    requires RestCleared(d[at := c], g, at + 1, Whole(k, n), Rest(k, n), ok)
    ensures Pass(d, g, at, k, n, ok, c)
  {
    FullElsewhere(d, at, c, Whole(k, n));
    assert ZeroBytes(d[at := c], at + 1, Whole(k, n))[at + 1 + Whole(k, n)] == d[at + 1 + Whole(k, n)];
  }

  /** How much of a run of `n` bits is left after the byte it starts in, at bit `k`. */
  function AfterFirst(k: nat, n: nat): nat
    requires k < 8
  {
    if n < 8 - k then 0 else n - (8 - k)
  }

  /** The byte count the source computes, and the place of the first byte. */
  lemma RunLayout(bitIdx: nat, n: nat)
    ensures var byteIdx, k, cnt := bitIdx / 8, bitIdx % 8, TruncDiv(n - (8 - bitIdx % 8), 8);
            (3 + byteIdx / SECTOR_SIZE) * SECTOR_SIZE + byteIdx % SECTOR_SIZE == 3 * SECTOR_SIZE + byteIdx &&
            Count(cnt) == Whole(k, n) && 8 * cnt <= AfterFirst(k, n) && AfterFirst(k, n) - 8 * Count(cnt) == Rest(k, n)
  {
  }

  lemma FullElsewhere(d: seq<byte>, at: nat, c: byte, cnt: nat)
    requires at + 1 + cnt <= |d|
    ensures AllFull(d[at := c], at + 1, cnt) <==> AllFull(d, at + 1, cnt)
  {
    var e := d[at := c];
    assert forall x :: at + 1 <= x < at + 1 + cnt ==> e[x] == d[x];
  }

  /** Read the first sector of the run and clear the bits of its first byte. */
  method ClearFirst(dev: Disk, sect: nat, i: nat, k: nat, n: nat, ghost at: nat)
    returns (left: nat, ok: bool, ghost c: byte)
    requires dev.Valid() && sect < dev.sectors && i < SECTOR_SIZE && k < 8 && at == sect * SECTOR_SIZE + i
    modifies dev.fsbuf
    ensures ok <==> UpSet(dev.bytes[at], k, n)
    ensures ok ==> left == AfterFirst(k, n) && Cleared(dev.bytes[at], c, k, n)
    ensures ok ==> Overlay(dev, sect) == dev.bytes[..][at := c]
  {
    dev.RdSect(sect);
    SpliceBack(dev.bytes[..], sect * SECTOR_SIZE, dev.fsbuf[..SECTOR_SIZE]);
    assert dev.fsbuf[i] == Sectors(dev.bytes[..], sect, 1)[i];
    var first;
    first, left, ok := ClearUp(dev.fsbuf[i], k, n);
    c := first;
    if ok {
      Poke(dev, sect, i, first, at);
    }
  }

  /** The byte treated as last: its bit 0 is tested, its low bits are cleared, the sector goes back. */
  method ClearLast(dev: Disk, sect0: nat, i0: nat, left: nat, ghost at: nat) returns (ok: bool)
    requires At(dev, sect0, i0, at) && at < dev.bytes.Length && left < 8
    modifies dev.bytes, dev.fsbuf
    ensures ok <==> Bit(old(Overlay(dev, sect0))[at], 0)
    ensures ok ==> dev.bytes[..] == old(Overlay(dev, sect0))[at := DropLow(old(Overlay(dev, sect0))[at], left)]
  {
    var sect, i := Carry(dev, sect0, i0, at);
    ok := dev.fsbuf[i] & 1 != 0;
    if ok {
      Poke(dev, sect, i, DropLow(dev.fsbuf[i], left), at);
      dev.WrSect(sect);
    }
  }
}
