/** The inode map: set_imap (fs/main.c), alloc_imap_bit (fs/open.c) and the release of a number in do_unlink
    (fs/link.c), on the bits of the map. */
module InodeMap {
  import opened Bits
  import opened Device
  import opened SectorMap

  /** The numbers marked in a map. */
  ghost function Marks(bits: seq<bool>): set<nat> {
    set i: nat | i < |bits| && bits[i]
  }

  /** Setting the first clear bit. */
  lemma FillOne(bits: seq<bool>, p: nat)
    requires p < |bits| && !bits[p] && forall i :: 0 <= i < p ==> bits[i]
    ensures FirstZero(bits) == p && FillFirst(bits, 1) == bits[p := true]
  {
    assert FirstZero(bits) == p;
    FillBlock(bits, p, 1);
  }

  lemma MarksUpdate(bits: seq<bool>, p: nat)
    requires p < |bits|
    ensures Marks(bits[p := true]) == Marks(bits) + {p} && Marks(bits[p := false]) == Marks(bits) - {p}
  {
    forall i: nat ensures i in Marks(bits[p := true]) <==> i in Marks(bits) + {p} {}
    forall i: nat ensures i in Marks(bits[p := false]) <==> i in Marks(bits) - {p} {}
  }

  /** What allocation means for the set of numbers: one number that was not in it is added. */
  lemma AllocAddsOne(bits: seq<bool>)
    requires FirstZero(bits) < |bits|
    ensures FirstZero(bits) !in Marks(bits)
    ensures Marks(FillFirst(bits, 1)) == Marks(bits) + {FirstZero(bits)}
  {
    var p := FirstZero(bits);
    FillOne(bits, p);
    MarksUpdate(bits, p);
  }

  /** ... and release takes one away; together they leave the map as it was. */
  lemma AllocThenFree(bits: seq<bool>)
    requires FirstZero(bits) < |bits|
    ensures FillFirst(bits, 1)[FirstZero(bits)] && FillFirst(bits, 1)[FirstZero(bits) := false] == bits
  {
    FillOne(bits, FirstZero(bits));
  }

  /** The first clear bit of a byte that has one: the innermost loop. */
  method FirstClear(b: byte) returns (k: nat)
    requires b != 0xFF
    ensures k < 8 && !Bit(b, k) && forall j :: 0 <= j < k ==> Bit(b, j)
  {
    FullByte(b);
    k := 0;
    while b & Mask(k) != 0
      invariant 0 <= k < 8 && forall j :: 0 <= j < k ==> Bit(b, j)
      decreases 8 - k
    {
      assert Bit(b, k);
      k := k + 1;
    }
  }

  /** The loop over the bytes of the sector in the buffer, up to the first that is not full. */
  method FirstNotFull(dev: Disk) returns (j: nat)
    requires dev.Valid()
    ensures j <= SECTOR_SIZE && (j < SECTOR_SIZE ==> dev.fsbuf[j] != 0xFF)
    ensures forall x :: 0 <= x < j ==> dev.fsbuf[x] == 0xFF
  {
    j := 0;
    while j < SECTOR_SIZE && dev.fsbuf[j] == 0xFF
      invariant 0 <= j <= SECTOR_SIZE && forall x :: 0 <= x < j ==> dev.fsbuf[x] == 0xFF
    {
      j := j + 1;
    }
  }

  /** The bits of full bytes are set. */
  lemma FullPrefix(s: seq<byte>, j: nat)
    requires j <= |s| && forall x :: 0 <= x < j ==> s[x] == 0xFF
    ensures forall i :: 0 <= i < 8 * j ==> BitsOf(s)[i]
  {
    forall i | 0 <= i < 8 * j ensures BitsOf(s)[i] {
      FullByte(s[i / 8]);
    }
  }

  /** Bits of a byte string after one byte of it has changed in one bit. */
  lemma ByteBits(s: seq<byte>, x: nat, k: nat, b: byte, v: bool)
    requires x < |s| && k < 8
    requires forall j :: 0 <= j < 8 ==> Bit(b, j) == if j == k then v else Bit(s[x], j)
    ensures BitsOf(s[x := b]) == BitsOf(s)[8 * x + k := v]
  {
    var now, want := BitsOf(s[x := b]), BitsOf(s)[8 * x + k := v];
    forall i | 0 <= i < 8 * |s| ensures now[i] == want[i] {
      if i / 8 == x {
        assert i == 8 * x + i % 8;
      }
    }
  }

  lemma MarkedByte(b: byte, k: nat)
    requires k < 8
    ensures forall j :: 0 <= j < 8 ==> Bit(b | Mask(k), j) == if j == k then true else Bit(b, j)
    ensures forall j :: 0 <= j < 8 ==> Bit(b & !Mask(k), j) == if j == k then false else Bit(b, j)
  {
    forall j | 0 <= j < 8 ensures Bit(b | Mask(k), j) == if j == k then true else Bit(b, j) { SetBit(b, k, j); }
    forall j | 0 <= j < 8 ensures Bit(b & !Mask(k), j) == if j == k then false else Bit(b, j) { ClearBit(b, k, j); }
  }

  lemma FirstInSector(s: seq<byte>, j: nat, k: nat)
    requires j < |s| && k < 8 && !Bit(s[j], k) && forall i :: 0 <= i < k ==> Bit(s[j], i)
    requires forall x :: 0 <= x < j ==> s[x] == 0xFF
    ensures var p := 8 * j + k; FirstZero(BitsOf(s)) == p && FillFirst(BitsOf(s), 1) == BitsOf(s)[p := true]
  {
    var bits, p := BitsOf(s), 8 * j + k;
    FullPrefix(s, j);
    forall i | 8 * j <= i < p ensures bits[i] {
      assert i / 8 == j && i % 8 < k;
    }
    assert p / 8 == j && p % 8 == k;
    FillOne(bits, p);
  }

  /** alloc_imap_bit on the map of one sector, sector `map0`: the first clear bit is set and its number is the
      result; nothing else on the disk changes.  -1 where the source panics. */
  method AllocImapBit(dev: Disk, map0: nat) returns (nr: int)
    requires dev.Valid() && map0 < dev.sectors
    modifies dev.bytes, dev.fsbuf
    ensures SameOutside(dev.bytes[..], old(dev.bytes[..]), map0, 1)
    ensures var bits, now := BitsOf(Sectors(old(dev.bytes[..]), map0, 1)), BitsOf(Sectors(dev.bytes[..], map0, 1));
            (nr == -1 <==> FirstZero(bits) == |bits|) && (nr == -1 ==> now == bits) &&
            (nr != -1 ==> nr == FirstZero(bits) && now == FillFirst(bits, 1))
  {
    dev.RdSect(map0);
    ghost var s := Sectors(dev.bytes[..], map0, 1);
    assert dev.fsbuf[..SECTOR_SIZE] == s;
    var j := FirstNotFull(dev);
    assert forall x :: 0 <= x < j ==> s[x] == dev.fsbuf[x];
    if j == SECTOR_SIZE {
      FullPrefix(s, SECTOR_SIZE);
      return -1;
    }
    var b := dev.fsbuf[j];
    assert b == dev.fsbuf[..SECTOR_SIZE][j] == s[j];
    var k := FirstClear(b);
    FirstInSector(s, j, k);
    MarkedByte(b, k);
    dev.fsbuf[j] := b | Mask(k);
    ByteBits(s, j, k, b | Mask(k), true);
    StoreSector(dev, map0, s[j := b | Mask(k)]);
    return 8 * j + k;
  }

  /** WR_SECT of a sector whose contents are known. */
  method StoreSector(dev: Disk, sect: nat, ghost s: seq<byte>)
    requires dev.Valid() && sect < dev.sectors && dev.fsbuf[..SECTOR_SIZE] == s
    modifies dev.bytes
    ensures SameOutside(dev.bytes[..], old(dev.bytes[..]), sect, 1) && Sectors(dev.bytes[..], sect, 1) == s
  {
    dev.WrSect(sect);
  }

  /** The release of number `nr` in do_unlink: it stops exactly when the bit is not set, and otherwise clears
      it and nothing else. */
  method FreeImapBit(dev: Disk, map0: nat, nr: nat) returns (ok: bool)
    requires dev.Valid() && map0 < dev.sectors && nr < SECTOR_SIZE * 8
    modifies dev.bytes, dev.fsbuf
    ensures var bits, now := BitsOf(Sectors(old(dev.bytes[..]), map0, 1)), BitsOf(Sectors(dev.bytes[..], map0, 1));
            (ok <==> bits[nr]) && (ok ==> now == bits[nr := false])
    ensures SameOutside(dev.bytes[..], old(dev.bytes[..]), map0, 1)
  {
    dev.RdSect(map0);
    ghost var s := Sectors(dev.bytes[..], map0, 1);
    var j, k := nr / 8, nr % 8;
    var b := dev.fsbuf[j];
    assert b == dev.fsbuf[..SECTOR_SIZE][j] == s[j];
    ok := b & Mask(k) != 0;
    assert ok == Bit(s[j], k) == BitsOf(s)[nr];
    if ok {
      MarkedByte(b, k);
      dev.fsbuf[j] := b & !Mask(k);
      ByteBits(s, j, k, b & !Mask(k), false);
      StoreSector(dev, map0, s[j := b & !Mask(k)]);
    }
  }

  /** set_imap: the reserved number, the root directory, three terminals and cmd.tar are marked. */
  method SetImap(dev: Disk, map0: nat)
    requires dev.Valid() && map0 < dev.sectors
    modifies dev.bytes, dev.fsbuf
    ensures SameOutside(dev.bytes[..], old(dev.bytes[..]), map0, 1)
    ensures Marks(BitsOf(Sectors(dev.bytes[..], map0, 1))) == {0, 1, 2, 3, 4, 5}
  {
    ghost var d := dev.bytes[..];
    for i := 0 to SECTOR_SIZE
      invariant dev.bytes[..] == d && forall x :: 0 <= x < i ==> dev.fsbuf[x] == 0
    {
      dev.fsbuf[i] := 0;
    }
    for i := 0 to 6
      invariant dev.bytes[..] == d && forall x :: 1 <= x < SECTOR_SIZE ==> dev.fsbuf[x] == 0
      invariant LowBits(dev.fsbuf[0], i)
    {
      NextLow(dev.fsbuf[0], i);
      dev.fsbuf[0] := dev.fsbuf[0] | Mask(i);
    }
    ghost var s := dev.fsbuf[..SECTOR_SIZE];
    SixBits(s);
    StoreSector(dev, map0, s);
  }

  /** The bits below n are set and no other. */
  ghost predicate LowBits(b: byte, n: nat) {
    forall j :: 0 <= j < 8 ==> (Bit(b, j) <==> j < n)
  }

  lemma NextLow(b: byte, n: nat)
    requires n < 8 && LowBits(b, n)
    ensures LowBits(b | Mask(n), n + 1)
  {
    var c := b | Mask(n);
    forall j | 0 <= j < 8 ensures Bit(c, j) <==> j < n + 1 {
      SetBit(b, n, j);
    }
  }

  lemma SixBits(s: seq<byte>)
    requires 0 < |s| && (forall x :: 1 <= x < |s| ==> s[x] == 0) && LowBits(s[0], 6)
    ensures Marks(BitsOf(s)) == {0, 1, 2, 3, 4, 5}
  {
    var bits := BitsOf(s);
    forall i | 0 <= i < 8 * |s| ensures bits[i] <==> i < 6 {
      if 8 <= i {
        assert s[i / 8] == 0;
      }
    }
  }
}
