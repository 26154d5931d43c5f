/** The disk the file system sees: a byte-addressed device behind `rw_sector`, and the one buffer
    `fsbuf` everything goes through. */
module Device {
  import opened Bits

  const SECTOR_SIZE := 512

  /** `s` with `t` written over it at `at`. */
  function Splice(s: seq<byte>, at: nat, t: seq<byte>): (r: seq<byte>)
    requires at + |t| <= |s|
    ensures |r| == |s|
    ensures forall i :: 0 <= i < |s| ==> r[i] == if at <= i < at + |t| then t[i - at] else s[i]
  {
    s[..at] + t + s[at + |t|..]
  }

  /** The bytes of the sectors [first, first + n) of a disk image. */
  function Sectors(d: seq<byte>, first: nat, n: nat): (r: seq<byte>)
    requires (first + n) * SECTOR_SIZE <= |d|
    ensures |r| == n * SECTOR_SIZE
  {
    d[first * SECTOR_SIZE..(first + n) * SECTOR_SIZE]
  }

  /** Two images differ at most in the sectors [first, first + n). */
  ghost predicate SameOutside(d: seq<byte>, e: seq<byte>, first: nat, n: nat) {
    |d| == |e| && forall i :: 0 <= i < |d| && !(first * SECTOR_SIZE <= i < (first + n) * SECTOR_SIZE) ==> d[i] == e[i]
  }

  lemma SpliceBack(d: seq<byte>, at: nat, t: seq<byte>)
    requires at + |t| <= |d| && d[at..at + |t|] == t
    ensures Splice(d, at, t) == d
  {
  }

  lemma SliceOfSlice(d: seq<byte>, a: nat, n: nat, off: nat, m: nat)
    requires a + n <= |d| && off + m <= n
    ensures d[a..a + n][off..off + m] == d[a + off..a + off + m]
  {
    var s, x, y, b := d[a..a + n], d[a..a + n][off..off + m], d[a + off..a + off + m], a + off;
    forall i | 0 <= i < m ensures x[i] == y[i] {
      assert x[i] == s[off + i] == d[a + (off + i)];
      assert y[i] == d[b + i];
    }
  }

  /** A window of a sector that has been read is the same window of the disk. */
  lemma SectorWindow(d: seq<byte>, buf: seq<byte>, sect: nat, off: nat, m: nat)
    requires (sect + 1) * SECTOR_SIZE <= |d| && SECTOR_SIZE <= |buf| && buf[..SECTOR_SIZE] == Sectors(d, sect, 1)
    requires off + m <= SECTOR_SIZE
    ensures buf[off..off + m] == d[sect * SECTOR_SIZE + off..sect * SECTOR_SIZE + off + m]
  {
    SliceOfSlice(buf, 0, SECTOR_SIZE, off, m);
    SliceOfSlice(d, sect * SECTOR_SIZE, SECTOR_SIZE, off, m);
  }

  /** A sector read, changed in one place and written back. */
  lemma SectorStore(d: seq<byte>, sect: nat, off: nat, t: seq<byte>, buf: seq<byte>, now: seq<byte>)
    requires (sect + 1) * SECTOR_SIZE <= |d| && SECTOR_SIZE <= |buf| && off + |t| <= SECTOR_SIZE
    requires buf[..SECTOR_SIZE] == Sectors(d, sect, 1) && now == Splice(buf, off, t)
    ensures Splice(d, sect * SECTOR_SIZE, now[..SECTOR_SIZE]) == Splice(d, sect * SECTOR_SIZE + off, t)
  {
    var a, x := Splice(d, sect * SECTOR_SIZE, now[..SECTOR_SIZE]), sect * SECTOR_SIZE;
    forall i | x <= i < x + SECTOR_SIZE && !(x + off <= i < x + off + |t|) ensures a[i] == d[i] {
      assert now[i - x] == buf[i - x] == buf[..SECTOR_SIZE][i - x] == Sectors(d, sect, 1)[i - x];
    }
  }

  class Disk {
    const sectors: nat
    const bytes: array<byte>
    const fsbuf: array<byte>

    ghost predicate Valid() {
      bytes != fsbuf && SECTOR_SIZE <= fsbuf.Length && bytes.Length == sectors * SECTOR_SIZE
    }

    constructor (sectors: nat, bufSize: nat)
      requires SECTOR_SIZE <= bufSize
      ensures Valid() && fresh(bytes) && fresh(fsbuf) && this.sectors == sectors && fsbuf.Length == bufSize
    {
      this.sectors := sectors;
      bytes := new byte[sectors * SECTOR_SIZE];
      fsbuf := new byte[bufSize];
    }

    /** rw_sector with DEV_READ. */
    method Read(pos: nat, n: nat)
      requires Valid() && pos + n <= bytes.Length && n <= fsbuf.Length
      modifies fsbuf
      ensures fsbuf[..] == Splice(old(fsbuf[..]), 0, bytes[pos..pos + n])
    {
      forall i | 0 <= i < n {
        fsbuf[i] := bytes[pos + i];
      }
    }

    /** rw_sector with DEV_WRITE. */
    method Write(pos: nat, n: nat)
      requires Valid() && pos + n <= bytes.Length && n <= fsbuf.Length
      modifies bytes
      ensures bytes[..] == Splice(old(bytes[..]), pos, fsbuf[..n])
    {
      forall i | 0 <= i < n {
        bytes[pos + i] := fsbuf[i];
      }
    }

    /** Put `t` at offset `off` of the buffer. */
    method Fill(off: nat, t: seq<byte>)
      requires Valid() && off + |t| <= fsbuf.Length
      modifies fsbuf
      ensures fsbuf[..] == Splice(old(fsbuf[..]), off, t)
    {
      forall i | 0 <= i < |t| {
        fsbuf[off + i] := t[i];
      }
    }

    /** RD_SECT. */
    method RdSect(sect: nat)
      requires Valid() && sect < sectors
      modifies fsbuf
      ensures fsbuf[..SECTOR_SIZE] == Sectors(bytes[..], sect, 1)
      ensures fsbuf[SECTOR_SIZE..] == old(fsbuf[SECTOR_SIZE..])
    {
      Read(sect * SECTOR_SIZE, SECTOR_SIZE);
    }

    /** WR_SECT. */
    method WrSect(sect: nat)
      requires Valid() && sect < sectors
      modifies bytes
      ensures bytes[..] == Splice(old(bytes[..]), sect * SECTOR_SIZE, fsbuf[..SECTOR_SIZE])
    {
      Write(sect * SECTOR_SIZE, SECTOR_SIZE);
    }

    /** Read a sector, put `t` at offset `off` of it and write it back. */
    method Update(sect: nat, off: nat, t: seq<byte>)
      requires Valid() && sect < sectors && off + |t| <= SECTOR_SIZE
      modifies bytes, fsbuf
      ensures bytes[..] == Splice(old(bytes[..]), sect * SECTOR_SIZE + off, t)
    {
      RdSect(sect);
      ghost var buf := fsbuf[..];
      Fill(off, t);
      SectorStore(bytes[..], sect, off, t, buf, fsbuf[..]);
      WrSect(sect);
    }
  }
}
