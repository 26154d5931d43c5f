/** Reading and writing regular files: the chunked read-modify-write loop of do_rdwt (fs/read_write.c)
    against a byte splice of the disk. */
module FileIo {
  import opened Bits
  import opened Device

  const FSBUF_SECTS := 2048
  const FSBUF_SIZE := 0x100000

  /** The cached inode of a regular file: `i_size`, `i_start_sect`, `i_nr_sects`. */
  class Inode {
    var size: nat
    const start: nat
    const nrSects: nat

    constructor (start: nat, nrSects: nat)
      ensures this.start == start && this.nrSects == nrSects && size == 0
    {
      this.start, this.nrSects, size := start, nrSects, 0;
    }

    function Capacity(): nat {
      nrSects * SECTOR_SIZE
    }
  }

  /** A descriptor: `fd_pos` and `fd_inode`. */
  class FileDesc {
    var pos: nat
    const node: Inode

    constructor (node: Inode)
      ensures this.node == node && pos == 0
    {
      this.node, pos := node, 0;
    }
  }

  function Min(a: int, b: int): int {
    if a > b then b else a
  }

  function Max(a: int, b: int): int {
    if a > b then a else b
  }

  /** How many sectors one turn of the loop moves. */
  function Chunk(pos: nat, posEnd: nat): int {
    Min(posEnd / SECTOR_SIZE - pos / SECTOR_SIZE + 1, FSBUF_SECTS)
  }

  /** The first sector, counted from the start of the file, that the loop does not touch. */
  function Reach(pos: nat, posEnd: nat): int {
    if posEnd / SECTOR_SIZE - pos / SECTOR_SIZE < FSBUF_SECTS then posEnd / SECTOR_SIZE + 1
    else pos / SECTOR_SIZE + 2 * FSBUF_SECTS
  }

  /** How often the loop runs for a file of at most 2048 sectors. */
  function Turns(pos: nat, posEnd: nat): nat {
    if posEnd / SECTOR_SIZE < pos / SECTOR_SIZE then 0
    else if posEnd / SECTOR_SIZE - pos / SECTOR_SIZE < FSBUF_SECTS then 1 else 2
  }

  /** How many bytes fit into `turns` chunks of `stretch` bytes, the first `off` of which are skipped. */
  function Room(turns: nat, stretch: int, off: nat): int {
    if turns == 0 then 0 else if turns == 1 then stretch - off else 2 * stretch - off
  }

  /** Where a write of `cnt` bytes at `pos` ends in a file of `cap` bytes, as the source clips it. */
  function WriteEnd(cap: nat, pos: nat, cnt: nat): nat {
    Min(cap, pos + cnt)
  }

  /** How many bytes a write of `cnt` bytes at `pos` counts, and moves the position by. */
  function Counted(cap: nat, pos: nat, cnt: nat): int {
    var end := WriteEnd(cap, pos, cnt);
    Min(cnt, Room(Turns(pos, end), Chunk(pos, end) * SECTOR_SIZE, 0))
  }

  /** How many bytes of it reach the disk: everything up to the end of its last chunk. */
  function Landed(cap: nat, pos: nat, cnt: nat): int {
    var end := WriteEnd(cap, pos, cnt);
    Min(cnt, Room(Turns(pos, end), Chunk(pos, end) * SECTOR_SIZE, pos % SECTOR_SIZE))
  }

  /** Read a stretch, write over part of the buffer, write the stretch back: the disk is spliced. */
  lemma ReadModifyWrite(d: seq<byte>, buf: seq<byte>, a: nat, n: nat, off: nat, t: seq<byte>)
    requires a + n <= |d| && n <= |buf| && off + |t| <= |buf| && off <= n
    ensures Splice(d, a, Splice(Splice(buf, 0, d[a..a + n]), off, t)[..n]) == Splice(d, a + off, t[..Min(|t|, n - off)])
  {
  }

  /** One turn of the loop for a write: `t` replaces the bytes at `off` of the `n` bytes from `a` on. */
  method WriteTurn(dev: Disk, a: nat, n: nat, off: nat, t: seq<byte>)
    requires dev.Valid() && a + n <= dev.bytes.Length && n <= dev.fsbuf.Length && off + |t| <= dev.fsbuf.Length
    requires off <= n
    modifies dev.bytes, dev.fsbuf
    ensures dev.bytes[..] == Splice(old(dev.bytes[..]), a + off, t[..Min(|t|, n - off)])
  {
    ReadModifyWrite(dev.bytes[..], dev.fsbuf[..], a, n, off, t);
    dev.Read(a, n);
    dev.Fill(off, t);
    ghost var buf := dev.fsbuf[..];
    dev.Write(a, n);
    assert buf[..n] == dev.fsbuf[..n];
  }

  /** From image `d` to image `e` the first `landed` bytes of `data` were written at `at`, and nothing else. */
  ghost predicate Written(d: seq<byte>, e: seq<byte>, at: nat, data: seq<byte>, landed: int) {
    0 <= landed <= |data| &&
    if landed == 0 then e == d else at + landed <= |d| && e == Splice(d, at, data[..landed])
  }

  /** Writing the next part of `data` right behind the first. */
  lemma WriteNext(d: seq<byte>, e: seq<byte>, f: seq<byte>, at: nat, data: seq<byte>, landed: nat, more: nat, here: nat)
    requires Written(d, e, at, data, landed) && landed + more <= |data|
    requires more == 0 ==> f == e
    requires 0 < more ==> here == at + landed && here + more <= |e| && f == Splice(e, here, data[landed..landed + more])
    ensures Written(d, f, at, data, landed + more)
  {
  }

  /** The loop goes over the sectors from `beg` to `end` in `turns` steps of `chunk`; only a write that
      starts with a sector or ends in the first chunk needs two, or else it would overrun the buffer. */
  ghost predicate Planned(beg: nat, end: nat, chunk: int, off: nat, cnt: nat, turns: nat, sectors: nat) {
    off < SECTOR_SIZE && turns <= 2 && (turns == 0 ==> end < beg) &&
    (0 < turns ==> 0 < chunk <= FSBUF_SECTS && off + Min(cnt, chunk * SECTOR_SIZE) <= FSBUF_SIZE) &&
    (turns == 1 ==> beg <= end < beg + chunk && beg + chunk <= sectors) &&
    (turns == 2 ==> beg + chunk <= end < beg + 2 * chunk && beg + 2 * chunk <= sectors &&
                    (off == 0 || off + cnt <= chunk * SECTOR_SIZE))
  }

  /** Where the loop stands when it has come to sector i: the offset there, and how many of `cnt` bytes have
      been counted and have reached the disk. */
  ghost predicate Stands(i: nat, beg: nat, off0: nat, cnt: nat, off: nat, proc: int, landed: int) {
    beg <= i && proc == Min(cnt, (i - beg) * SECTOR_SIZE) &&
    if i == beg then off == off0 && landed == 0 else off == 0 && landed == Min(cnt, (i - beg) * SECTOR_SIZE - off0)
  }

  /** The sectors the loop can come to. */
  ghost predicate Index(i: nat, beg: nat, end: nat, chunk: int) {
    i == beg || (i == beg + chunk && beg <= end) || (i == beg + 2 * chunk && beg + chunk <= end)
  }

  lemma NextTurn(i: nat, beg: nat, end: nat, chunk: nat, off0: nat, cnt: nat, turns: nat, sectors: nat,
                 off: nat, proc: int, landed: int, left: int, more: int)
    requires Planned(beg, end, chunk, off0, cnt, turns, sectors) && i <= end && Index(i, beg, end, chunk)
    requires Stands(i, beg, off0, cnt, off, proc, landed) && left == cnt - proc
    requires more == Min(left, chunk * SECTOR_SIZE - off)
    ensures 0 <= proc <= cnt && off <= chunk * SECTOR_SIZE <= FSBUF_SIZE && i + chunk <= sectors
    ensures off + Min(left, chunk * SECTOR_SIZE) <= FSBUF_SIZE && 0 <= landed && 0 <= more && landed + more <= cnt
    ensures 0 < more ==> proc == landed && i * SECTOR_SIZE + off == beg * SECTOR_SIZE + off0 + landed
    ensures 0 < chunk && Index(i + chunk, beg, end, chunk)
    ensures Stands(i + chunk, beg, off0, cnt, 0, proc + Min(left, chunk * SECTOR_SIZE), landed + more)
  {
  }

  lemma LastTurn(i: nat, beg: nat, end: nat, chunk: int, off0: nat, cnt: nat, turns: nat, sectors: nat,
                 off: nat, proc: int, landed: int)
    requires Planned(beg, end, chunk, off0, cnt, turns, sectors) && end < i && Index(i, beg, end, chunk)
    requires Stands(i, beg, off0, cnt, off, proc, landed)
    ensures proc == Min(cnt, Room(turns, chunk * SECTOR_SIZE, 0))
    ensures landed == Min(cnt, Room(turns, chunk * SECTOR_SIZE, off0))
  {
  }

  /** One turn of the loop: from where it stands to where it stands after one more. */
  method TakeTurn(dev: Disk, fd: FileDesc, data: seq<byte>, here: nat, stretch: nat, off: nat, proc: nat, left: nat,
                  ghost d: seq<byte>, ghost at: nat, ghost landed: int, ghost more: int)
    returns (proc': nat, left': nat)
    requires dev.Valid() && dev.fsbuf.Length == FSBUF_SIZE && proc + left == |data| && more == Min(left, stretch - off)
    requires off <= stretch <= FSBUF_SIZE && here + stretch <= dev.bytes.Length
    requires off + Min(left, stretch) <= FSBUF_SIZE
    requires Written(d, dev.bytes[..], at, data, landed) && 0 <= more && landed + more <= |data|
    requires 0 < more ==> proc == landed && here + off == at + landed
    modifies dev.bytes, dev.fsbuf, fd`pos
    ensures proc' == proc + Min(left, stretch) && proc' + left' == |data| && fd.pos == old(fd.pos) + (proc' - proc)
    ensures Written(d, dev.bytes[..], at, data, landed + more)
  {
    ghost var e, to := dev.bytes[..], here + off;
    proc', left' := MoveChunk(dev, fd, data, here + off, stretch, off, proc, left, more);
    WriteNext(d, e, dev.bytes[..], at, data, landed, more, to);
  }

  /** The body of the loop, as seen from the plan. */
  method NextChunk(dev: Disk, fd: FileDesc, data: seq<byte>, i: nat, chunk: nat, off: nat, proc: nat, left: nat,
                   ghost beg: nat, ghost end: nat, ghost off0: nat, ghost turns: nat, ghost d: seq<byte>, ghost at: nat,
                   ghost landed: int)
    returns (proc': nat, left': nat, ghost landed': int)
    requires dev.Valid() && dev.fsbuf.Length == FSBUF_SIZE && at == beg * SECTOR_SIZE + off0
    requires Planned(beg, end, chunk, off0, |data|, turns, dev.sectors) && i <= end && Index(i, beg, end, chunk)
    requires Stands(i, beg, off0, |data|, off, proc, landed) && proc + left == |data|
    requires Written(d, dev.bytes[..], at, data, landed)
    modifies dev.bytes, dev.fsbuf, fd`pos
    ensures Index(i + chunk, beg, end, chunk) && Stands(i + chunk, beg, off0, |data|, 0, proc', landed')
    ensures proc <= proc' && proc' + left' == |data| && fd.pos == old(fd.pos) + (proc' - proc)
    ensures Written(d, dev.bytes[..], at, data, landed')
  {
    ghost var more := Min(left, chunk * SECTOR_SIZE - off);
    NextTurn(i, beg, end, chunk, off0, |data|, turns, dev.sectors, off, proc, landed, left, more);
    proc', left' := TakeTurn(dev, fd, data, i * SECTOR_SIZE, chunk * SECTOR_SIZE, off, proc, left, d, at, landed, more);
    landed' := landed + more;
  }

  /** The loop of do_rdwt for a write. */
  method WriteLoop(dev: Disk, fd: FileDesc, data: seq<byte>, beg: nat, end: nat, chunk: int, off0: nat,
                   ghost turns: nat, ghost at: nat)
    returns (proc: nat)
    requires dev.Valid() && dev.fsbuf.Length == FSBUF_SIZE && at == beg * SECTOR_SIZE + off0
    requires Planned(beg, end, chunk, off0, |data|, turns, dev.sectors)
    modifies dev.bytes, dev.fsbuf, fd`pos
    ensures proc == Min(|data|, Room(turns, chunk * SECTOR_SIZE, 0)) && fd.pos == old(fd.pos) + proc
    ensures Written(old(dev.bytes[..]), dev.bytes[..], at, data, Min(|data|, Room(turns, chunk * SECTOR_SIZE, off0)))
  {
    var off: nat, left: nat, i: nat := off0, |data|, beg;
    proc := 0;
    ghost var d, landed := dev.bytes[..], 0;
    while i <= end
      invariant Index(i, beg, end, chunk) && Stands(i, beg, off0, |data|, off, proc, landed)
      invariant proc + left == |data| && fd.pos == old(fd.pos) + proc
      invariant Written(d, dev.bytes[..], at, data, landed)
      decreases end + chunk - i
    {
      proc, left, landed := NextChunk(dev, fd, data, i, chunk, off, proc, left, beg, end, off0, turns, d, at, landed);
      off := 0;
      i := i + chunk;
    }
    LastTurn(i, beg, end, chunk, off0, |data|, turns, dev.sectors, off, proc, landed);
  }

  /** The body of the loop for a write: `landed` bytes of the data from `proc` on reach the disk at `at`. */
  method MoveChunk(dev: Disk, fd: FileDesc, data: seq<byte>, at: nat, stretch: nat, off: nat, proc: nat, left: nat,
                   ghost landed: nat)
    returns (proc': nat, left': nat)
    requires dev.Valid() && stretch <= dev.fsbuf.Length && off <= stretch && proc + left == |data|
    requires off <= at && at - off + stretch <= dev.bytes.Length && off + Min(left, stretch) <= dev.fsbuf.Length
    requires landed == Min(left, stretch - off)
    modifies dev.bytes, dev.fsbuf, fd`pos
    ensures proc' == proc + Min(left, stretch) && left' == left - Min(left, stretch)
    ensures fd.pos == old(fd.pos) + (proc' - proc)
    ensures dev.bytes[..] == Splice(old(dev.bytes[..]), at, data[proc..proc + landed])
    ensures landed == 0 ==> dev.bytes[..] == old(dev.bytes[..])
  {
    var bytes := Min(stretch, left);
    var t := data[proc..proc + bytes];
    WriteTurn(dev, at - off, stretch, off, t);
    assert t[..Min(|t|, stretch - off)] == data[proc..proc + landed];
    proc', left' := proc + bytes, left - bytes;
    fd.pos := fd.pos + bytes;
  }

  /** A write up to the end of its loop. */
  method WriteSectors(dev: Disk, fd: FileDesc, data: seq<byte>, ghost cap: nat, ghost at: nat) returns (n: nat)
    requires dev.Valid() && dev.fsbuf.Length == FSBUF_SIZE && fd.node.nrSects <= FSBUF_SECTS
    requires cap == fd.node.Capacity() && at == fd.node.start * SECTOR_SIZE + fd.pos
    requires CanWrite(fd.node.start, cap, fd.pos, |data|, dev.sectors)
    modifies dev.bytes, dev.fsbuf, fd`pos
    ensures n == Counted(cap, old(fd.pos), |data|) && fd.pos == old(fd.pos) + n
    ensures Written(old(dev.bytes[..]), dev.bytes[..], at, data, Landed(cap, old(fd.pos), |data|))
  {
    var pos, cnt := fd.pos, |data|;
    var posEnd := Min(fd.node.Capacity(), pos + cnt);
    var off := pos % SECTOR_SIZE;
    var sectBeg, sectEnd := fd.node.start + pos / SECTOR_SIZE, fd.node.start + posEnd / SECTOR_SIZE;
    var chunk := Min(sectEnd - sectBeg + 1, FSBUF_SECTS);
    ghost var turns := Turns(pos, posEnd);
    WritePlan(fd.node.start, cap, pos, cnt, dev.sectors, posEnd, sectBeg, sectEnd, chunk, off, turns);
    n := WriteLoop(dev, fd, data, sectBeg, sectEnd, chunk, off, turns, at);
  }

  /** do_rdwt with WRITE on a regular file of at most 2048 sectors, at any position.  Within the capacity
      it is a splice of all of `data`; beyond it, the part of `data` up to the end of its last chunk reaches
      the disk. */
  method DoWrite(dev: Disk, fd: FileDesc, data: seq<byte>) returns (n: nat)
    requires dev.Valid() && dev.fsbuf.Length == FSBUF_SIZE && fd.node.nrSects <= FSBUF_SECTS
    requires CanWrite(fd.node.start, fd.node.Capacity(), fd.pos, |data|, dev.sectors)
    modifies dev.bytes, dev.fsbuf, fd, fd.node
    ensures n == Counted(fd.node.Capacity(), old(fd.pos), |data|) && fd.pos == old(fd.pos) + n
    ensures fd.node.size == if old(fd.node.size) < fd.pos then fd.pos else old(fd.node.size)
    ensures Moved(fd.pos, fd.node.size) == AfterWrite(Moved(old(fd.pos), old(fd.node.size)), fd.node.Capacity(), |data|)
    ensures Written(old(dev.bytes[..]), dev.bytes[..], fd.node.start * SECTOR_SIZE + old(fd.pos), data,
                    Landed(fd.node.Capacity(), old(fd.pos), |data|))
  {
    n := WriteSectors(dev, fd, data, fd.node.Capacity(), fd.node.start * SECTOR_SIZE + fd.pos);
    if fd.pos > fd.node.size {
      fd.node.size := fd.pos;
    }
  }

  /** A position and the size of its file. */
  datatype Moved = Moved(pos: nat, size: nat)

  /** What a write of `cnt` bytes does to them. */
  function AfterWrite(m: Moved, cap: nat, cnt: nat): Moved {
    var pos := m.pos + Max(0, Counted(cap, m.pos, cnt));
    Moved(pos, Max(m.size, pos))
  }

  /** The disk is long enough for the chunks the loop moves, and the buffer for what is copied into it. */
  ghost predicate CanWrite(start: nat, cap: nat, pos: nat, cnt: nat, sectors: nat) {
    var end := WriteEnd(cap, pos, cnt);
    0 < Turns(pos, end) ==>
      start + Reach(pos, end) <= sectors && pos % SECTOR_SIZE + Min(cnt, Chunk(pos, end) * SECTOR_SIZE) <= FSBUF_SIZE
  }

  /** A write within the capacity always fits into the buffer, and all of it lands. */
  lemma InCapacityFits(start: nat, cap: nat, pos: nat, cnt: nat, sectors: nat)
    requires pos + cnt <= cap <= FSBUF_SIZE && cap % SECTOR_SIZE == 0 && start + Reach(pos, pos + cnt) <= sectors
    ensures CanWrite(start, cap, pos, cnt, sectors)
    ensures Landed(cap, pos, cnt) == Counted(cap, pos, cnt) == cnt
  {
  }

  /** What the source computes before the loop is a plan for it. */
  lemma WritePlan(start: nat, cap: nat, pos: nat, cnt: nat, sectors: nat,
                  posEnd: nat, beg: nat, end: nat, chunk: int, off: nat, turns: nat)
    requires cap <= FSBUF_SIZE && cap % SECTOR_SIZE == 0 && CanWrite(start, cap, pos, cnt, sectors)
    requires posEnd == WriteEnd(cap, pos, cnt) && off == pos % SECTOR_SIZE && turns == Turns(pos, posEnd)
    requires beg == start + pos / SECTOR_SIZE && end == start + posEnd / SECTOR_SIZE
    requires chunk == Min(end - beg + 1, FSBUF_SECTS)
    ensures Planned(beg, end, chunk, off, cnt, turns, sectors) && beg * SECTOR_SIZE + off == start * SECTOR_SIZE + pos
    ensures Counted(cap, pos, cnt) == Min(cnt, Room(turns, chunk * SECTOR_SIZE, 0))
    ensures Landed(cap, pos, cnt) == Min(cnt, Room(turns, chunk * SECTOR_SIZE, off))
  {
  }

  /** A write lands exactly on its own bytes of the file when it stays within the capacity, and only
      then. */
  lemma WriteStaysInFile(cap: nat, pos: nat, cnt: nat)
    requires cap <= FSBUF_SIZE && cap % SECTOR_SIZE == 0
    ensures pos + cnt <= cap ==> Landed(cap, pos, cnt) == Counted(cap, pos, cnt) == cnt
    ensures pos + Landed(cap, pos, cnt) <= cap <==> pos + cnt <= cap
  {
  }

  /** How much a write counts and how much of it lands, at any position: with `end` its end clipped to the
      capacity, it counts whole sectors from that of the position to that of `end`, and lands up to the end
      of that sector.  A stretch of 2049 sectors is taken as two buffers.  Behind the last sector nothing
      is written. */
  lemma WriteCounts(cap: nat, pos: nat, cnt: nat, first: nat, last: nat)
    requires cap <= FSBUF_SIZE && cap % SECTOR_SIZE == 0
    requires first == pos / SECTOR_SIZE && last == (if pos + cnt < cap then pos + cnt else cap) / SECTOR_SIZE
    ensures last < first ==> Counted(cap, pos, cnt) == Landed(cap, pos, cnt) == 0
    ensures first <= last < first + FSBUF_SECTS ==>
              Counted(cap, pos, cnt) == Min(cnt, (last + 1 - first) * SECTOR_SIZE) &&
              Landed(cap, pos, cnt) == Min(cnt, (last + 1) * SECTOR_SIZE - pos)
    ensures first + FSBUF_SECTS <= last ==>
              first == 0 && Counted(cap, pos, cnt) == Min(cnt, 2 * FSBUF_SIZE) &&
              Landed(cap, pos, cnt) == Min(cnt, 2 * FSBUF_SIZE - pos)
  {
  }

  /** A file as create_file makes it, of 2048 sectors: one hundred bytes written six bytes before its end
      all reach the disk, 94 of them behind the file. */
  lemma WriteMayLeaveFile()
    ensures CanWrite(300, FSBUF_SIZE, FSBUF_SIZE - 6, 100, 5000) && Landed(FSBUF_SIZE, FSBUF_SIZE - 6, 100) == 100
  {
  }

  /** A write of 2 MB to the start of such a file fills it and the 2048 sectors behind it. */
  lemma WriteMayFillNextFile()
    ensures CanWrite(300, FSBUF_SIZE, 0, 2 * FSBUF_SIZE, 5000)
    ensures Landed(FSBUF_SIZE, 0, 2 * FSBUF_SIZE) == 2 * FSBUF_SIZE
  {
  }

  // ---------------------------------------------------------------- reading

  /** phys_copy from `fsbuf` to the caller's memory. */
  method CopyOut(dev: Disk, off: nat, user: array<byte>, at: nat, n: nat)
    requires dev.Valid() && off + n <= dev.fsbuf.Length && at + n <= user.Length && user != dev.fsbuf
    modifies user
    ensures user[..] == Splice(old(user[..]), at, dev.fsbuf[off..off + n])
  {
    forall i | 0 <= i < n {
      user[at + i] := dev.fsbuf[off + i];
    }
  }

  /** How many bytes a read of `cnt` bytes returns. */
  function Readable(size: nat, pos: nat, cnt: nat): nat {
    if pos <= size then Min(size, pos + cnt) - pos else 0
  }

  /** `n` is the greatest number of bytes, at most `cnt`, that lie between `pos` and the end of a file of
      `size` bytes. */
  ghost predicate IsReadCount(size: nat, pos: nat, cnt: nat, n: nat) {
    n <= cnt && InFile(size, pos, n) && forall k: nat :: k <= cnt && InFile(size, pos, k) ==> k <= n
  }

  predicate InFile(size: nat, pos: nat, n: nat) {
    n == 0 || pos + n <= size
  }

  lemma ReadableIsCount(size: nat, pos: nat, cnt: nat)
    ensures IsReadCount(size, pos, cnt, Readable(size, pos, cnt))
    ensures AfterRead(Moved(pos, size), cnt) ==
            Moved(pos + Readable(size, pos, cnt), if size < pos then pos else size)
  {
  }

  /** What a read of `cnt` bytes does to the position and the size. */
  function AfterRead(m: Moved, cnt: nat): Moved {
    Moved(m.pos + Readable(m.size, m.pos, cnt), Max(m.size, m.pos))
  }

  /** Read the `n` bytes from `a` on. */
  method Fetch(dev: Disk, a: nat, n: nat)
    requires dev.Valid() && a + n <= dev.bytes.Length && n <= dev.fsbuf.Length
    modifies dev.fsbuf
    ensures dev.fsbuf[..n] == dev.bytes[a..a + n]
  {
    dev.Read(a, n);
  }

  /** Hand the first `m` bytes at `off` of the fetched stretch to the caller. */
  method Deliver(dev: Disk, off: nat, user: array<byte>, at: nat, m: nat, ghost a: nat, ghost n: nat)
    requires dev.Valid() && a + n <= dev.bytes.Length && n <= dev.fsbuf.Length && dev.fsbuf[..n] == dev.bytes[a..a + n]
    requires off + m <= n && at + m <= user.Length && user != dev.fsbuf && user != dev.bytes
    modifies user
    ensures user[..] == Splice(old(user[..]), at, dev.bytes[a + off..a + off + m])
  {
    SliceOfSlice(dev.fsbuf[..], 0, n, off, m);
    assert dev.fsbuf[..][0..n] == dev.fsbuf[..n];
    SliceOfSlice(dev.bytes[..], a, n, off, m);
    CopyOut(dev, off, user, at, m);
  }

  /** The loop of do_rdwt for a read. */
  method ReadLoop(dev: Disk, fd: FileDesc, user: array<byte>, cnt: nat, posEnd: nat, beg: nat, end: nat, chunk: int,
                  off0: nat, ghost m: nat, ghost at: nat)
    returns (proc: nat)
    requires dev.Valid() && dev.fsbuf.Length == FSBUF_SIZE && user != dev.fsbuf && user != dev.bytes
    requires cnt <= user.Length
    requires at == beg * SECTOR_SIZE + off0 <= dev.bytes.Length
    requires m == (if fd.pos <= posEnd then posEnd - fd.pos else 0) && m <= cnt
    requires beg <= end ==> 0 < chunk <= FSBUF_SECTS && off0 + m <= chunk * SECTOR_SIZE && beg + chunk <= dev.sectors
    requires beg + chunk <= end ==> beg + 2 * chunk <= dev.sectors
    requires 0 < m ==> beg <= end
    modifies dev.fsbuf, fd`pos, user
    ensures proc == m && fd.pos == old(fd.pos) + m && at + m <= dev.bytes.Length
    ensures user[..] == Splice(old(user[..]), 0, dev.bytes[at..at + m])
  {
    var off, left, i := off0, cnt, beg;
    proc := 0;
    ghost var u, first := user[..], true;
    while i <= end
      invariant first ==> i == beg && off == off0 && proc == 0 && left == cnt && user[..] == u
      invariant !first ==> i == beg + chunk && proc == m && 0 < m && at + m <= dev.bytes.Length
      invariant !first ==> user[..] == Splice(u, 0, dev.bytes[at..at + m])
      invariant fd.pos == old(fd.pos) + proc
      decreases end + chunk - i
    {
      Fetch(dev, i * SECTOR_SIZE, chunk * SECTOR_SIZE);
      var bytes := Min(chunk * SECTOR_SIZE, left);
      if posEnd <= fd.pos {
        break;
      }
      bytes := Min(posEnd - fd.pos, bytes);
      assert first && bytes == m;
      Deliver(dev, off, user, proc, bytes, i * SECTOR_SIZE, chunk * SECTOR_SIZE);
      off := 0;
      left := left - bytes;
      proc := proc + bytes;
      fd.pos := fd.pos + bytes;
      first := false;
      i := i + chunk;
    }
  }

  /** do_rdwt with READ on a regular file of at most 2048 sectors: the bytes of the file from the
      position up to its size.  A position beyond the size reads nothing and becomes the size. */
  method DoRead(dev: Disk, fd: FileDesc, user: array<byte>, cnt: nat) returns (n: nat)
    requires dev.Valid() && dev.fsbuf.Length == FSBUF_SIZE && user != dev.fsbuf && user != dev.bytes
    requires cnt <= user.Length
    requires fd.node.nrSects <= FSBUF_SECTS && fd.node.start + fd.node.nrSects <= dev.sectors
    requires fd.pos <= fd.node.Capacity() && fd.node.size <= fd.node.Capacity()
    requires fd.node.start + Reach(fd.pos, Min(fd.node.size, fd.pos + cnt)) <= dev.sectors
    modifies dev.fsbuf, fd, fd.node, user
    ensures var pos, at := old(fd.pos), fd.node.start * SECTOR_SIZE + old(fd.pos);
            n == Readable(old(fd.node.size), pos, cnt) &&
            IsReadCount(old(fd.node.size), pos, cnt, n) && fd.pos == pos + n &&
            fd.node.size == (if old(fd.node.size) < pos then pos else old(fd.node.size)) &&
            Moved(fd.pos, fd.node.size) == AfterRead(Moved(pos, old(fd.node.size)), cnt) &&
            at + n <= dev.bytes.Length && user[..] == Splice(old(user[..]), 0, dev.bytes[at..at + n])
  {
    var pos := fd.pos;
    var posEnd := Min(fd.node.size, pos + cnt);
    var off := pos % SECTOR_SIZE;
    var sectBeg, sectEnd := fd.node.start + pos / SECTOR_SIZE, fd.node.start + posEnd / SECTOR_SIZE;
    var chunk := Min(sectEnd - sectBeg + 1, FSBUF_SECTS);
    ReadPlan(fd.node.start, fd.node.Capacity(), fd.node.size, pos, cnt, dev.sectors);
    ReadableIsCount(fd.node.size, pos, cnt);
    n := ReadLoop(dev, fd, user, cnt, posEnd, sectBeg, sectEnd, chunk, off,
                  Readable(fd.node.size, pos, cnt), fd.node.start * SECTOR_SIZE + pos);
    if fd.pos > fd.node.size {
      fd.node.size := fd.pos;
    }
  }

  lemma ReadPlan(start: nat, cap: nat, size: nat, pos: nat, cnt: nat, sectors: nat)
    requires pos <= cap <= FSBUF_SIZE && cap % SECTOR_SIZE == 0 && size <= cap
    requires start * SECTOR_SIZE + cap <= sectors * SECTOR_SIZE
    requires start + Reach(pos, Min(size, pos + cnt)) <= sectors
    ensures var posEnd, m := Min(size, pos + cnt), Readable(size, pos, cnt);
            var beg, end := start + pos / SECTOR_SIZE, start + posEnd / SECTOR_SIZE;
            var chunk, off := Chunk(pos, posEnd), pos % SECTOR_SIZE;
            start * SECTOR_SIZE + pos == beg * SECTOR_SIZE + off <= sectors * SECTOR_SIZE && m <= cnt &&
            m == (if pos <= posEnd then posEnd - pos else 0) &&
            (beg <= end ==> 0 < chunk <= FSBUF_SECTS && off + m <= chunk * SECTOR_SIZE && beg + chunk <= sectors) &&
            (beg + chunk <= end ==> beg + 2 * chunk <= sectors) && (0 < m ==> beg <= end)
  {
  }

  lemma ReachGrows(pos: nat, pos': nat, end: nat, end': nat)
    requires pos <= pos' <= end' <= FSBUF_SIZE && end <= end'
    ensures Reach(pos, end) <= Reach(pos, end') && Reach(pos', end') <= Reach(pos, end')
  {
  }

  /** What two reads in a row return adds up to what one read returns; the first makes a size below the
      position equal to it. */
  lemma CountsAdd(size: nat, pos: nat, a: nat, b: nat, n: nat, m: nat)
    requires IsReadCount(size, pos, a, n) && IsReadCount(if size < pos then pos else size, pos + n, b, m)
    ensures IsReadCount(size, pos, a + b, n + m)
  {
    var now := if size < pos then pos else size;
    forall k: nat | k <= a + b && InFile(size, pos, k) ensures k <= n + m {
      if n < k {
        assert k <= a ==> k <= n;
        assert InFile(size, pos, a);
        assert InFile(now, pos + n, k - n);
      }
    }
  }

  /** The size after a read at `pos`. */
  function Grown(size: nat, pos: nat): nat {
    if size < pos then pos else size
  }

  /** A read of `cnt` bytes at `pos` stays within the capacity and, sector by sector, on the disk. */
  ghost predicate CanRead(start: nat, cap: nat, size: nat, pos: nat, cnt: nat, sectors: nat) {
    pos <= cap && size <= cap && start + Reach(pos, Min(size, pos + cnt)) <= sectors
  }

  /** A read, seen from its caller. */
  method ReadOnce(dev: Disk, fd: FileDesc, user: array<byte>, cnt: nat, ghost d: seq<byte>, ghost pos: nat,
                  ghost size: nat, ghost at: nat)
    returns (n: nat)
    requires dev.Valid() && dev.fsbuf.Length == FSBUF_SIZE && user != dev.fsbuf && user != dev.bytes
    requires cnt <= user.Length && fd.node.nrSects <= FSBUF_SECTS && fd.node.start + fd.node.nrSects <= dev.sectors
    requires CanRead(fd.node.start, fd.node.Capacity(), size, pos, cnt, dev.sectors)
    requires pos == fd.pos && size == fd.node.size && at == fd.node.start * SECTOR_SIZE + pos && d == dev.bytes[..]
    modifies dev.fsbuf, fd, fd.node, user
    ensures n == Readable(size, pos, cnt) <= user.Length && fd.pos == pos + n && fd.node.size == Grown(size, pos)
    ensures at + n <= |d| && user[..n] == d[at..at + n]
  {
    n := DoRead(dev, fd, user, cnt);
  }

  lemma TwoReads(start: nat, cap: nat, size: nat, pos: nat, a: nat, b: nat, n: nat, m: nat, now: nat, sectors: nat)
    requires pos <= cap <= FSBUF_SIZE && size <= cap
    requires start + Reach(pos, Max(pos, Min(size, pos + a + b))) <= sectors
    requires now == Grown(size, pos) && n == Readable(size, pos, a) && m == Readable(now, pos + n, b)
    ensures CanRead(start, cap, size, pos, a, sectors) && CanRead(start, cap, now, pos + n, b, sectors)
    ensures IsReadCount(size, pos, a + b, n + m)
  {
    var end := Max(pos, Min(size, pos + a + b));
    ReachGrows(pos, pos, Min(size, pos + a), end);
    ReachGrows(pos, pos + n, Min(now, pos + n + b), end);
    ReadableIsCount(size, pos, a);
    ReadableIsCount(now, pos + n, b);
    CountsAdd(size, pos, a, b, n, m);
  }

  /** A read that goes on where `x` was read. */
  method ReadNext(dev: Disk, fd: FileDesc, user: array<byte>, cnt: nat, ghost d: seq<byte>, ghost pos: nat,
                  ghost size: nat, ghost at: nat, ghost x: seq<byte>)
    returns (n: nat)
    requires dev.Valid() && dev.fsbuf.Length == FSBUF_SIZE && user != dev.fsbuf && user != dev.bytes
    requires cnt <= user.Length && fd.node.nrSects <= FSBUF_SECTS && fd.node.start + fd.node.nrSects <= dev.sectors
    requires CanRead(fd.node.start, fd.node.Capacity(), size, pos, cnt, dev.sectors)
    requires pos == fd.pos && size == fd.node.size && d == dev.bytes[..]
    requires at + |x| == fd.node.start * SECTOR_SIZE + pos <= |d| && x == d[at..at + |x|]
    modifies dev.fsbuf, fd, fd.node, user
    ensures n == Readable(size, pos, cnt) <= user.Length && fd.pos == pos + n
    ensures at + |x| + n <= |d| && x + user[..n] == d[at..at + |x| + n]
  {
    n := ReadOnce(dev, fd, user, cnt, d, pos, size, at + |x|);
    JoinSlices(d, x, user[..n], at);
  }

  /** Two reads in a row get what one read of their sum gets, and leave the position behind it. */
  method ReadTwice(dev: Disk, fd: FileDesc, one: array<byte>, a: nat, two: array<byte>, b: nat) returns (n: nat, m: nat)
    requires dev.Valid() && dev.fsbuf.Length == FSBUF_SIZE && one != two && a <= one.Length && b <= two.Length
    requires one != dev.fsbuf && one != dev.bytes && two != dev.fsbuf && two != dev.bytes
    requires fd.node.nrSects <= FSBUF_SECTS && fd.node.start + fd.node.nrSects <= dev.sectors
    requires fd.pos <= fd.node.Capacity() && fd.node.size <= fd.node.Capacity()
    requires fd.node.start + Reach(fd.pos, Max(fd.pos, Min(fd.node.size, fd.pos + a + b))) <= dev.sectors
    modifies dev.fsbuf, fd, fd.node, one, two
    ensures n <= one.Length && m <= two.Length && IsReadCount(old(fd.node.size), old(fd.pos), a + b, n + m)
    ensures fd.pos == old(fd.pos) + n + m
    ensures var at := fd.node.start * SECTOR_SIZE + old(fd.pos);
            at + n + m <= dev.bytes.Length && one[..n] + two[..m] == dev.bytes[..][at..at + n + m]
  {
    ghost var d, pos, size, at := dev.bytes[..], fd.pos, fd.node.size, fd.node.start * SECTOR_SIZE + fd.pos;
    ghost var k, now := Readable(size, pos, a), Grown(size, pos);
    ghost var j := Readable(now, pos + k, b);
    TwoReads(fd.node.start, fd.node.Capacity(), size, pos, a, b, k, j, now, dev.sectors);
    n := ReadOnce(dev, fd, one, a, d, pos, size, at);
    assert n == k;
    m := ReadNext(dev, fd, two, b, d, pos + k, now, at, one[..n]);
    assert m == j;
  }

  lemma JoinSlices(d: seq<byte>, x: seq<byte>, y: seq<byte>, at: nat)
    requires at + |x| + |y| <= |d| && x == d[at..at + |x|] && y == d[at + |x|..at + |x| + |y|]
    ensures x + y == d[at..at + |x| + |y|]
  {
  }

  datatype Whence = Set | Cur | End

  /** do_lseek on a regular file: the new position is clamped to the bytes of the extent. */
  method DoLseek(fd: FileDesc, offset: int, whence: Whence) returns (r: nat)
    requires 0 < fd.node.nrSects
    modifies fd
    ensures r == fd.pos == Seek(old(fd.pos), fd.node.size, fd.node.Capacity(), offset, whence)
    ensures whence == Set ==> IsClamped(r, offset, fd.node.Capacity())
    ensures whence == Cur ==> IsClamped(r, old(fd.pos) + offset, fd.node.Capacity())
    ensures whence == End ==> IsClamped(r, fd.node.size + offset, fd.node.Capacity())
  {
    var posEnd := fd.node.nrSects * SECTOR_SIZE - 1;
    var pos;
    match whence {
      case Set => pos := offset;
      case Cur => pos := fd.pos + offset;
      case End => pos := fd.node.size + offset;
    }
    pos := if 0 <= pos then pos else 0;
    pos := if pos <= posEnd then pos else posEnd;
    fd.pos := pos;
    return fd.pos;
  }

  /** `r` is `x` moved into the bytes [0, cap). */
  ghost predicate IsClamped(r: nat, x: int, cap: nat) {
    r < cap && (x < 0 ==> r == 0) && (0 <= x < cap ==> r == x) && (cap <= x ==> r == cap - 1)
  }

  function Asked(pos: nat, size: nat, offset: int, whence: Whence): int {
    match whence case Set => offset case Cur => pos + offset case End => size + offset
  }

  function Distance(a: int, b: int): int {
    if a < b then b - a else a - b
  }

  /** The position inside the extent that is nearest to the asked one. */
  function Seek(pos: nat, size: nat, cap: nat, offset: int, whence: Whence): (r: nat)
    requires 0 < cap
    ensures r < cap
    ensures forall x :: 0 <= x < cap ==>
              Distance(Asked(pos, size, offset, whence), r) <= Distance(Asked(pos, size, offset, whence), x)
  {
    var asked := Asked(pos, size, offset, whence);
    if asked < 0 then 0 else if asked < cap then asked else cap - 1
  }

  // ---------------------------------------------------------------- what reads see of writes

  /** A write within the capacity is a splice of all of `data`. */
  method WriteInside(dev: Disk, fd: FileDesc, data: seq<byte>, ghost at: nat)
    requires dev.Valid() && dev.fsbuf.Length == FSBUF_SIZE && fd.node.nrSects <= FSBUF_SECTS
    requires fd.pos + |data| <= fd.node.Capacity()
    requires fd.node.start + Reach(fd.pos, fd.pos + |data|) <= dev.sectors
    requires at == fd.node.start * SECTOR_SIZE + fd.pos
    modifies dev.bytes, dev.fsbuf, fd, fd.node
    ensures fd.pos == old(fd.pos) + |data| && fd.node.size == Max(old(fd.node.size), fd.pos)
    ensures at + |data| <= dev.bytes.Length && dev.bytes[..] == Splice(old(dev.bytes[..]), at, data)
    ensures dev.bytes[at..at + |data|] == data
  {
    ghost var d := dev.bytes[..];
    InCapacityFits(fd.node.start, fd.node.Capacity(), fd.pos, |data|, dev.sectors);
    var n := DoWrite(dev, fd, data);
    WholeWrite(d, dev.bytes[..], at, data);
  }

  /** A write within the capacity, a seek back and a read: the read returns the data, and no byte of the
      disk outside them changed. */
  method WriteThenRead(dev: Disk, fd: FileDesc, data: seq<byte>, user: array<byte>) returns (n: nat)
    requires dev.Valid() && dev.fsbuf.Length == FSBUF_SIZE && user != dev.fsbuf && user != dev.bytes
    requires user.Length == |data|
    requires 0 < fd.node.nrSects <= FSBUF_SECTS && fd.node.start + fd.node.nrSects <= dev.sectors
    requires fd.pos + |data| <= fd.node.Capacity() && fd.node.size <= fd.node.Capacity()
    requires fd.node.start + Reach(fd.pos, fd.pos + |data|) <= dev.sectors
    modifies dev.bytes, dev.fsbuf, fd, fd.node, user
    ensures n == |data| && user[..] == data
    ensures var at := fd.node.start * SECTOR_SIZE + old(fd.pos);
            at + |data| <= dev.bytes.Length && dev.bytes[..] == Splice(old(dev.bytes[..]), at, data)
  {
    var pos := fd.pos;
    WriteInside(dev, fd, data, fd.node.start * SECTOR_SIZE + pos);
    var r := DoLseek(fd, pos, Set);
    assert data != [] ==> fd.pos == pos;
    n := DoRead(dev, fd, user, |data|);
  }

  lemma WholeWrite(d: seq<byte>, e: seq<byte>, at: nat, data: seq<byte>)
    requires Written(d, e, at, data, |data|) && at + |data| <= |d|
    ensures e == Splice(d, at, data) && e[at..at + |data|] == data
  {
    assert data[..|data|] == data;
    assert Splice(d, at, []) == d;
  }

  /** A write within the capacity of one file leaves the contents of a disjoint extent alone. */
  lemma OtherFilesUntouched(d: seq<byte>, e: seq<byte>, start: nat, cap: nat, pos: nat, data: seq<byte>,
                            other: nat, otherCap: nat)
    requires cap <= FSBUF_SIZE && cap % SECTOR_SIZE == 0 && pos + |data| <= cap
    requires Written(d, e, start * SECTOR_SIZE + pos, data, Landed(cap, pos, |data|))
    requires other * SECTOR_SIZE + otherCap <= |d|
    requires other * SECTOR_SIZE + otherCap <= start * SECTOR_SIZE || start * SECTOR_SIZE + cap <= other * SECTOR_SIZE
    ensures var x := other * SECTOR_SIZE; e[x..x + otherCap] == d[x..x + otherCap]
  {
    WriteStaysInFile(cap, pos, |data|);
  }

  // ---------------------------------------------------------------- positions over whole runs

  /** Descriptors by position and inode; inodes by size and capacity.  Several descriptors may share an
      inode, and several processes a descriptor. */
  datatype Fd = Fd(pos: nat, node: nat)
  datatype Node = Node(size: nat, cap: nat)
  datatype Files = Files(fds: seq<Fd>, nodes: seq<Node>)

  datatype Event =
    | Open(fd: nat, node: nat, trunc: bool)
    | SeekTo(fd: nat, offset: int, whence: Whence)
    | Read(fd: nat, cnt: nat)
    | Write(fd: nat, cnt: nat)

  predicate Bounded(s: Files) {
    (forall n :: 0 <= n < |s.nodes| ==>
       0 < s.nodes[n].cap <= FSBUF_SIZE && s.nodes[n].cap % SECTOR_SIZE == 0 && s.nodes[n].size <= s.nodes[n].cap) &&
    (forall f :: 0 <= f < |s.fds| ==> s.fds[f].node < |s.nodes| && s.fds[f].pos <= s.nodes[s.fds[f].node].cap)
  }

  predicate Enabled(s: Files, e: Event) {
    e.fd < |s.fds| && s.fds[e.fd].node < |s.nodes| && 0 < s.nodes[s.fds[e.fd].node].cap &&
    (e.Open? ==> e.node < |s.nodes|) &&
    (e.Write? ==> s.fds[e.fd].pos + e.cnt <= s.nodes[s.fds[e.fd].node].cap)
  }

  /** do_open binds a descriptor at position 0; the others are the contracts of DoLseek, DoRead and DoWrite. */
  function Step(s: Files, e: Event): Files
    requires Enabled(s, e)
  {
    var f := s.fds[e.fd];
    var n := s.nodes[f.node];
    match e
    case Open(fd, node, trunc) =>
      Files(s.fds[fd := Fd(0, node)], if trunc then s.nodes[node := s.nodes[node].(size := 0)] else s.nodes)
    case SeekTo(fd, offset, whence) =>
      s.(fds := s.fds[fd := f.(pos := Seek(f.pos, n.size, n.cap, offset, whence))])
    case Read(fd, cnt) =>
      var m := AfterRead(Moved(f.pos, n.size), cnt);
      Files(s.fds[fd := f.(pos := m.pos)], s.nodes[f.node := n.(size := m.size)])
    case Write(fd, cnt) =>
      var m := AfterWrite(Moved(f.pos, n.size), n.cap, cnt);
      Files(s.fds[fd := f.(pos := m.pos)], s.nodes[f.node := n.(size := m.size)])
  }

  lemma StepKeepsBounds(s: Files, e: Event)
    requires Bounded(s) && Enabled(s, e)
    ensures Bounded(Step(s, e))
  {
    var t := Step(s, e);
    if e.Write? {
      WriteStaysInFile(s.nodes[s.fds[e.fd].node].cap, s.fds[e.fd].pos, e.cnt);
    }
    forall n | 0 <= n < |t.nodes| ensures t.nodes[n].cap == s.nodes[n].cap && t.nodes[n].size <= t.nodes[n].cap {}
    forall f | 0 <= f < |t.fds| ensures t.fds[f].node < |t.nodes| && t.fds[f].pos <= s.nodes[t.fds[f].node].cap {}
  }

  /** What each operation does to its descriptor and its file; no other descriptor and no other file changes,
      and no file changes its capacity. */
  lemma StepDecides(s: Files, e: Event)
    requires Bounded(s) && Enabled(s, e)
    ensures var t, f := Step(s, e), s.fds[e.fd];
            var k := if e.Open? then e.node else f.node;
            |t.fds| == |s.fds| && |t.nodes| == |s.nodes| && k < |s.nodes| && t.fds[e.fd].node == k &&
            (forall x :: 0 <= x < |s.fds| && x != e.fd ==> t.fds[x] == s.fds[x]) &&
            (forall x :: 0 <= x < |s.nodes| && x != k ==> t.nodes[x] == s.nodes[x]) &&
            t.nodes[k].cap == s.nodes[k].cap && StepOk(e, f.pos, t.fds[e.fd].pos, s.nodes[k], t.nodes[k].size)
  {
    var f := s.fds[e.fd];
    var n := s.nodes[f.node];
    match e
    case Open(fd, node, trunc) =>
    case SeekTo(fd, offset, whence) =>
    case Read(fd, cnt) => ReadableIsCount(n.size, f.pos, cnt);
    case Write(fd, cnt) => WriteStaysInFile(n.cap, f.pos, cnt);
  }

  /** The new position and size: an open starts at 0, a seek goes where it is asked, a read and a write move
      on by what they read and wrote; the size grows to the position. */
  ghost predicate StepOk(e: Event, pos: nat, pos': nat, n: Node, size': nat) {
    match e
    case Open(_, _, trunc) => pos' == 0 && size' == if trunc then 0 else n.size
    case SeekTo(_, offset, whence) =>
      size' == n.size && (whence == Set ==> IsClamped(pos', offset, n.cap)) &&
      (whence == Cur ==> IsClamped(pos', pos + offset, n.cap)) &&
      (whence == End ==> IsClamped(pos', n.size + offset, n.cap))
    case Read(_, cnt) =>
      pos <= pos' && IsReadCount(n.size, pos, cnt, pos' - pos) && size' == if n.size < pos then pos else n.size
    case Write(_, cnt) => pos' == pos + cnt && size' == if n.size < pos + cnt then pos + cnt else n.size
  }

  ghost predicate IsRun(ss: seq<Files>, es: seq<Event>) {
    |ss| == |es| + 1 && Bounded(ss[0]) &&
    forall i :: 0 <= i < |es| ==> Enabled(ss[i], es[i]) && ss[i + 1] == Step(ss[i], es[i])
  }

  /** Over every run of opens, seeks, reads and writes within the capacity, no position and no size
      leaves the extent of its file. */
  lemma {:induction false} RunsStayInBounds(ss: seq<Files>, es: seq<Event>, n: nat)
    requires IsRun(ss, es) && n <= |es|
    ensures Bounded(ss[n])
    decreases n
  {
    if 0 < n {
      RunsStayInBounds(ss, es, n - 1);
      StepKeepsBounds(ss[n - 1], es[n - 1]);
    }
  }

  /** A read changes the size of a file exactly when its position lies beyond the size. */
  lemma ReadGrowsIff(m: Moved, cnt: nat)
    ensures AfterRead(m, cnt).size != m.size <==> m.size < m.pos
  {
  }

  /** An empty file as create_file makes it, a seek to position 100 and a read of ten bytes: nothing is
      read, and the file has 100 bytes. */
  lemma ReadMayGrowFile()
    ensures exists ss: seq<Files>, es: seq<Event> ::
              IsRun(ss, es) && ss[0] == Files([Fd(0, 0)], [Node(0, FSBUF_SIZE)]) &&
              es == [SeekTo(0, 100, Set), Read(0, 10)] && ss[2] == Files([Fd(100, 0)], [Node(100, FSBUF_SIZE)])
  {
    var s0 := Files([Fd(0, 0)], [Node(0, FSBUF_SIZE)]);
    var e0, e1 := SeekTo(0, 100, Set), Read(0, 10);
    var s1 := Step(s0, e0);
    assert s1 == Files([Fd(100, 0)], [Node(0, FSBUF_SIZE)]);
    var s2 := Step(s1, e1);
    assert s2 == Files([Fd(100, 0)], [Node(100, FSBUF_SIZE)]);
    assert IsRun([s0, s1, s2], [e0, e1]);
  }
}
