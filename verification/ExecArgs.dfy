/** The argument block of exec: packed by execv (lib/exec.c) in the caller's memory, moved and
    relocated by do_exec (mm/exec.c) to the top of the new image. */
module ExecArgs {
  import opened Strings

  /** A byte of memory, as a number. */
  type Cell = x: int | 0 <= x < 256

  const STACK := 0x400
  const IMAGE := 0x100000
  const WORD := 0x1_0000_0000

  /** The little-endian 32-bit word at `a`. */
  function Word(m: seq<Cell>, a: nat): nat
    requires a + 4 <= |m|
  {
    var b0: int, b1: int, b2: int, b3: int := m[a], m[a + 1], m[a + 2], m[a + 3];
    b0 + 256 * b1 + 65536 * b2 + 16777216 * b3
  }

  /** The NUL-terminated string `s` at `a`. */
  ghost predicate StringAt(m: seq<Cell>, a: nat, s: seq<Cell>) {
    a + |s| < |m| && m[a + |s|] == 0 && forall i :: 0 <= i < |s| ==> m[a + i] == s[i]
  }

  /** The k-th pointer of the block of `len` cells at `base` leads past the pointer table to `s`. */
  ghost predicate ArgAt(m: seq<Cell>, base: nat, len: nat, n: nat, k: nat, s: seq<Cell>) {
    base + 4 * k + 4 <= |m| &&
    var a := Word(m, base + 4 * k);
    base + 4 * n + 4 <= a && a + |s| < base + len && StringAt(m, a, s)
  }

  /** The `len` cells at `base` are an argument block for `argv`: a table of pointers ended by 0, each
      leading to its string inside the block. */
  ghost predicate Block(m: seq<Cell>, base: nat, len: nat, argv: seq<seq<Cell>>) {
    base + len <= |m| && 4 * |argv| + 4 <= len && Word(m, base + 4 * |argv|) == 0 &&
    forall k :: 0 <= k < |argv| ==> ArgAt(m, base, len, |argv|, k, argv[k])
  }

  /** What a program sees that follows the table at `base`: its strings, in order, up to the null pointer. */
  ghost predicate Sees(m: seq<Cell>, base: nat, argv: seq<seq<Cell>>) {
    base + 4 * |argv| + 4 <= |m| && Word(m, base + 4 * |argv|) == 0 &&
    forall k :: 0 <= k < |argv| ==> Word(m, base + 4 * k) != 0 && StringAt(m, Word(m, base + 4 * k), argv[k])
  }

  // ---------------------------------------------------------------- packing

  /** Where the strings before the k-th end, counted from the start of the block. */
  function Off(argv: seq<seq<Cell>>, k: nat): (r: nat)
    requires k <= |argv|
    ensures r >= 4 * |argv| + 4
  {
    if k == 0 then 4 * |argv| + 4 else Off(argv, k - 1) + |argv[k - 1]| + 1
  }

  lemma {:induction false} OffMonotone(argv: seq<seq<Cell>>, j: nat, k: nat)
    requires j < k <= |argv|
    ensures Off(argv, j) + |argv[j]| + 1 <= Off(argv, k)
    decreases k
  {
    if j < k - 1 { OffMonotone(argv, j, k - 1); }
  }

  lemma SplitWord(w: nat)
    requires w < WORD
    ensures w % 256 + 256 * (w / 256 % 256) + 65536 * (w / 65536 % 256) + 16777216 * (w / 16777216) == w
    ensures w / 16777216 < 256
  {
    assert w / 65536 == w / 256 / 256 && w / 16777216 == w / 65536 / 256;
  }

  method StoreWord(m: array<Cell>, a: nat, w: nat)
    requires a + 4 <= m.Length && w < WORD
    modifies m
    ensures Word(m[..], a) == w && m[a] == w % 256 && m[a + 3] == w / 16777216
    ensures forall i :: 0 <= i < m.Length && !(a <= i < a + 4) ==> m[i] == old(m[i])
  {
    SplitWord(w);
    m[a], m[a + 1], m[a + 2], m[a + 3] := w % 256, w / 256 % 256, w / 65536 % 256, w / 16777216;
  }

  /** strcpy of one argument and the terminating 0 of execv. */
  method StoreString(m: array<Cell>, a: nat, s: seq<Cell>)
    requires a + |s| < m.Length
    modifies m
    ensures StringAt(m[..], a, s)
    ensures forall i :: 0 <= i < m.Length && !(a <= i <= a + |s|) ==> m[i] == old(m[i])
  {
    for i := 0 to |s|
      invariant forall j :: 0 <= j < i ==> m[a + j] == s[j]
      invariant forall j :: 0 <= j < m.Length && !(a <= j < a + i) ==> m[j] == old(m[j])
    {
      m[a + i] := s[i];
    }
    m[a + |s|] := 0;
  }

  /** The arguments before the k-th are in place. */
  ghost predicate Packed(m: seq<Cell>, base: nat, argv: seq<seq<Cell>>, k: nat) {
    k <= |argv| && base + Off(argv, |argv|) <= |m| && Word(m, base + 4 * |argv|) == 0 &&
    forall j :: 0 <= j < k ==> PackedArg(m, base, argv, j)
  }

  ghost predicate PackedArg(m: seq<Cell>, base: nat, argv: seq<seq<Cell>>, j: nat) {
    j < |argv| && base + 4 * j + 4 <= |m| && Word(m, base + 4 * j) == base + Off(argv, j) &&
    StringAt(m, base + Off(argv, j), argv[j])
  }

  /** Cell i belongs to the k-th pointer or string. */
  predicate InArg(base: nat, argv: seq<seq<Cell>>, k: nat, i: nat)
    requires k < |argv|
  {
    base + 4 * k <= i < base + 4 * k + 4 || base + Off(argv, k) <= i <= base + Off(argv, k) + |argv[k]|
  }

  /** Storing the k-th pointer and string leaves the earlier ones and the null pointer alone. */
  lemma PackNext(m: seq<Cell>, m': seq<Cell>, base: nat, argv: seq<seq<Cell>>, k: nat)
    requires Packed(m, base, argv, k) && k < |argv| && |m'| == |m|
    requires PackedArg(m', base, argv, k)
    requires forall i :: 0 <= i < |m| && !InArg(base, argv, k, i) ==> m'[i] == m[i]
    ensures Packed(m', base, argv, k + 1)
  {
    forall j | 0 <= j < k ensures PackedArg(m', base, argv, j) {
      assert PackedArg(m, base, argv, j);
      OffMonotone(argv, j, k);
    }
    assert Word(m', base + 4 * |argv|) == Word(m, base + 4 * |argv|);
  }

  lemma PackedArgInBlock(m: seq<Cell>, base: nat, argv: seq<seq<Cell>>, k: nat)
    requires PackedArg(m, base, argv, k)
    ensures ArgAt(m, base, Off(argv, |argv|), |argv|, k, argv[k])
  {
    OffLarge(argv, k);
    OffMonotone(argv, k, |argv|);
  }

  lemma PackedIsBlock(m: seq<Cell>, base: nat, argv: seq<seq<Cell>>)
    requires Packed(m, base, argv, |argv|)
    ensures Block(m, base, Off(argv, |argv|), argv)
  {
    forall k | 0 <= k < |argv| ensures ArgAt(m, base, Off(argv, |argv|), |argv|, k, argv[k]) {
      assert PackedArg(m, base, argv, k);
      PackedArgInBlock(m, base, argv, k);
    }
    OffLarge(argv, |argv|);
  }

  lemma {:induction false} OffLarge(argv: seq<seq<Cell>>, k: nat)
    requires k <= |argv|
    ensures 4 * |argv| + 4 + k <= Off(argv, k)
  {
    if k != 0 { OffLarge(argv, k - 1); }
  }

  /** Store the k-th pointer and the k-th string. */
  method PackOne(m: array<Cell>, base: nat, argv: seq<seq<Cell>>, k: nat, len: nat)
    requires base + Off(argv, |argv|) <= m.Length < WORD && k < |argv|
    requires len == Off(argv, k) && Packed(m[..], base, argv, k)
    modifies m
    ensures Packed(m[..], base, argv, k + 1)
    ensures forall i :: 0 <= i < m.Length && !(base <= i < base + Off(argv, k + 1)) ==> m[i] == old(m[i])
  {
    OffMonotone(argv, k, |argv|);
    ghost var was := m[..];
    StoreWord(m, base + 4 * k, base + len);
    ghost var mid := m[..];
    StoreString(m, base + len, argv[k]);
    assert Word(m[..], base + 4 * k) == Word(mid, base + 4 * k);
    PackNext(was, m[..], base, argv, k);
  }

  /** The second loop of execv. */
  method PackAll(m: array<Cell>, base: nat, argv: seq<seq<Cell>>, len0: nat) returns (len: nat)
    requires base + Off(argv, |argv|) <= m.Length < WORD && len0 == Off(argv, 0) && Packed(m[..], base, argv, 0)
    modifies m
    ensures len == Off(argv, |argv|) && Packed(m[..], base, argv, |argv|)
    ensures forall i :: 0 <= i < m.Length && !(base <= i < base + len) ==> m[i] == old(m[i])
  {
    len := len0;
    for p := 0 to |argv|
      invariant len == Off(argv, p) && Packed(m[..], base, argv, p)
      invariant forall i :: 0 <= i < m.Length && !(base <= i < base + len) ==> m[i] == old(m[i])
    {
      PackOne(m, base, argv, p, len);
      len := len + |argv[p]| + 1;
    }
  }

  /** execv up to the message: the block in the caller's `stk` buffer at `base`.  The assertion on the pointer
      table stops it exactly from 255 arguments on; the strings are not checked, so a block of more than
      1024 cells runs over the end of the buffer. */
  method Execv(m: array<Cell>, base: nat, argv: seq<seq<Cell>>) returns (len: nat, ok: bool)
    requires base + Off(argv, |argv|) <= m.Length < WORD
    modifies m
    ensures ok <==> |argv| <= 254
    ensures ok ==> len == Off(argv, |argv|) && Block(m[..], base, len, argv)
    ensures forall i :: 0 <= i < m.Length && !(ok && base <= i < base + len) ==> m[i] == old(m[i])
  {
    OffLarge(argv, |argv|);
    len, ok := 0, true;
    for p := 0 to |argv|
      invariant len == 4 * p && p <= 254
    {
      if len + 8 >= STACK {
        return len, false;
      }
      len := len + 4;
    }
    StoreWord(m, base + len, 0);
    len := PackAll(m, base, argv, len + 4);
    PackedIsBlock(m[..], base, argv);
  }

  /** Cell i is one of the `len` cells from `base` on. */
  predicate InCells(i: nat, base: nat, len: nat) {
    base <= i < base + len
  }

  /** The cells execv writes lie in its buffer. */
  ghost predicate StaysInBuffer(base: nat, argv: seq<seq<Cell>>) {
    forall i: nat :: InCells(i, base, Off(argv, |argv|)) ==> InCells(i, base, STACK)
  }

  /** ... exactly when the block has at most 1024 of them. */
  lemma StaysInBufferIff(base: nat, argv: seq<seq<Cell>>)
    ensures StaysInBuffer(base, argv) <==> Off(argv, |argv|) <= STACK
  {
    if STACK < Off(argv, |argv|) {
      assert InCells(base + STACK, base, Off(argv, |argv|));
    }
  }

  /** One argument of 1016 characters passes the assertion of execv and overruns the buffer by one cell. */
  method LongArgumentOverruns(m: array<Cell>, base: nat) returns (argv: seq<seq<Cell>>, ok: bool)
    requires base + STACK < m.Length < WORD
    modifies m
    ensures argv == [seq(1016, _ => 97)] && ok && !StaysInBuffer(base, argv) && m[base + STACK] == 0
  {
    argv := [seq(1016, _ => 97)];
    assert Off(argv, 1) == Off(argv, 0) + |argv[0]| + 1 == STACK + 1;
    StaysInBufferIff(base, argv);
    var len;
    len, ok := Execv(m, base, argv);
    assert ArgAt(m[..], base, len, 1, 0, argv[0]);
  }

  // ---------------------------------------------------------------- relocation

  /** The pointers before the p-th have been moved by `delta`; every other cell is as it was. */
  ghost predicate Moved(b: seq<Cell>, c: seq<Cell>, delta: int, p: nat) {
    |c| == |b| && 4 * p <= |b| &&
    (forall k :: 0 <= k < p ==> MovedPointer(b, c, delta, k)) &&
    forall i :: 4 * p <= i < |b| ==> c[i] == b[i]
  }

  ghost predicate MovedPointer(b: seq<Cell>, c: seq<Cell>, delta: int, k: nat) {
    4 * k + 4 <= |b| == |c| && Word(c, 4 * k) == Word(b, 4 * k) + delta
  }

  lemma MoveNext(b: seq<Cell>, c: seq<Cell>, c': seq<Cell>, delta: int, p: nat)
    requires Moved(b, c, delta, p) && 4 * p + 4 <= |b| && |c'| == |c|
    requires Word(c', 4 * p) == Word(b, 4 * p) + delta
    requires forall i :: 0 <= i < |c| && !(4 * p <= i < 4 * p + 4) ==> c'[i] == c[i]
    ensures Moved(b, c', delta, p + 1)
  {
    forall k | 0 <= k < p + 1 ensures MovedPointer(b, c', delta, k) {
      if k < p {
        assert MovedPointer(b, c, delta, k);
        assert Word(c', 4 * k) == Word(c, 4 * k);
      }
    }
  }

  /** A block of `len` cells at `base`, cut out on its own. */
  lemma BlockWord(m: seq<Cell>, base: nat, len: nat, a: nat)
    requires base + len <= |m| && a + 4 <= len
    ensures Word(m[base..base + len], a) == Word(m, base + a)
  {
  }

  /** Relocating all pointers of a block by the distance it moves makes it the same block there. */
  lemma MovedBlock(m: seq<Cell>, base: nat, len: nat, argv: seq<seq<Cell>>, c: seq<Cell>, m': seq<Cell>, to: nat)
    requires Block(m, base, len, argv) && Moved(m[base..base + len], c, to - base, |argv|)
    requires to + len <= |m'| && forall i :: 0 <= i < len ==> m'[to + i] == c[i]
    ensures Block(m', to, len, argv)
  {
    var b, n := m[base..base + len], |argv|;
    assert m'[to..to + len] == c;
    forall k | 0 <= k < n ensures ArgAt(m', to, len, n, k, argv[k]) {
      assert ArgAt(m, base, len, n, k, argv[k]);
      assert MovedPointer(b, c, to - base, k);
      BlockWord(m, base, len, 4 * k);
      BlockWord(m', to, len, 4 * k);
      MovedString(m, base, len, b, c, m', to, Word(m, base + 4 * k), argv[k], 4 * n);
    }
    BlockWord(m, base, len, 4 * n);
    BlockWord(m', to, len, 4 * n);
    assert forall i :: 4 * n <= i < 4 * n + 4 ==> c[i] == b[i];
  }

  lemma MovedString(m: seq<Cell>, base: nat, len: nat, b: seq<Cell>, c: seq<Cell>, m': seq<Cell>, to: nat, a: nat,
                    s: seq<Cell>, table: nat)
    requires base + len <= |m| && b == m[base..base + len] && |c| == len && to + len <= |m'|
    requires forall i :: table <= i < len ==> c[i] == b[i]
    requires forall i :: 0 <= i < len ==> m'[to + i] == c[i]
    requires base + table <= a && a + |s| < base + len && StringAt(m, a, s)
    ensures StringAt(m', a - base + to, s)
  {
    var x := a - base;
    forall i | 0 <= i < |s| ensures m'[x + to + i] == s[i] {
      assert m'[to + (x + i)] == c[x + i] == b[x + i] == m[base + (x + i)];
      assert m[a + i] == s[i];
    }
    assert m'[to + (x + |s|)] == c[x + |s|] == b[x + |s|] == m[base + (x + |s|)];
  }

  /** The first n words are pointers that survive a move by `delta`, and a null pointer follows. */
  ghost predicate Movable(b: seq<Cell>, delta: int, n: nat) {
    4 * n + 4 <= |b| && Word(b, 4 * n) == 0 && forall k :: 0 <= k < n ==> MovableWord(b, delta, k)
  }

  ghost predicate MovableWord(b: seq<Cell>, delta: int, k: nat) {
    4 * k + 4 <= |b| && Word(b, 4 * k) != 0 && 0 <= Word(b, 4 * k) + delta < WORD
  }

  lemma BlockMovable(m: seq<Cell>, base: nat, len: nat, argv: seq<seq<Cell>>, to: nat)
    requires Block(m, base, len, argv) && to + len < WORD
    ensures Movable(m[base..base + len], to - base, |argv|)
  {
    var b, delta := m[base..base + len], to - base;
    forall k | 0 <= k < |argv| ensures MovableWord(b, delta, k) {
      assert ArgAt(m, base, len, |argv|, k, argv[k]);
      BlockWord(m, base, len, 4 * k);
    }
    BlockWord(m, base, len, 4 * |argv|);
  }

  /** The relocation loop: every pointer up to the null one is moved, and they are counted. */
  method MovePointers(stk: array<Cell>, delta: int, ghost n: nat) returns (argc: nat)
    requires Movable(stk[..], delta, n)
    modifies stk
    ensures argc == n && Moved(old(stk[..]), stk[..], delta, n)
  {
    ghost var b := stk[..];
    argc := 0;
    while LoadWord(stk, 4 * argc) != 0
      invariant 0 <= argc <= n && Moved(b, stk[..], delta, argc)
      decreases n - argc
    {
      ghost var c := stk[..];
      assert Word(c, 4 * argc) == Word(b, 4 * argc);
      assert argc < n ==> MovableWord(b, delta, argc);
      StoreWord(stk, 4 * argc, (LoadWord(stk, 4 * argc) + delta) % WORD);
      MoveNext(b, c, stk[..], delta, argc);
      argc := argc + 1;
    }
    assert Word(stk[..], 4 * argc) == Word(b, 4 * argc);
    assert argc < n ==> MovableWord(b, delta, argc);
  }

  /** do_exec's argument part: copy the block out, add the distance to every pointer up to the null
      one, copy it to the top of the image.  The strings seen there are those of the caller, `eax` is
      the table and `ecx` their number. */
  method Relocate(m: array<Cell>, buf: nat, len: nat, ghost argv: seq<seq<Cell>>) returns (eax: nat, ecx: nat)
    requires IMAGE <= m.Length < WORD && Block(m[..], buf, len, argv) && len <= STACK
    modifies m
    ensures eax == IMAGE - STACK && ecx == |argv|
    ensures Block(m[..], eax, len, argv)
    ensures forall i :: 0 <= i < m.Length && !(eax <= i < eax + len) ==> m[i] == old(m[i])
  {
    ghost var was := m[..];
    var stk := new Cell[len];
    forall i | 0 <= i < len {
      stk[i] := m[buf + i];
    }
    ghost var b := was[buf..buf + len];
    assert stk[..] == b;
    eax := IMAGE - STACK;
    BlockMovable(was, buf, len, argv, eax);
    ecx := MovePointers(stk, eax - buf, |argv|);
    ghost var c := stk[..];
    assert Moved(b, c, eax - buf, |argv|);
    forall i | 0 <= i < len {
      m[eax + i] := stk[i];
    }
    MovedBlock(was, buf, len, argv, c, m[..], eax);
  }

  function LoadWord(m: array<Cell>, a: nat): nat
    requires a + 4 <= m.Length
    reads m
  {
    Word(m[..], a)
  }

  lemma BlockIsSeen(m: seq<Cell>, base: nat, len: nat, argv: seq<seq<Cell>>)
    requires Block(m, base, len, argv)
    ensures Sees(m, base, argv)
  {
    forall k | 0 <= k < |argv| ensures Word(m, base + 4 * k) != 0 && StringAt(m, Word(m, base + 4 * k), argv[k]) {
      assert ArgAt(m, base, len, |argv|, k, argv[k]);
    }
  }

  /** exec end to end: whatever cells outside the caller's buffer the load of the new program sets, the
      program finds the caller's arguments at `eax`, and `ecx` of them. */
  method Exec(m: array<Cell>, base: nat, argv: seq<seq<Cell>>, load: map<nat, Cell>) returns (eax: nat, ecx: nat)
    requires IMAGE <= m.Length < WORD && base + STACK <= m.Length && Off(argv, |argv|) <= STACK
    requires forall i <- load :: !(base <= i < base + Off(argv, |argv|))
    modifies m
    ensures eax == IMAGE - STACK && ecx == |argv| && Sees(m[..], eax, argv)
    ensures var len := Off(argv, |argv|);
            |argv| <= 254 && forall i :: 0 <= i < m.Length && !(eax <= i < eax + len) ==>
              if i in load then m[i] == load[i] else base <= i < base + len || m[i] == old(m[i])
  {
    OffLarge(argv, |argv|);
    var len, ok := Execv(m, base, argv);
    ghost var was := m[..];
    forall i | 0 <= i < m.Length && i in load {
      m[i] := load[i];
    }
    SameBlock(was, m[..], base, len, argv);
    eax, ecx := Relocate(m, base, len, argv);
    BlockIsSeen(m[..], eax, len, argv);
  }

  /** What the new program reads: following its k-th pointer as a C string gives the k-th argument. */
  lemma ProgramReads(m: seq<Cell>, base: nat, argv: seq<seq<Cell>>, k: nat)
    requires Sees(m, base, argv) && k < |argv| && forall i :: 0 <= i < |argv[k]| ==> argv[k][i] != 0
    ensures Word(m, base + 4 * k) <= |m| && CString(m[Word(m, base + 4 * k)..], 0) == argv[k]
  {
    var a, s := Word(m, base + 4 * k), argv[k];
    var rest := m[a + |s| + 1..];
    assert m[a..] == s + [0] + rest;
    CStringOf(s, 0, rest);
  }

  lemma SameBlock(m: seq<Cell>, m': seq<Cell>, base: nat, len: nat, argv: seq<seq<Cell>>)
    requires Block(m, base, len, argv) && |m'| == |m| && forall i :: base <= i < base + len ==> m'[i] == m[i]
    ensures Block(m', base, len, argv)
  {
  }
}
