/** Bytes, bits of bytes, 32-bit words, and the two operations the bitmaps are changed by: filling the first clear
    bits and clearing a range. */
module Bits {

  type byte = bv8

  /** `1 << k`. */
  function Mask(k: nat): byte
    requires k < 8
  {
    if k == 0 then 0x01 else if k == 1 then 0x02 else if k == 2 then 0x04 else if k == 3 then 0x08
    else if k == 4 then 0x10 else if k == 5 then 0x20 else if k == 6 then 0x40 else 0x80
  }

  predicate Bit(b: byte, k: nat)
    requires k < 8
  {
    b & Mask(k) != 0
  }

  lemma SetBit(b: byte, k: nat, j: nat)
    requires k < 8 && j < 8
    ensures Bit(b | Mask(k), j) <==> j == k || Bit(b, j)
  {
  }

  lemma ClearBit(b: byte, k: nat, j: nat)
    requires k < 8 && j < 8
    ensures Bit(b & !Mask(k), j) <==> j != k && Bit(b, j)
  {
  }

  /** `b & (~0 << n)`. */
  function DropLow(b: byte, n: nat): byte
    requires n < 8
  {
    b & (0xFF << n)
  }

  lemma ClearLow(b: byte, n: nat, j: nat)
    requires n < 8 && j < 8
    ensures Bit(DropLow(b, n), j) <==> n <= j && Bit(b, j)
  {
    assert 0xFF << n == !(Mask(n) - 1);
  }

  lemma FullByte(b: byte)
    ensures b == 0xFF <==> forall k :: 0 <= k < 8 ==> Bit(b, k)
  {
    if b != 0xFF {
      assert !(Bit(b, 0) && Bit(b, 1) && Bit(b, 2) && Bit(b, 3) && Bit(b, 4) && Bit(b, 5) && Bit(b, 6) && Bit(b, 7));
    }
  }

  /** The bits of a byte string, lowest bit of each byte first. */
  function BitsOf(s: seq<byte>): (r: seq<bool>)
    ensures |r| == 8 * |s|
  {
    seq(8 * |s|, i requires 0 <= i < 8 * |s| => Bit(s[i / 8], i % 8))
  }

  lemma BitsOfAppend(s: seq<byte>, t: seq<byte>)
    ensures BitsOf(s + t) == BitsOf(s) + BitsOf(t)
  {
  }

  // ---------------------------------------------------------------- 32-bit words

  type u32 = bv32

  /** The four bytes of a word, lowest first. */
  function Encode(w: u32): (r: seq<byte>)
    ensures |r| == 4
    ensures w == (r[0] as u32) | ((r[1] as u32) << 8) | ((r[2] as u32) << 16) | ((r[3] as u32) << 24)
  {
    [(w & 0xFF) as byte, ((w >> 8) & 0xFF) as byte, ((w >> 16) & 0xFF) as byte, (w >> 24) as byte]
  }

  function Decode(s: seq<byte>): u32
    requires |s| == 4
  {
    (s[0] as u32) | ((s[1] as u32) << 8) | ((s[2] as u32) << 16) | ((s[3] as u32) << 24)
  }

  lemma DecodeEncode(w: u32)
    ensures Decode(Encode(w)) == w
  {
  }

  /** Every four bytes are the encoding of the word they decode to. */
  lemma EncodeDecode(s: seq<byte>)
    requires |s| == 4
    ensures Encode(Decode(s)) == s
  {
    var r := Encode(Decode(s));
    assert r[0] == s[0] && r[1] == s[1] && r[2] == s[2] && r[3] == s[3];
  }

  // ---------------------------------------------------------------- filling the first clear bits

  function Zeros(bits: seq<bool>): nat {
    if bits == [] then 0 else (if bits[0] then 0 else 1) + Zeros(bits[1..])
  }

  /** The position of the first clear bit, or the length if there is none. */
  function FirstZero(bits: seq<bool>): (p: nat)
    ensures p <= |bits| && (forall i :: 0 <= i < p ==> bits[i]) && (p < |bits| ==> !bits[p])
  {
    if bits == [] || !bits[0] then 0 else 1 + FirstZero(bits[1..])
  }

  function FillFirst(bits: seq<bool>, n: nat): (r: seq<bool>)
    ensures |r| == |bits|
  {
    if bits == [] || n == 0 then bits
    else [true] + FillFirst(bits[1..], if bits[0] then n else n - 1)
  }

  /** How many of `n` bits are still to be placed after `bits`. */
  function Left(bits: seq<bool>, n: nat): nat {
    if Zeros(bits) <= n then n - Zeros(bits) else 0
  }

  lemma {:induction false} ZerosAppend(a: seq<bool>, b: seq<bool>)
    ensures Zeros(a + b) == Zeros(a) + Zeros(b)
  {
    if a == [] {
      assert a + b == b;
    } else {
      assert (a + b)[1..] == a[1..] + b;
      ZerosAppend(a[1..], b);
    }
  }

  lemma {:induction false} FillAppend(a: seq<bool>, b: seq<bool>, n: nat)
    ensures FillFirst(a + b, n) == FillFirst(a, n) + FillFirst(b, Left(a, n))
  {
    if a == [] {
      assert a + b == b;
    } else if n != 0 {
      var m := if a[0] then n else n - 1;
      assert (a + b)[1..] == a[1..] + b;
      FillAppend(a[1..], b, m);
      assert Left(a, n) == Left(a[1..], m);
    }
  }

  lemma FillFirstAppend(a: seq<bool>, b: seq<bool>, n: nat)
    ensures FillFirst(a + b, n) == FillFirst(a, n) + FillFirst(b, Left(a, n))
    ensures Left(a + b, n) == Left(b, Left(a, n))
  {
    ZerosAppend(a, b);
    FillAppend(a, b, n);
  }

  lemma FirstZeroAppend(a: seq<bool>, b: seq<bool>)
    ensures FirstZero(a + b) == if FirstZero(a) < |a| then FirstZero(a) else |a| + FirstZero(b)
  {
    var q := if FirstZero(a) < |a| then FirstZero(a) else |a| + FirstZero(b);
    assert forall i :: 0 <= i < q ==> (a + b)[i];
    assert q < |a + b| ==> !(a + b)[q];
  }

  lemma {:induction false} ZerosOfFull(bits: seq<bool>)
    ensures Zeros(bits) == 0 <==> forall i :: 0 <= i < |bits| ==> bits[i]
  {
    if bits != [] {
      ZerosOfFull(bits[1..]);
      assert (forall i :: 0 <= i < |bits| ==> bits[i]) <==>
             bits[0] && forall i :: 0 <= i < |bits[1..]| ==> bits[1..][i];
    }
  }

  lemma {:induction false} FillFull(bits: seq<bool>, n: nat)
    requires forall i :: 0 <= i < |bits| ==> bits[i]
    ensures FillFirst(bits, n) == bits
  {
    if bits != [] && n != 0 { FillFull(bits[1..], n); }
  }

  /** What filling means: a bit is set afterwards exactly when it was set, or fewer than `n` clear
      bits precede it. */
  lemma {:induction false} FillFirstMeaning(bits: seq<bool>, n: nat, i: nat)
    requires i < |bits|
    ensures FillFirst(bits, n)[i] <==> bits[i] || Zeros(bits[..i]) < n
  {
    if n != 0 && 0 < i {
      FillFirstMeaning(bits[1..], if bits[0] then n else n - 1, i - 1);
      assert bits[..i][1..] == bits[1..][..i - 1];
    }
  }

  lemma {:induction false} ZerosMonotone(bits: seq<bool>, i: nat, j: nat)
    requires i <= j <= |bits|
    ensures Zeros(bits[..i]) <= Zeros(bits[..j])
    ensures Zeros(bits[..j]) - Zeros(bits[..i]) == Zeros(bits[i..j])
  {
    assert bits[..j] == bits[..i] + bits[i..j];
    ZerosAppend(bits[..i], bits[i..j]);
  }

  // ---------------------------------------------------------------- ranges

  function SetRange(bits: seq<bool>, lo: nat, n: nat): (r: seq<bool>)
    requires lo + n <= |bits|
    ensures |r| == |bits| && forall i :: 0 <= i < |bits| ==> r[i] == (bits[i] || lo <= i < lo + n)
  {
    seq(|bits|, i requires 0 <= i < |bits| => bits[i] || lo <= i < lo + n)
  }

  function ClearRange(bits: seq<bool>, lo: nat, n: nat): (r: seq<bool>)
    requires lo + n <= |bits|
    ensures |r| == |bits| && forall i :: 0 <= i < |bits| ==> r[i] == (bits[i] && !(lo <= i < lo + n))
  {
    seq(|bits|, i requires 0 <= i < |bits| => bits[i] && !(lo <= i < lo + n))
  }

  /** Filling the first `n` clear bits sets one run of `n` clear bits. */
  ghost predicate FillsOneRun(bits: seq<bool>, n: nat) {
    exists lo :: FillsRunAt(bits, n, lo)
  }

  ghost predicate FillsRunAt(bits: seq<bool>, n: nat, lo: int) {
    0 <= lo && lo + n <= |bits| && FillFirst(bits, n) == SetRange(bits, lo, n) &&
    forall i :: lo <= i < lo + n ==> !bits[i]
  }

  /** The first `n` clear bits form one run exactly when the `n` bits from the first clear one on
      are all clear. */
  lemma FillIsRun(bits: seq<bool>, n: nat)
    requires 0 < n <= Zeros(bits)
    ensures var p := FirstZero(bits);
            p < |bits| && (FillsOneRun(bits, n) <==> p + n <= |bits| && forall i :: p <= i < p + n ==> !bits[i]) &&
            (FillsOneRun(bits, n) ==> FillsRunAt(bits, n, p))
  {
    var p := FirstZero(bits);
    ZerosOfFull(bits);
    FirstClearIsFilled(bits, n);
    if p + n <= |bits| && forall i :: p <= i < p + n ==> !bits[i] {
      FillBlock(bits, p, n);
      assert FillsRunAt(bits, n, p);
    }
    if FillsOneRun(bits, n) {
      var lo :| FillsRunAt(bits, n, lo);
      assert SetRange(bits, lo, n)[p] == (bits[p] || lo <= p < lo + n);
      assert lo <= p;
      assert !bits[lo];
    }
  }

  lemma FirstClearIsFilled(bits: seq<bool>, n: nat)
    requires 0 < n && FirstZero(bits) < |bits|
    ensures FillFirst(bits, n)[FirstZero(bits)]
  {
  }

  lemma {:induction false} ZerosOfClear(bits: seq<bool>)
    requires forall i :: 0 <= i < |bits| ==> !bits[i]
    ensures Zeros(bits) == |bits|
  {
    if bits != [] { ZerosOfClear(bits[1..]); }
  }

  lemma {:induction false} FillClear(bits: seq<bool>, n: nat)
    requires n <= |bits| && forall i :: 0 <= i < n ==> !bits[i]
    ensures FillFirst(bits, n) == SetRange(bits, 0, n)
  {
    if n != 0 { FillClear(bits[1..], n - 1); }
  }

  lemma RangeShift(bits: seq<bool>, p: nat, n: nat)
    requires p + n <= |bits|
    ensures SetRange(bits, p, n) == bits[..p] + SetRange(bits[p..], 0, n)
  {
  }

  /** Nothing clear before `p`, `n` clear bits from there: they are the ones filled. */
  lemma FillBlock(bits: seq<bool>, p: nat, n: nat)
    requires p + n <= |bits| && (forall i :: 0 <= i < p ==> bits[i]) && (forall i :: p <= i < p + n ==> !bits[i])
    ensures FillFirst(bits, n) == SetRange(bits, p, n)
  {
    var front, rest := bits[..p], bits[p..];
    RangeShift(bits, p, n);
    assert Left(front, n) == n && FillFirst(front, n) == front by {
      ZerosOfFull(front);
      FillFull(front, n);
    }
    assert FillFirst(rest, n) == SetRange(rest, 0, n) by {
      FillClear(rest, n);
    }
    assert bits == front + rest;
    FillFirstAppend(front, rest, n);
  }
}
