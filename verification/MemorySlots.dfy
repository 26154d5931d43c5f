/** Address slots of forked processes: alloc_mem (mm/main.c), the segment descriptors init_descriptor
    fills in (kernel/protect.c), and what va2la (kernel/proc.c) and do_fork (mm/forkexit.c) read back
    from them.  Everything is 32-bit arithmetic, as in the source. */
module MemorySlots {
  import opened Options
  import opened Bits

  const NR_TASKS_AND_NATIVE: u32 := 7
  const NR_SLOTS: u32 := 37
  const ALLOC_BASE: u32 := 0xA00000
  const IMAGE_SIZE: u32 := 0x100000

  /** DA_32 | DA_DRW | PRIVILEGE_USER << 5 | DA_LIMIT_4K, and the same for DA_C. */
  const DATA_ATTR: bv16 := 0xC0F2
  const CODE_ATTR: bv16 := 0xC0F8

  /** The size of a segment as do_fork computes it from its limit, in 32 bits. */
  function SizeOf(limit: u32, pages: bool): u32 {
    if pages then (1 + limit) * 4096 else 1 + limit
  }

  /** The same without wrapping. */
  function TrueSizeOf(limit: u32, pages: bool): bv64 {
    if pages then (1 + (limit as bv64)) * 4096 else 1 + (limit as bv64)
  }

  /** The size did not wrap. */
  predicate Exact(limit: u32, pages: bool) {
    if pages then SizeOf(limit, true) as bv64 == TrueSizeOf(limit, true)
    else SizeOf(limit, false) as bv64 == TrueSizeOf(limit, false)
  }

  class Descriptor {
    var limitLow: bv16
    var baseLow: bv16
    var baseMid: bv8
    var attr1: bv8
    var limitHighAttr2: bv8
    var baseHigh: bv8

    constructor ()
    {
      limitLow, baseLow, baseMid, attr1, limitHighAttr2, baseHigh := 0, 0, 0, 0, 0, 0;
    }

    /** ldt_seg_linear: the base, put together with `|`. */
    function Base(): u32
      reads this
    {
      ((baseHigh as u32) << 24) | ((baseMid as u32) << 16) | (baseLow as u32)
    }

    /** The base as do_fork reassembles it, with `+`. */
    function ReassembledBase(): u32
      reads this
    {
      ((baseHigh as u32) << 24) + ((baseMid as u32) << 16) + (baseLow as u32)
    }

    function Limit(): u32
      reads this
    {
      (((limitHighAttr2 & 0xF) as u32) << 16) + (limitLow as u32)
    }

    /** The segment size do_fork computes. */
    function Size(): u32
      reads this
    {
      SizeOf(Limit(), limitHighAttr2 & 0x80 != 0)
    }

    /** The true size of the segment, which may need 33 bits. */
    function TrueSize(): bv64
      reads this
    {
      TrueSizeOf(Limit(), limitHighAttr2 & 0x80 != 0)
    }

    predicate SizeIsTrue()
      reads this
    {
      Exact(Limit(), limitHighAttr2 & 0x80 != 0)
    }

    /** A segment of all 4 GB. */
    predicate Flat()
      reads this
    {
      Limit() == 0xFFFFF && limitHighAttr2 & 0x80 != 0
    }

    /** init_descriptor: base and 20-bit limit read back unchanged, for every base and limit. */
    method Init(base: u32, limit: u32, attr: bv16)
      modifies this
      ensures Base() == base && ReassembledBase() == base
      ensures Limit() == limit & 0xFFFFF
      ensures limitHighAttr2 & 0x80 != 0 <==> attr & 0x8000 != 0
      ensures attr1 == (attr & 0xFF) as bv8 && limitHighAttr2 & 0xF0 == ((attr >> 8) & 0xF0) as bv8
      ensures (baseLow as u32) == base & 0xFFFF && (baseMid as u32) << 16 == base & 0xFF0000
      ensures (baseHigh as u32) << 24 == base & 0xFF000000 && (limitLow as u32) == limit & 0xFFFF
    {
      limitLow := (limit & 0xFFFF) as bv16;
      baseLow := (base & 0xFFFF) as bv16;
      baseMid := ((base >> 16) & 0xFF) as bv8;
      attr1 := (attr & 0xFF) as bv8;
      limitHighAttr2 := (((attr >> 8) & 0xF0) as bv8) | (((limit >> 16) & 0xF) as bv8);
      baseHigh := ((base >> 24) & 0xFF) as bv8;
    }
  }

  function SlotBase(pid: u32): u32 {
    ALLOC_BASE + (pid - NR_TASKS_AND_NATIVE) * IMAGE_SIZE
  }

  predicate Negative(a: u32) {
    a >= 0x8000_0000
  }

  /** `a > b` on signed 32-bit integers. */
  predicate Greater(a: u32, b: u32) {
    if Negative(a) == Negative(b) then a > b else Negative(b)
  }

  /** The two tests of alloc_mem; its comparisons are signed. */
  predicate Accepts(end: u32, memSize: u32, memorySize: u32) {
    !Greater(memSize, IMAGE_SIZE) && !Greater(end, memorySize)
  }

  /** alloc_mem for a forked pid; None where the source panics. */
  function AllocMem(pid: u32, memSize: u32, memorySize: u32): Option<u32> {
    if Accepts(SlotBase(pid) + memSize, memSize, memorySize) then Some(SlotBase(pid)) else None
  }

  /** A slot starts above the base of the area, ends below 41 MB, and no size up to a slot wraps. */
  lemma SlotBound(pid: u32, memSize: u32, end: u32)
    requires Forked(pid) && end == SlotBase(pid) + memSize
    ensures memSize <= IMAGE_SIZE ==> ALLOC_BASE <= SlotBase(pid) <= end < 0x0290_0000
  {
  }

  /** What alloc_mem is for: the size is at most a slot and the memory handed out ends within the machine's. */
  predicate Fits(end: u32, memSize: u32, memorySize: u32) {
    memSize <= IMAGE_SIZE && end <= memorySize
  }

  /** The inputs on which the signed comparisons decide as intended: on a machine below 2 GB, sizes below
      2 GB and larger ones whose wrapped end lies beyond the memory; on a larger machine, only sizes that
      are refused anyway. */
  predicate DecidesRight(end: u32, memSize: u32, memorySize: u32) {
    if Negative(memorySize)
    then memSize > IMAGE_SIZE && (!Negative(memSize) || !Negative(end) || end > memorySize)
    else !Negative(memSize) || (!Negative(end) && end > memorySize)
  }

  lemma AcceptsIff(end: u32, memSize: u32, memorySize: u32)
    requires memSize <= IMAGE_SIZE ==> end < 0x0290_0000
    ensures (Accepts(end, memSize, memorySize) <==> Fits(end, memSize, memorySize)) <==>
            DecidesRight(end, memSize, memorySize)
    ensures Negative(memSize) && !Negative(memorySize) ==>
              (Accepts(end, memSize, memorySize) <==> Negative(end) || end <= memorySize)
  {
  }

  /** For every size and every machine: alloc_mem accepts exactly when it should if and only if
      DecidesRight.  A size of 2 GB and more is accepted unless its end wraps to a place beyond the memory. */
  lemma AllocFits(pid: u32, memSize: u32, memorySize: u32, end: u32)
    requires Forked(pid) && end == SlotBase(pid) + memSize
    ensures (AllocMem(pid, memSize, memorySize).Some? <==> Fits(end, memSize, memorySize)) <==>
            DecidesRight(end, memSize, memorySize)
    ensures Negative(memSize) && !Negative(memorySize) ==>
              (AllocMem(pid, memSize, memorySize).Some? <==> Negative(end) || end <= memorySize)
  {
    SlotBound(pid, memSize, end);
    AcceptsIff(end, memSize, memorySize);
  }

  /** Four gigabytes less a page, on a machine of 32 MB, are accepted for process 7. */
  lemma HugeSizeAccepted()
    ensures AllocMem(7, 0xFFFF_F000, 0x0200_0000) == Some(ALLOC_BASE)
  {
  }

  /** On a machine of 2 GB nothing is accepted, not even one page. */
  lemma LargeMachineRefuses()
    ensures AllocMem(7, 0x1000, 0x8000_0000) == None
  {
  }

  /** va2la through a segment base. */
  function Va2La(base: u32, va: u32): u32 {
    va + base
  }

  predicate Forked(pid: u32) {
    NR_TASKS_AND_NATIVE <= pid < NR_SLOTS
  }

  /** Every address below 1 MB maps into the slot of its process, and slots do not overlap. */
  lemma SlotsDisjoint(p: u32, q: u32, va: u32, wa: u32)
    requires Forked(p) && Forked(q) && va < IMAGE_SIZE && wa < IMAGE_SIZE
    ensures SlotBase(p) <= Va2La(SlotBase(p), va) <= SlotBase(p) + (IMAGE_SIZE - 1)
    ensures Va2La(SlotBase(p), va) == Va2La(SlotBase(q), wa) ==> p == q && va == wa
  {
  }

  /** The slots follow each other without a gap, in the order of the processes, from 10 MB on. */
  lemma SlotsFollow(p: u32)
    requires Forked(p) && Forked(p + 1)
    ensures SlotBase(NR_TASKS_AND_NATIVE) == 0xA00000 && SlotBase(p + 1) == SlotBase(p) + IMAGE_SIZE
  {
  }

  /** A segment of do_fork's child: one slot, in 4 KB units. */
  method InitSlot(d: Descriptor, base: u32, attr: bv16)
    requires attr & 0x8000 != 0
    modifies d
    ensures d.Base() == base && d.ReassembledBase() == base && d.Limit() == 0xFF && d.Size() == IMAGE_SIZE
    ensures d.attr1 == (attr & 0xFF) as bv8
  {
    d.Init(base, (IMAGE_SIZE - 1) >> 12, attr);
  }

  /** The assertion of do_fork on the caller's segments. */
  ghost predicate SameSegment(code: Descriptor, data: Descriptor)
    reads code, data
  {
    code.ReassembledBase() == data.ReassembledBase() && code.Limit() == data.Limit() && code.Size() == data.Size()
  }

  lemma LimitBound(high: bv8, low: bv16)
    ensures (((high & 0xF) as u32) << 16) + (low as u32) <= 0xFFFFF
  {
  }

  lemma ExactIff(limit: u32, pages: bool)
    requires limit <= 0xFFFFF
    ensures Exact(limit, pages) <==> !(limit == 0xFFFFF && pages)
  {
    if pages { PagesAreExactIff(limit); } else { BytesAreExact(limit); }
  }

  lemma BytesAreExact(limit: u32)
    requires limit <= 0xFFFFF
    ensures Exact(limit, false)
  {
  }

  lemma PagesAreExactIff(limit: u32)
    requires limit <= 0xFFFFF
    ensures Exact(limit, true) <==> limit != 0xFFFFF
  {
  }

  /** The 32-bit size of a segment is its true size exactly unless the segment is flat. */
  lemma SizeIsTrueIff(d: Descriptor)
    ensures d.SizeIsTrue() <==> !d.Flat()
  {
    LimitBound(d.limitHighAttr2, d.limitLow);
    ExactIff(d.Limit(), d.limitHighAttr2 & 0x80 != 0);
  }

  lemma FlatSizes()
    ensures SizeOf(0xFFFFF, true) == 0 && TrueSizeOf(0xFFFFF, true) == 0x1_0000_0000
  {
  }

  /** The last address of the segment of 1 MB that do_fork gives process `pid`. */
  function SegmentEnd(pid: u32): u32 {
    Va2La(SlotBase(pid), IMAGE_SIZE - 1)
  }

  /** The segment lies in the machine's memory exactly when the whole slot does, whatever size alloc_mem was
      asked for: no address of it is beyond its last one. */
  lemma SegmentInsideIff(pid: u32, memorySize: u32, va: u32)
    requires Forked(pid) && va < IMAGE_SIZE
    ensures Va2La(SlotBase(pid), va) <= SegmentEnd(pid)
    ensures SegmentEnd(pid) < memorySize <==> SlotBase(pid) + IMAGE_SIZE <= memorySize
  {
  }

  /** A page is handed out on a machine that ends with that page, and the child's segment goes beyond it. */
  lemma SegmentMayLeaveMemory()
    ensures AllocMem(7, 0x1000, 0x00A0_1000) == Some(ALLOC_BASE) && SegmentEnd(7) >= 0x00A0_1000
  {
  }

  /** The memory part of do_fork: allocate the child's slot, copy the caller's image, and give the child
      code and data segments over the slot.  The child's segments meet what do_fork asserts of a caller and
      cover exactly one slot.  `copied` is the number of bytes of the caller's image in the child's slot:
      all of them, unless the caller's segment is flat. */
  method ForkSegments(pid: u32, parentCode: Descriptor, parentData: Descriptor, code: Descriptor, data: Descriptor,
                      memorySize: u32)
    returns (base: Option<u32>, copied: u32)
    requires Forked(pid) && code != data && SameSegment(parentCode, parentData)
    modifies code, data
    ensures base == AllocMem(pid, old(parentCode.Size()), memorySize)
    ensures base.Some? ==> copied == old(parentCode.Size())
    ensures old(parentCode.SizeIsTrue()) <==> !old(parentCode.Flat())
    ensures base.Some? ==> code.Base() == SlotBase(pid) && data.Base() == SlotBase(pid)
    ensures base.Some? ==> code.Size() == IMAGE_SIZE && SameSegment(code, data)
    ensures base.Some? ==> code.attr1 == 0xF8 && data.attr1 == 0xF2
  {
    SizeIsTrueIff(parentCode);
    var size := parentCode.Size();
    base := AllocMem(pid, size, memorySize);
    copied := 0;
    if base.Some? {
      copied := size;
      InitSlot(code, base.value, CODE_ATTR);
      InitSlot(data, base.value, DATA_ATTR);
    }
  }

  /** The segments of a task or of testA, copied from the flat descriptors of the loader: a fork of such a
      caller is accepted although its image has 4 GB, and copies nothing. */
  method FlatCallerCopiesNothing(code: Descriptor, data: Descriptor, childCode: Descriptor, childData: Descriptor)
    returns (base: Option<u32>, copied: u32)
    requires code != data && code != childCode && code != childData && data != childCode && data != childData
    requires childCode != childData
    modifies code, data, childCode, childData
    ensures base == Some(ALLOC_BASE) && copied == 0 && code.TrueSize() == 0x1_0000_0000
  {
    code.Init(0, 0xFFFFF, 0xC098);
    data.Init(0, 0xFFFFF, 0xC092);
    FlatSizes();
    base, copied := ForkSegments(7, code, data, childCode, childData, 0x0200_0000);
  }
}
