/** quo_xpm_t: the cooperative allocator's sizing. Each node process asks
    for local_size bytes; the sizes are exchanged over the node
    communicator, copied into local_sizes (indexed by qid) and summed into
    global_size. Sizes are size_t (LP64), so every sum is modulo 2^64. */
module Xpm {
  import opened QuoTypes

  /** What range_sum(array, start, end) computes: the size_t sum of the
      half-open range [start, end), and 0 when start >= end. */
  function RangeTotal(s: seq<U64>, start: int, end: int): U64
    requires start < end ==> 0 <= start && end <= |s|
  {
    if start < end then Sum(s[start..end]) % U64Modulus else 0
  }

  lemma RangeTotalStep(s: seq<U64>, start: int, i: int)
    requires 0 <= start <= i < |s|
    ensures RangeTotal(s, start, i + 1) == (RangeTotal(s, start, i) + s[i]) % U64Modulus
  {
    var a, b := s[start..i], s[start..i + 1];
    assert b[..|b| - 1] == a;
    assert Sum(b) == Sum(a) + s[i];
    if start == i {
      assert a == [];
    } else {
      ModAddLeft(Sum(a), s[i]);
    }
  }

  /** range_sum: accumulate array[i] for i in [start, end) into a size_t. */
  method RangeSum(a: array<U64>, start: int, end: int) returns (res: U64)
    requires start < end ==> 0 <= start && end <= a.Length
    ensures res == RangeTotal(a[..], start, end)
  {
    res := 0;
    var i := start;
    while i < end
      invariant start < end ==> start <= i <= end
      invariant start >= end ==> i == start
      invariant res == RangeTotal(a[..], start, i)
    {
      RangeTotalStep(a[..], start, i);
      res := (res + a[i]) % U64Modulus;
      i := i + 1;
    }
  }

  /** range_sum over [lo, mid) and [mid, hi) adds up, in size_t, to range_sum
      over [lo, hi). */
  lemma RangeTotalAdditive(s: seq<U64>, lo: int, mid: int, hi: int)
    requires 0 <= lo <= mid <= hi <= |s|
    ensures (RangeTotal(s, lo, mid) + RangeTotal(s, mid, hi)) % U64Modulus == RangeTotal(s, lo, hi)
  {
    var a, b := s[lo..mid], s[mid..hi];
    assert s[lo..hi] == a + b;
    SumConcat(a, b);
    if lo == mid {
      assert a == [];
    } else if mid == hi {
      assert b == [];
    } else {
      ModAddLeft(Sum(a), Sum(b) % U64Modulus);
      ModAddLeft(Sum(b), Sum(a));
    }
  }

  // ---------------------------------------------------------------------
  // The aggregate: as coded, and as intended
  // ---------------------------------------------------------------------

  /** global_size as mem_segment_create computes it: range_sum over
      [0, nqid - 1), which leaves out the last participant. */
  function CodedGlobalSize(sizes: seq<U64>): U64
  {
    RangeTotal(sizes, 0, |sizes| - 1)
  }

  /** global_size as intended: the sum of every participant's size. */
  function IntendedGlobalSize(sizes: seq<U64>): U64
  {
    RangeTotal(sizes, 0, |sizes|)
  }

  /** range_sum over a single slot is that slot's size. */
  lemma RangeTotalSingle(s: seq<U64>, i: int)
    requires 0 <= i < |s|
    ensures RangeTotal(s, i, i + 1) == s[i]
  {
    assert s[i..i + 1] == [s[i]];
    assert Sum(s[i..i + 1]) == Sum([]) + s[i];
  }

  /** Below 2^64, range_sum is the plain sum. */
  lemma RangeTotalExact(s: seq<U64>, lo: int, hi: int)
    requires 0 <= lo <= hi <= |s| && Sum(s[lo..hi]) < U64Modulus
    ensures RangeTotal(s, lo, hi) == Sum(s[lo..hi])
  {
    SumNonNegative(s[lo..hi]);
    if lo == hi {
      assert s[lo..hi] == [];
    }
  }

  /** The coded aggregate falls short of the intended one by exactly the
      last participant's size (in size_t). */
  lemma CodedGlobalSizeOmitsLast(sizes: seq<U64>)
    requires |sizes| > 0
    ensures (CodedGlobalSize(sizes) + sizes[|sizes| - 1]) % U64Modulus == IntendedGlobalSize(sizes)
  {
    var n := |sizes|;
    RangeTotalAdditive(sizes, 0, n - 1, n);
    RangeTotalSingle(sizes, n - 1);
  }

  /** When the full sum fits in a size_t, the coded aggregate is the plain
      sum minus the last participant's size. */
  lemma CodedGlobalSizeExact(sizes: seq<U64>)
    requires |sizes| > 0 && Sum(sizes) < U64Modulus
    ensures CodedGlobalSize(sizes) == Sum(sizes) - sizes[|sizes| - 1]
  {
    var n := |sizes|;
    var init := sizes[..n - 1];
    assert sizes[0..n - 1] == init;
    assert Sum(sizes) == Sum(init) + sizes[n - 1];
    RangeTotalExact(sizes, 0, n - 1);
  }

  /** The intended aggregate is the plain sum whenever that fits a size_t. */
  lemma IntendedGlobalSizeIsSum(sizes: seq<U64>)
    requires Sum(sizes) < U64Modulus
    ensures IntendedGlobalSize(sizes) == Sum(sizes)
  {
    SumNonNegative(sizes);
    assert sizes[0..|sizes|] == sizes;
  }

  /** Two node processes asking for 100 and 50 bytes: the intended
      aggregate is 150, the coded one 100. */
  lemma TwoParticipantsAggregate()
    ensures IntendedGlobalSize([100, 50]) == 150
    ensures CodedGlobalSize([100, 50]) == 100
  {
    var s: seq<U64> := [100, 50];
    assert s[0..2] == s;
    assert s[0..1] == [100];
    assert Sum(s[0..1]) == 100;
  }

  /** A byte range of the shared segment: offset and extent. */
  datatype ByteRange = ByteRange(offset: U64, extent: U64)

  /** The view the node processes qidStart .. qidEnd - 1 own, as the
      half-open prefix sum over the exchanged sizes; a reversed or
      out-of-range qid range is an invalid argument. */
  function IntendedView(sizes: seq<U64>, qidStart: int, qidEnd: int): (r: Result<ByteRange>)
    ensures r.Err? <==> !(0 <= qidStart <= qidEnd <= |sizes|)
    ensures r.Err? ==> r.error == ErrInvldArg
  {
    if 0 <= qidStart <= qidEnd <= |sizes| then
      Ok(ByteRange(RangeTotal(sizes, 0, qidStart), RangeTotal(sizes, qidStart, qidEnd)))
    else
      Err(ErrInvldArg)
  }

  /** The view of every participant is the whole (intended) segment. */
  lemma WholeViewIsSegment(sizes: seq<U64>)
    ensures IntendedView(sizes, 0, |sizes|) == Ok(ByteRange(0, IntendedGlobalSize(sizes)))
  {
  }

  /** Adjacent views tile: the view of [lo, hi) starts where the view of
      [lo, mid) starts, the view of [mid, hi) starts where [lo, mid) ends,
      and the extents add up (all in size_t). */
  lemma ViewsTile(sizes: seq<U64>, lo: int, mid: int, hi: int)
    requires 0 <= lo <= mid <= hi <= |sizes|
    ensures IntendedView(sizes, lo, hi).value.offset == IntendedView(sizes, lo, mid).value.offset
    ensures IntendedView(sizes, mid, hi).value.offset ==
              (IntendedView(sizes, lo, mid).value.offset + IntendedView(sizes, lo, mid).value.extent) % U64Modulus
    ensures IntendedView(sizes, lo, hi).value.extent ==
              (IntendedView(sizes, lo, mid).value.extent + IntendedView(sizes, mid, hi).value.extent) % U64Modulus
  {
    RangeTotalAdditive(sizes, 0, lo, mid);
    RangeTotalAdditive(sizes, lo, mid, hi);
  }

  /** When the segment's intended size fits a size_t, the last
      participant's view starts at the coded global_size and reaches past
      it whenever that participant asked for any bytes. */
  lemma LastViewOverrunsCodedSize(sizes: seq<U64>)
    requires |sizes| > 0 && Sum(sizes) < U64Modulus
    ensures IntendedView(sizes, |sizes| - 1, |sizes|).value.offset == CodedGlobalSize(sizes)
    ensures IntendedView(sizes, |sizes| - 1, |sizes|).value.extent == sizes[|sizes| - 1]
    ensures sizes[|sizes| - 1] > 0 ==>
              CodedGlobalSize(sizes) < CodedGlobalSize(sizes) + IntendedView(sizes, |sizes| - 1, |sizes|).value.extent
                == IntendedGlobalSize(sizes)
  {
    var n := |sizes|;
    CodedGlobalSizeExact(sizes);
    IntendedGlobalSizeIsSum(sizes);
    RangeTotalSingle(sizes, n - 1);
  }

  /** The node example: sizes [100, 50] give the views [0, 100) and
      [100, 150), and the whole view covers 150 bytes. */
  lemma TwoParticipantsViews()
    ensures IntendedView([100, 50], 0, 1) == Ok(ByteRange(0, 100))
    ensures IntendedView([100, 50], 1, 2) == Ok(ByteRange(100, 50))
    ensures IntendedView([100, 50], 0, 2) == Ok(ByteRange(0, 150))
    ensures IntendedView([100, 50], 1, 0).Err?
  {
    var s: seq<U64> := [100, 50];
    assert s[0..1] == [100];
    assert s[1..2] == [50];
    assert s[0..2] == s;
    assert Sum(s[0..1]) == 100;
    assert Sum(s[1..2]) == 50;
  }

  // ---------------------------------------------------------------------
  // The allocator object
  // ---------------------------------------------------------------------

  /** The parts of QUO_t the allocator reads: this process's qid (its rank
      on the node) and the number of node processes. */
  datatype QuoContext = QuoContext(qid: nat, nqid: nat)

  /** The collaborator call that reports failure, if any. */
  datatype XpmFault =
    | NoXpmFault
    | XpmOom                        // calloc of the quo_xpm_t
    | SizesOom                      // calloc of local_sizes
    | SegmentConstructFails(e: ErrRc) // quo_sm_construct
    | NodeCommFails(e: ErrRc)       // quo_mpi_get_node_comm
    | LsizesOom                     // calloc of the exchange buffer
    | SizesGatherFails              // the allgather of the sizes

  predicate InConstruct(f: XpmFault)
  {
    f.XpmOom? || f.SizesOom? || f.SegmentConstructFails? || f.NodeCommFails?
  }

  /** The code construct_xpm returns for one of its own faults. */
  function ConstructRc(f: XpmFault): Rc
    requires InConstruct(f)
  {
    match f
    case SegmentConstructFails(e) => e
    case NodeCommFails(e) => e
    case _ => ErrOor
  }

  /** The exchanged sizes, each stored back into a size_t. */
  function StoredSizes(gathered: seq<I64>): (r: seq<U64>)
    ensures |r| == |gathered|
    ensures forall i :: 0 <= i < |gathered| ==> r[i] == ToU64(gathered[i])
  {
    seq(|gathered|, i requires 0 <= i < |gathered| => ToU64(gathered[i]))
  }

  class QuoXpm {
    var qc: QuoContext
    var custodian: bool
    /** Whether the quo_sm_t backing store is constructed. */
    var segment: bool
    var localSize: U64
    var globalSize: U64
    var localSizes: array?<U64>

    /** calloc of the structure: every field zero. */
    constructor ()
      ensures qc == QuoContext(0, 0) && !custodian && !segment
      ensures localSize == 0 && globalSize == 0 && localSizes == null
    {
      qc := QuoContext(0, 0);
      custodian := false;
      segment := false;
      localSize := 0;
      globalSize := 0;
      localSizes := null;
    }

    /** mem_segment_create: exchange the sizes, copy them back and compute
        global_size. A failed exchange is reported, but the copy-back and the
        aggregate still run on whatever the buffer holds. */
    method MemSegmentCreate(lsizesOk: bool, gathered: seq<I64>, gatherOk: bool) returns (rc: Rc)
      requires localSizes != null && localSizes.Length == qc.nqid == |gathered|
      requires qc.qid < qc.nqid
      requires gatherOk ==> gathered[qc.qid] == ToI64(localSize)
      modifies this`globalSize, localSizes
      ensures !lsizesOk ==> rc == ErrOor && globalSize == old(globalSize) && localSizes[..] == old(localSizes[..])
      ensures lsizesOk ==> rc == (if gatherOk then Success else ErrMpi)
      ensures lsizesOk ==> localSizes[..] == StoredSizes(gathered) && globalSize == CodedGlobalSize(localSizes[..])
      ensures lsizesOk && gatherOk ==> localSizes[qc.qid] == localSize
    {
      if !lsizesOk {
        return ErrOor;
      }
      rc := if gatherOk then Success else ErrMpi;
      var n := qc.nqid;
      for i := 0 to n
        invariant forall j :: 0 <= j < i ==> localSizes[j] == ToU64(gathered[j])
      {
        localSizes[i] := ToU64(gathered[i]);
      }
      assert localSizes[..] == StoredSizes(gathered);
      if gatherOk {
        SizeRoundTrip(localSize);
      }
      globalSize := RangeSum(localSizes, 0, n - 1);
    }
  }

  /** destruct_xpm: release the backing store and local_sizes; a null
      allocator is accepted. */
  method DestructXpm(xpm: QuoXpm?) returns (rc: Rc)
    modifies xpm
    ensures rc == Success
    ensures xpm != null ==> !xpm.segment && xpm.localSizes == null
  {
    if xpm != null {
      xpm.segment := false;
      xpm.localSizes := null;
    }
    rc := Success;
  }

  /** construct_xpm: allocate the structure, the zeroed size array and the
      backing store, take the node communicator, and record the context,
      the custodian flag and the local size; on failure tear down what was
      built and hand back null. */
  method ConstructXpm(qc: QuoContext, localSize: U64, fault: XpmFault) returns (rc: Rc, newXpm: QuoXpm?)
    ensures InConstruct(fault) ==> rc == ConstructRc(fault) && newXpm == null
    ensures !InConstruct(fault) ==> rc == Success && newXpm != null && fresh(newXpm)
    ensures newXpm != null ==>
              newXpm.qc == qc && newXpm.custodian == (qc.qid == 0) && newXpm.localSize == localSize &&
              newXpm.segment && newXpm.globalSize == 0 &&
              newXpm.localSizes != null && fresh(newXpm.localSizes) &&
              newXpm.localSizes[..] == seq(qc.nqid, _ => 0)
  {
    if fault == XpmOom {
      rc := DestructXpm(null);
      return ErrOor, null;
    }
    var txpm := new QuoXpm();
    rc := Success;
    if fault == SizesOom {
      rc := ErrOor;
    } else {
      var sizes := new U64[qc.nqid](_ => 0);
      txpm.localSizes := sizes;
      if fault.SegmentConstructFails? {
        rc := fault.e;
      } else {
        txpm.segment := true;
        if fault.NodeCommFails? {
          rc := fault.e;
        } else {
          txpm.qc := qc;
          txpm.custodian := qc.qid == 0;
          txpm.localSize := localSize;
        }
      }
    }
    if rc != Success {
      var _ := DestructXpm(txpm);
      newXpm := null;
    } else {
      newXpm := txpm;
    }
  }

  /** QUO_xpm_allocate: check the arguments, construct, then size the
      segment; on any failure destruct and store null. `slot` is what
      new_xpm points at (None for a null new_xpm), the result is its
      contents afterwards. */
  method XpmAllocate(qc: Option<QuoContext>, localSize: U64, slot: Option<QuoXpm?>,
                     fault: XpmFault, gathered: seq<I64>)
    returns (rc: Rc, newSlot: Option<QuoXpm?>)
    requires qc.Some? ==> qc.value.qid < qc.value.nqid == |gathered|
    requires qc.Some? && fault != SizesGatherFails ==> gathered[qc.value.qid] == ToI64(localSize)
    ensures qc.None? || slot.None? ==> rc == ErrInvldArg && newSlot == slot
    ensures qc.Some? && slot.Some? ==> newSlot.Some?
    ensures qc.Some? && slot.Some? && rc != Success ==> newSlot == Some(null)
    ensures qc.Some? && slot.Some? && InConstruct(fault) ==> rc == ConstructRc(fault)
    ensures qc.Some? && slot.Some? && fault == LsizesOom ==> rc == ErrOor
    ensures qc.Some? && slot.Some? && fault == SizesGatherFails ==> rc == ErrMpi
    ensures qc.Some? && slot.Some? && !InConstruct(fault) && fault != LsizesOom && fault != SizesGatherFails ==>
              rc == Success
    ensures rc == Success ==>
              newSlot.value != null && fresh(newSlot.value) &&
              newSlot.value.qc == qc.value && newSlot.value.custodian == (qc.value.qid == 0) &&
              newSlot.value.localSize == localSize && newSlot.value.localSizes != null &&
              newSlot.value.localSizes[..] == StoredSizes(gathered) &&
              newSlot.value.localSizes[qc.value.qid] == localSize &&
              newSlot.value.globalSize == CodedGlobalSize(StoredSizes(gathered))
  {
    if qc.None? || slot.None? {
      return ErrInvldArg, slot;
    }
    var xpm;
    rc, xpm := ConstructXpm(qc.value, localSize, fault);
    if rc == Success {
      rc := xpm.MemSegmentCreate(fault != LsizesOom, gathered, fault != SizesGatherFails);
    }
    if rc != Success {
      var _ := DestructXpm(xpm);
      xpm := null;
    }
    newSlot := Some(xpm);
  }

  /** QUO_xpm_free. */
  method XpmFree(xpm: QuoXpm?) returns (rc: Rc)
    modifies xpm
    ensures rc == Success
    ensures xpm != null ==> !xpm.segment && xpm.localSizes == null
  {
    rc := DestructXpm(xpm);
  }

  /** What a QUO_xpm_view_t holds: the start of a range and its extent. */
  class XpmView {
    var base: U64
    var extent: U64

    constructor ()
      ensures base == 0 && extent == 0
    {
      base, extent := 0, 0;
    }
  }

  /** QUO_xpm_view_by_qid: only the null checks are implemented; the view
      is never written, whatever the qid range. */
  method ViewByQid(xc: QuoXpm?, qidStart: int, qidEnd: int, rview: XpmView?) returns (rc: Rc)
    ensures rc == Success || rc == ErrInvldArg
    ensures rc == ErrInvldArg <==> xc == null || rview == null
  {
    if xc == null || rview == null {
      return ErrInvldArg;
    }
    rc := Success;
  }
}
