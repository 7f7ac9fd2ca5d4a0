/**
 The MDL wrapper of driver/lib/mdl_cpp.h.

 An `Mdl` owns an optional memory descriptor list (null when none is held)
 and a "paged" flag. Its accessors read the descriptor and answer null or 0
 when there is none. `prepare` and `unprepare` are only declared in the
 header; their bodies and the memory manager behind them are not part of
 this model. What the batch helpers need of them is modelled abstractly: a
 `prepared` flag that a successful prepare sets and unprepare clears, the
 status the memory manager answers (an input of `Prepare`), and ghost logs
 of the calls made, so that the batch helpers' order and early exit can be
 stated.
 */
module MdlCpp {
  import opened Kernel

  /** enum class memory { nonpaged, paged, stack = paged }. */
  datatype Memory = NonPaged | Paged

  /** memory::stack is another name for memory::paged. */
  const Stack: Memory := Paged

  /** LOCK_OPERATION. */
  datatype LockOperation = IoReadAccess | IoWriteAccess | IoModifyAccess

  /** KPROCESSOR_MODE. */
  datatype ProcessorMode = KernelMode | UserMode

  const DEF_ACCESS_MODE: ProcessorMode := KernelMode

  /** MM_PAGE_PRIORITY NormalPagePriority, the default priority of sysaddr. */
  const NormalPagePriority: nat := 16

  /**
   The fields of an MDL that the accessors read. Addresses are numbers and
   0 is the null pointer; `next` is the MDL chained after this one.
   */
  datatype MdlDescriptor = MdlDescriptor(virtualAddress: nat, byteOffset: nat, byteCount: nat, next: nat)

  class Mdl {
    /** m_mdl; None is the null pointer. */
    var mdl: Option<MdlDescriptor>
    /** m_paged. */
    var paged: bool
    /** Abstract lock state: the last prepare succeeded and no unprepare followed. */
    var prepared: bool
    /** Every call of prepare, with its arguments, oldest first. */
    ghost var prepareLog: seq<(LockOperation, ProcessorMode)>
    /** How many times unprepare was called. */
    ghost var unprepareCount: nat

    /** explicit operator bool: true exactly when an MDL is held. */
    function Held(): (b: bool)
      reads this
      ensures b <==> mdl.Some?
    {
      mdl.Some?
    }

    /** operator!: the negation of operator bool. */
    function IsNull(): (b: bool)
      reads this
      ensures b <==> !Held()
    {
      mdl.None?
    }

    /** get(): the descriptor itself, null exactly when none is held. */
    function Get(): (d: Option<MdlDescriptor>)
      reads this
      ensures d.None? <==> IsNull()
    {
      mdl
    }

    /** addr(): the descriptor's virtual address, null without an MDL. */
    function Addr(): (a: nat)
      reads this
      ensures mdl.None? ==> a == 0
      ensures mdl.Some? ==> a == mdl.value.virtualAddress
    {
      if mdl.Some? then mdl.value.virtualAddress else 0
    }

    /** offset(): the byte offset in the first page, 0 without an MDL. */
    function Offset(): (n: nat)
      reads this
      ensures mdl.None? ==> n == 0
      ensures mdl.Some? ==> n == mdl.value.byteOffset
    {
      if mdl.Some? then mdl.value.byteOffset else 0
    }

    /** size(): the byte count, 0 without an MDL. */
    function Size(): (n: nat)
      reads this
      ensures mdl.None? ==> n == 0
      ensures mdl.Some? ==> n == mdl.value.byteCount
    {
      if mdl.Some? then mdl.value.byteCount else 0
    }

    /** next(): the chained MDL, null without an MDL. */
    function Next(): (a: nat)
      reads this
      ensures mdl.None? ==> a == 0
      ensures mdl.Some? ==> a == mdl.value.next
    {
      if mdl.Some? then mdl.value.next else 0
    }

    /**
     sysaddr(Priority): the system address the memory manager maps for the
     descriptor (`mapper` stands for MmGetSystemAddressForMdlSafe, which may
     itself answer null), and null without an MDL.
     */
    function SysAddr(mapper: (MdlDescriptor, nat) -> nat, priority: nat := NormalPagePriority): (a: nat)
      reads this
      ensures mdl.None? ==> a == 0
      ensures mdl.Some? ==> a == mapper(mdl.value, priority)
    {
      if mdl.Some? then mapper(mdl.value, priority) else 0
    }

    /**
     prepare(Operation = IoReadAccess, AccessMode = DEF_ACCESS_MODE):
     `outcome` is what the memory manager answers. The call is logged; success leaves the buffer prepared, a
     failure leaves the lock state as it was.
     */
    method Prepare(outcome: NtStatus, op: LockOperation := IoReadAccess, mode: ProcessorMode := DEF_ACCESS_MODE)
      returns (status: NtStatus)
      modifies this`prepared, this`prepareLog
      ensures status == outcome
      ensures prepareLog == old(prepareLog) + [(op, mode)]
      ensures prepared == (old(prepared) || !outcome.Failed())
    {
      prepareLog := prepareLog + [(op, mode)];
      if !outcome.Failed() {
        prepared := true;
      }
      status := outcome;
    }

    /** unprepare(): the call is logged and the buffer is no longer prepared. */
    method Unprepare()
      modifies this`prepared, this`unprepareCount
      ensures !prepared
      ensures unprepareCount == old(unprepareCount) + 1
    {
      unprepareCount := unprepareCount + 1;
      prepared := false;
    }

    /** unprepare_nonpaged(): nothing to undo for a non-paged descriptor; no state changes. */
    method UnprepareNonpaged()
      ensures unchanged(this)
    {
    }
  }

  /** An MDL wrapper that holds no descriptor reads as null and zero through every accessor. */
  lemma EmptyMdlReadsZero(m: Mdl, mapper: (MdlDescriptor, nat) -> nat, priority: nat)
    requires !m.Held()
    ensures m.IsNull()
    ensures m.Addr() == 0 && m.Offset() == 0 && m.Size() == 0 && m.Next() == 0
    ensures m.SysAddr(mapper, priority) == 0
  {
  }

  /** No buffer is passed twice. */
  predicate Distinct(bufs: seq<Mdl>)
  {
    forall i, j :: 0 <= i < j < |bufs| ==> bufs[i] != bufs[j]
  }

  /**
   The variadic prepare(Operation, AccessMode, t1, tn...): prepares the
   buffers left to right with the same arguments and returns the first
   failing status without calling prepare on any later buffer. Buffers
   prepared before the failure stay prepared: the helper does not unwind.
   `outcomes[i]` is the memory manager's answer for `bufs[i]`.
   */
  method PrepareAll(op: LockOperation, mode: ProcessorMode, bufs: seq<Mdl>, outcomes: seq<NtStatus>)
    returns (status: NtStatus)
    requires 1 <= |bufs| && |outcomes| == |bufs|
    requires Distinct(bufs)
    modifies (set b | b in bufs)`prepared, (set b | b in bufs)`prepareLog
    ensures var k := FirstFailure(outcomes);
      && status == (if k < |bufs| then outcomes[k] else StatusSuccess)
      && (forall i :: 0 <= i < |bufs| ==>
            bufs[i].prepareLog == if i <= k then old(bufs[i].prepareLog) + [(op, mode)] else old(bufs[i].prepareLog))
      && (forall i :: 0 <= i < |bufs| ==>
            bufs[i].prepared == if i < k then true else old(bufs[i].prepared))
  {
    var i := 0;
    while true
      invariant 0 <= i < |bufs|
      invariant i <= FirstFailure(outcomes)
      invariant forall j :: 0 <= j < |bufs| ==>
        bufs[j].prepareLog == if j < i then old(bufs[j].prepareLog) + [(op, mode)] else old(bufs[j].prepareLog)
      invariant forall j :: 0 <= j < |bufs| ==>
        bufs[j].prepared == if j < i then true else old(bufs[j].prepared)
      decreases |bufs| - i
    {
      status := bufs[i].Prepare(outcomes[i], op, mode);
      if status.Failed() || i == |bufs| - 1 {
        return;
      }
      i := i + 1;
    }
  }

  /** How many times x occurs in s. */
  function Count<T(==)>(s: seq<T>, x: T): (n: nat)
    ensures n <= |s|
    ensures n > 0 <==> x in s
  {
    if s == [] then 0
    else Count(s[..|s| - 1], x) + (if s[|s| - 1] == x then 1 else 0)
  }

  /** Extending a prefix by one element adds one occurrence of that element. */
  lemma PrefixGrows<T>(s: seq<T>, i: nat)
    requires i < |s|
    ensures forall x :: Count(s[..i + 1], x) == Count(s[..i], x) + (if x == s[i] then 1 else 0)
    ensures forall x :: x in s[..i + 1] <==> x in s[..i] || x == s[i]
  {
    assert s[..i + 1][..i] == s[..i];
    assert s[..i + 1] == s[..i] + [s[i]];
  }

  /**
   The variadic unprepare(t1, tn...): calls unprepare once per occurrence of
   each argument, whatever each buffer's state; afterwards no argument is
   prepared.
   */
  method UnprepareAll(bufs: seq<Mdl>)
    requires 1 <= |bufs|
    modifies (set b | b in bufs)`prepared, (set b | b in bufs)`unprepareCount
    ensures forall b :: b in bufs ==>
      !b.prepared && b.unprepareCount == old(b.unprepareCount) + Count(bufs, b)
  {
    for i := 0 to |bufs|
      invariant forall b :: b in bufs ==>
        b.unprepareCount == old(b.unprepareCount) + Count(bufs[..i], b)
      invariant forall b :: b in bufs[..i] ==> !b.prepared
    {
      PrefixGrows(bufs, i);
      bufs[i].Unprepare();
    }
    assert bufs[..|bufs|] == bufs;
  }
}
