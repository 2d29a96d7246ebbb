/** The allocator gateway: the only way a buffer obtains or releases a block.
    FFTW's aligned allocation routines are foreign; here an allocation is a
    fresh array, and ghost state records which blocks are live and which
    foreign routines were called, in order. */
module FftwGateway {

  /** Exclusive upper bound of the count parameter of FFTW's allocation
      routines (C `size_t` on a 64-bit target). */
  const FFI_SIZE_LIMIT: nat := 0x1_0000_0000_0000_0000

  /** The closed set of element representations a buffer can hold. */
  datatype ElemKind = F64 | F32 | C64 | C32

  /** The foreign FFTW routines the buffer calls. */
  datatype Routine =
    | FftwAllocReal | FftwfAllocReal | FftwAllocComplex | FftwfAllocComplex
    | FftwFree

  /** The allocation routine each element representation is bound to. */
  function AllocRoutine(kind: ElemKind): (r: Routine)
    ensures r != FftwFree
    ensures r == FftwAllocReal || r == FftwAllocComplex <==> kind == F64 || kind == C64
    ensures r == FftwAllocComplex || r == FftwfAllocComplex <==> kind == C64 || kind == C32
  {
    match kind
    case F64 => FftwAllocReal
    case F32 => FftwfAllocReal
    case C64 => FftwAllocComplex
    case C32 => FftwfAllocComplex
  }

  /** No two element representations share an allocation routine. */
  lemma AllocRoutineInjective(k1: ElemKind, k2: ElemKind)
    ensures AllocRoutine(k1) == AllocRoutine(k2) <==> k1 == k2
  {
  }

  /** What the element type supplies: its allocation routine and its zero. */
  datatype Allocable<T> = Allocable(kind: ElemKind, zero: T)

  class Gateway {
    /** The blocks obtained from FFTW and not yet released. */
    ghost var live: set<object>
    /** Every foreign routine called so far, in call order. */
    ghost var calls: seq<Routine>

    constructor ()
      ensures live == {} && calls == []
    {
      live := {};
      calls := [];
    }

    /** One call of the allocation routine of `kind` for `count` elements.
        The returned block is fresh, so it is owned by nobody else. Its
        elements are arbitrary: FFTW does not initialise the memory. */
    method Alloc<T(0)>(kind: ElemKind, count: nat) returns (block: array<T>)
      requires count < FFI_SIZE_LIMIT
      modifies this
      ensures fresh(block) && block.Length == count
      ensures block !in old(live) && live == old(live) + {block}
      ensures calls == old(calls) + [AllocRoutine(kind)]
    {
      block := new T[count];
      live := live + {block};
      calls := calls + [AllocRoutine(kind)];
    }

    /** One call of `fftw_free` on a live block; the block stops being live,
        so it cannot be released a second time. */
    method Free(block: object)
      requires block in live
      modifies this
      ensures live == old(live) - {block}
      ensures calls == old(calls) + [FftwFree]
    {
      live := live - {block};
      calls := calls + [FftwFree];
    }
  }
}
