/** The older revision of the SIMD-aligned buffer (`src/aligned_vec.rs`):
    the same owning handle, without clone, equality or serde, but with
    element indexing. */
module LegacyAlignedVec {
  import opened FftwGateway

  class AlignedVec<T(0)> {
    const n: nat
    const data: array<T>
    /** False once the buffer is dropped: a dropped handle cannot be used. */
    ghost var alive: bool

    /** The buffer is not dropped, its block holds exactly `n` elements, and
        `n` fits FFTW's count type. */
    ghost predicate Valid()
      reads this
    {
      alive && data.Length == n && n < FFI_SIZE_LIMIT
    }

    /** `AlignedVec::new`: one allocation of `n` elements (the count is
        passed to FFTW unconverted), then every element set to zero. */
    constructor (gw: Gateway, elem: Allocable<T>, n: nat)
      requires n < FFI_SIZE_LIMIT
      modifies gw
      ensures Valid() && this.n == n && fresh(data)
      ensures forall i :: 0 <= i < n ==> data[i] == elem.zero
      ensures data !in old(gw.live) && gw.live == old(gw.live) + {data}
      ensures gw.calls == old(gw.calls) + [AllocRoutine(elem.kind)]
    {
      var block := gw.Alloc(elem.kind, n);
      this.n := n;
      data := block;
      alive := true;
      new;
      var i := 0;
      while i < n
        modifies data
        invariant 0 <= i <= n
        invariant forall j :: 0 <= j < i ==> data[j] == elem.zero
      {
        data[i] := elem.zero;
        i := i + 1;
      }
    }

    /** `as_slice` (and `Deref`): a view of exactly `n` elements. */
    function AsSlice(): (s: seq<T>)
      reads this, data
      requires Valid()
      ensures |s| == n
      ensures forall i :: 0 <= i < n ==> s[i] == data[i]
    {
      data[..]
    }

    /** Writing through `as_mut_slice` (and `DerefMut`): the elements become
        `contents`; only the block changes and its length stays `n`. */
    method WriteSlice(contents: seq<T>)
      requires Valid() && |contents| == n
      modifies data
      ensures AsSlice() == contents
    {
      forall i | 0 <= i < n {
        data[i] := contents[i];
      }
    }

    /** `Index::index`: element `i`. The source offsets the raw pointer
        without a bounds check, so the caller must keep `i` below `n`. */
    function Index(i: nat): (x: T)
      reads this, data
      requires Valid() && i < n
      ensures x == AsSlice()[i]
    {
      data[i]
    }

    /** `IndexMut::index_mut`, written through: element `i` becomes `x`,
        every other element stays as it was. */
    method IndexMut(i: nat, x: T)
      requires Valid() && i < n
      modifies data
      ensures AsSlice() == old(AsSlice())[i := x]
      ensures Index(i) == x
      ensures forall j :: 0 <= j < n && j != i ==> Index(j) == old(Index(j))
    {
      data[i] := x;
    }

    /** `Drop::drop`: exactly one `fftw_free`, of this buffer's own block;
        afterwards the handle is no longer valid. */
    method Drop(gw: Gateway)
      requires Valid() && data in gw.live
      modifies this, gw
      ensures !alive
      ensures data !in gw.live && gw.live == old(gw.live) - {data}
      ensures gw.calls == old(gw.calls) + [FftwFree]
    {
      gw.Free(data);
      alive := false;
    }
  }

  /** Two buffers created one after the other own different blocks, and
      dropping both releases exactly those two blocks, once each. */
  method CreateAndDropTwo<T(0)>(gw: Gateway, elem: Allocable<T>, n: nat, m: nat)
    returns (a: AlignedVec<T>, b: AlignedVec<T>)
    requires n < FFI_SIZE_LIMIT && m < FFI_SIZE_LIMIT
    modifies gw
    ensures a.data != b.data && a.data !in old(gw.live) && b.data !in old(gw.live)
    ensures !a.alive && !b.alive
    ensures gw.live == old(gw.live)
    ensures gw.calls == old(gw.calls) + [AllocRoutine(elem.kind), AllocRoutine(elem.kind), FftwFree, FftwFree]
  {
    a := new AlignedVec(gw, elem, n);
    b := new AlignedVec(gw, elem, m);
    a.Drop(gw);
    b.Drop(gw);
  }
}
