/** The newer revision of the SIMD-aligned buffer (`concrete-fftw/src/array.rs`):
    a fixed-length, owning handle over a block obtained through the gateway. */
module AlignedArray {
  import opened Wrappers
  import opened FftwGateway

  /** `AlignedAllocable::alloc`'s conversion of the element count to the
      FFI size type: `try_into()` succeeds exactly when the count fits, and
      then keeps its value; `None` is where `unwrap()` panics. */
  function FfiCount(n: nat): (r: Option<nat>)
    ensures r.Some? <==> n < FFI_SIZE_LIMIT
    ensures r.Some? ==> r.value == n
  {
    if n < FFI_SIZE_LIMIT then Some(n) else None
  }

  /** `AlignedAllocable::alloc`: convert the count, then call the
      allocation routine of the element type. */
  method Alloc<T(0)>(gw: Gateway, kind: ElemKind, n: nat) returns (block: array<T>)
    requires n < FFI_SIZE_LIMIT
    modifies gw
    ensures fresh(block) && block.Length == n
    ensures block !in old(gw.live) && gw.live == old(gw.live) + {block}
    ensures gw.calls == old(gw.calls) + [AllocRoutine(kind)]
  {
    var count := FfiCount(n);
    block := gw.Alloc(kind, count.value);
  }

  /** `a.iter().zip(b.iter()).all(eq)`: the pairs up to the shorter length
      are all equal. */
  function ZipAll<T>(a: seq<T>, b: seq<T>, eq: (T, T) -> bool): (r: bool)
    ensures r <==> forall i :: 0 <= i < |a| && i < |b| ==> eq(a[i], b[i])
  {
    if a == [] || b == [] then true
    else eq(a[0], b[0]) && ZipAll(a[1..], b[1..], eq)
  }

  class AlignedVec<T(0)> {
    const n: nat
    const data: array<T>
    /** The element type's allocation routine and zero, fixed per `T`. */
    const elem: Allocable<T>
    /** False once the buffer is dropped: a dropped handle cannot be used. */
    ghost var alive: bool

    /** The buffer is not dropped, its block holds exactly `n` elements, and
        `n` fits FFTW's count type. */
    ghost predicate Valid()
      reads this
    {
      alive && data.Length == n && n < FFI_SIZE_LIMIT
    }

    /** `AlignedVec::new`: one allocation of `n` elements, then every
        element set to zero. */
    constructor (gw: Gateway, elem: Allocable<T>, n: nat)
      requires n < FFI_SIZE_LIMIT
      modifies gw
      ensures Valid() && this.n == n && this.elem == elem && fresh(data)
      ensures forall i :: 0 <= i < n ==> data[i] == elem.zero
      ensures data !in old(gw.live) && gw.live == old(gw.live) + {data}
      ensures gw.calls == old(gw.calls) + [AllocRoutine(elem.kind)]
    {
      var block := Alloc(gw, elem.kind, n);
      this.n := n;
      this.elem := elem;
      data := block;
      alive := true;
      new;
      var i := 0;
      while i < n
        modifies data
        invariant 0 <= i <= n
        invariant forall j :: 0 <= j < i ==> data[j] == elem.zero
      {
        data[i] := elem.zero;
        i := i + 1;
      }
    }

    /** `as_slice` (and `Deref`): a view of exactly `n` elements, element `i`
        of the view being element `i` of the block. */
    function AsSlice(): (s: seq<T>)
      reads this, data
      requires Valid()
      ensures |s| == n
      ensures forall i :: 0 <= i < n ==> s[i] == data[i]
    {
      data[..]
    }

    /** Writing through `as_slice_mut` (and `DerefMut`, as `copy_from_slice`
        does): the elements become `contents`; only the block changes, and
        its length stays `n`. */
    method WriteSlice(contents: seq<T>)
      requires Valid() && |contents| == n
      modifies data
      ensures AsSlice() == contents
    {
      forall i | 0 <= i < n {
        data[i] := contents[i];
      }
    }

    /** `PartialEq::eq`: false when the lengths differ, otherwise true
        exactly when every pair of corresponding elements is equal. */
    function Eq(other: AlignedVec<T>, eq: (T, T) -> bool): (r: bool)
      reads this, data, other, other.data
      requires Valid() && other.Valid()
      ensures n != other.n ==> !r
      ensures n == other.n ==> (r <==> forall i :: 0 <= i < n ==> eq(data[i], other.data[i]))
    {
      n == other.n && ZipAll(data[..], other.data[..], eq)
    }

    /** `Clone::clone`: a new buffer of the same length in freshly
        allocated storage, holding a copy of every element. */
    method Clone(gw: Gateway) returns (c: AlignedVec<T>)
      requires Valid()
      modifies gw
      ensures fresh(c) && fresh(c.data) && c.Valid()
      ensures c.n == n && c.elem == elem && c.AsSlice() == AsSlice()
      ensures c.data !in old(gw.live) && gw.live == old(gw.live) + {c.data}
      ensures gw.calls == old(gw.calls) + [AllocRoutine(elem.kind)]
    {
      c := new AlignedVec(gw, elem, n);
      c.WriteSlice(data[..]);
    }

    /** `Drop::drop`: exactly one `fftw_free`, of this buffer's own block;
        afterwards the handle is no longer valid, as Rust's move of the
        value into `drop` makes it unusable. */
    method Drop(gw: Gateway)
      requires Valid() && data in gw.live
      modifies this, gw
      ensures !alive
      ensures data !in gw.live && gw.live == old(gw.live) - {data}
      ensures gw.calls == old(gw.calls) + [FftwFree]
    {
      gw.Free(data);
      alive := false;
    }
  }

  /** A buffer equals itself when each of its elements equals itself (no
      NaN among them). */
  lemma EqReflexive<T(0)>(v: AlignedVec<T>, eq: (T, T) -> bool)
    requires v.Valid()
    requires forall j :: 0 <= j < v.n ==> eq(v.data[j], v.data[j])
    ensures v.Eq(v, eq)
  {
  }

  /** ... and only then: one element not equal to itself (a NaN) makes the
      buffer unequal to itself. */
  lemma EqIrreflexiveAt<T(0)>(v: AlignedVec<T>, eq: (T, T) -> bool, i: nat)
    requires v.Valid() && i < v.n
    requires !eq(v.data[i], v.data[i])
    ensures !v.Eq(v, eq)
  {
  }

  /** Equality is symmetric when the element equality is. */
  lemma EqSymmetric<T(0)>(v: AlignedVec<T>, w: AlignedVec<T>, eq: (T, T) -> bool)
    requires v.Valid() && w.Valid()
    requires forall x, y :: eq(x, y) == eq(y, x)
    ensures v.Eq(w, eq) == w.Eq(v, eq)
  {
  }

  /** Buffers with the same contents compare, in both directions, exactly
      as the first compares with itself, whatever their storage: equal
      unless an element is unequal to itself. */
  lemma EqOfSameContents<T(0)>(v: AlignedVec<T>, w: AlignedVec<T>, eq: (T, T) -> bool)
    requires v.Valid() && w.Valid() && v.AsSlice() == w.AsSlice()
    ensures v.Eq(w, eq) == v.Eq(v, eq) && w.Eq(v, eq) == v.Eq(v, eq)
  {
    assert forall i :: 0 <= i < v.n ==> v.data[i] == v.AsSlice()[i] == w.AsSlice()[i] == w.data[i];
  }

  /** A clone equals its source exactly when the source equals itself (so
      always, unless an element is a NaN), and writing into the clone
      leaves the source untouched. */
  method CloneThenWrite<T(0)>(gw: Gateway, v: AlignedVec<T>, eq: (T, T) -> bool, i: nat, x: T)
    returns (c: AlignedVec<T>, equalBefore: bool)
    requires v.Valid() && i < v.n
    modifies gw
    ensures equalBefore == v.Eq(v, eq)
    ensures (forall j :: 0 <= j < v.n ==> eq(v.data[j], v.data[j])) ==> equalBefore
    ensures fresh(c.data) && c.Valid() && c.AsSlice() == old(v.AsSlice())[i := x]
    ensures v.AsSlice() == old(v.AsSlice())
    ensures c.data !in old(gw.live) && gw.live == old(gw.live) + {c.data}
    ensures gw.calls == old(gw.calls) + [AllocRoutine(v.elem.kind)]
  {
    c := v.Clone(gw);
    EqOfSameContents(c, v, eq);
    equalBefore := c.Eq(v, eq);
    c.WriteSlice(c.AsSlice()[i := x]);
  }
}
