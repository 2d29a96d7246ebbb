# AlignedVec: a verified model of concrete-fftw's SIMD-aligned buffer

`AlignedVec<T>` is an owning handle over a block of `n` elements obtained from
FFTW's aligned allocator (`fftw_alloc_real`, `fftw_alloc_complex` and their
single-precision variants) and released with `fftw_free`. The block is
zero-filled on creation, is exposed as a read view and a write view of exactly
`n` elements, and is freed exactly once when the handle is dropped. The newer
revision (`concrete-fftw/src/array.rs`) adds `clone`, element-wise equality and
an optional serde encoding. The older revision (`src/aligned_vec.rs`) adds
element indexing through raw pointer offsets.

The model is imperative where the source is:

- `gateway.dfy`, module `FftwGateway`, is the allocator gateway. It holds the
  bound of FFTW's count parameter and the fixed mapping from element
  representation (`F64`, `F32`, `C64`, `C32`) to allocation routine. Its class
  `Gateway` turns an allocation into a fresh array. Two ghost fields do the
  accounting: `live` is the set of blocks obtained and not yet released, and
  `calls` logs the foreign routines in call order.
- `array.dfy`, module `AlignedArray`, is the newer revision. `AlignedVec` is a
  class whose fields `n` and `data` are `const`, so a buffer cannot change
  length or block. A ghost flag `alive` is set by the constructor and
  cleared by `Drop`. `Valid()` says three things: the buffer is alive, its
  block holds `n` elements, and `n` is below `FFI_SIZE_LIMIT`. Every view,
  write, clone and comparison requires `Valid()`, so a dropped handle cannot
  be used, as Rust forbids using a value after it is dropped. The constructor runs the
  zero-fill loop. `WriteSlice` models writes through
  `as_slice_mut`/`DerefMut`, so it may change only `data`. `Drop` requires
  its block to be live and removes exactly that block, which makes a second
  release impossible.
- `array_serde.dfy`, module `ArraySerde`, covers the serde support. It works on
  a stream of tokens: the start of a sequence with its optional length, one
  token per element, and the end marker. `Serialize` and `VisitSeq` are
  methods with loops, proved against the pure functions `Encode`, `Fill`,
  `Visit` and `Decode`. The round trip and the error cases are lemmas about
  those functions.
- `aligned_vec.dfy`, module `LegacyAlignedVec`, is the older revision, with
  `Index` and `IndexMut`.
- `wrappers.dfy`: `Option` and `Result`.

The element type `T` is generic. `Allocable<T>` carries what the
`AlignedAllocable` and `Zero` bounds supply: the representation's
allocation routine and the zero value. A buffer keeps the `Allocable<T>` it
was created with as a constant, so its clone uses the same routine and zero. Equality takes the element
`PartialEq` as a parameter `eq`.

Three points where the code decides the behaviour:

- One might expect `b.clone() == b` always, and buffer equality to be
  reflexive. The code compares elements with `T`'s `PartialEq`, and for
  floating point that relation is not reflexive (NaN). So `EqReflexive`
  assumes only that each of the buffer's own elements equals itself, and
  `EqIrreflexiveAt` shows that a buffer with a NaN-like element is not equal
  to itself. A clone or a deserialised copy has the same contents as its
  source, and compares with it exactly as the source compares with itself
  (`CloneThenWrite`, `RoundTrip`).
- One might expect an allocation failure to be reported as an error. Neither
  revision checks the pointer FFTW returns, so the model has no failing
  allocation (see Left out).
- The older revision's `index`/`index_mut` do no bounds check. The model
  makes `i < n` a precondition.

## Model

| member | source | states |
|---|---|---|
| FftwGateway.AllocRoutine | concrete-fftw/src/array.rs:28-50 | each element representation allocates through its own routine, never through `fftw_free`; real or complex and double or single precision are each told apart by the routine |
| FftwGateway.AllocRoutineInjective | concrete-fftw/src/array.rs:28-50 | two representations share an allocation routine only if they are the same representation |
| FftwGateway.Gateway.Alloc | src/aligned_vec.rs:84-86 | a gated allocation of `count` elements returns a fresh block of that length, not live before; the live set gains exactly that block; one call of the representation's routine is logged |
| FftwGateway.Gateway.Free | src/aligned_vec.rs:72-74 | a gated `fftw_free` needs a live block; exactly that block leaves the live set; one `fftw_free` is logged |
| AlignedArray.FfiCount | concrete-fftw/src/array.rs:28-50 | `n.try_into()` succeeds exactly when `n` fits the FFI size type and then keeps its value (no truncation); otherwise `unwrap` panics |
| AlignedArray.Alloc | concrete-fftw/src/array.rs:22-50 | `AlignedAllocable::alloc` needs a representable count and yields a fresh block of exactly `n` elements through the representation's routine |
| AlignedArray.ZipAll | concrete-fftw/src/array.rs:115 | `zip(..).all(eq)` is true exactly when every pair below the shorter length is related by `eq` |
| AlignedArray.AlignedVec.constructor | concrete-fftw/src/array.rs:80-87 | `new(n)` needs `n` representable; the result has length `n`, every element is zero, its block is fresh and is the one block added to the live set |
| AlignedArray.AlignedVec.AsSlice | concrete-fftw/src/array.rs:53-55 | the read view has exactly `n` elements, element `i` being element `i` of the block |
| AlignedArray.AlignedVec.WriteSlice | concrete-fftw/src/array.rs:57-59 | writing through the mutable view sets the contents and changes only the block; `n` and the block stay the same |
| AlignedArray.AlignedVec.Eq | concrete-fftw/src/array.rs:111-116 | false whenever the lengths differ; with equal lengths, true exactly when every pair of corresponding elements is equal |
| AlignedArray.AlignedVec.Clone | concrete-fftw/src/array.rs:100-104 | the clone has the same length, the same element routine and zero, and the same contents in a fresh block; the source is unchanged; the live set gains only the clone's block |
| AlignedArray.AlignedVec.Drop | concrete-fftw/src/array.rs:90-94 | dropping needs a valid buffer whose block is live; it releases exactly that block with one `fftw_free` and leaves the handle invalid, so it cannot happen twice and the buffer cannot be used afterwards |
| AlignedArray.EqReflexive | concrete-fftw/src/array.rs:111-116 | a buffer equals itself when each of its own elements equals itself (no NaN) |
| AlignedArray.EqIrreflexiveAt | concrete-fftw/src/array.rs:111-116 | one element unequal to itself (NaN) makes the buffer unequal to itself |
| AlignedArray.EqSymmetric | concrete-fftw/src/array.rs:111-116 | equality is symmetric when the element equality is |
| AlignedArray.EqOfSameContents | concrete-fftw/src/array.rs:111-116 | buffers with the same contents, whatever their storage, compare both ways exactly as the first compares with itself |
| AlignedArray.CloneThenWrite | concrete-fftw/src/array.rs:96-105 | a clone equals its source exactly when the source equals itself, so always when no element is unequal to itself; writing into the clone leaves the source's contents unchanged; the clone's fresh block is the one block added to the live set, with one allocation logged, so both buffers can still be dropped |
| ArraySerde.ElementTokens | concrete-fftw/src/array.rs:157-159 | one element token per element, in index order |
| ArraySerde.Serialize | concrete-fftw/src/array.rs:152-161 | the emitted tokens are the sequence start tagged with `Some(n)`, the `n` elements in index order, then the end marker |
| ArraySerde.Encode | concrete-fftw/src/array.rs:156-160 | the encoding of `s` has two tokens more than `s` has elements: the start tagged with the element count, element `i` at position `i + 1`, the end marker last |
| ArraySerde.NextElement | concrete-fftw/src/array.rs:185-187 | `next_element` fails exactly at the end of input or at a nested sequence start; yields nothing exactly at the end marker and then consumes nothing; otherwise yields the value of the first token and consumes that token |
| ArraySerde.Fill | concrete-fftw/src/array.rs:184-188 | a successful fill of `k` slots holds exactly `k` elements, read from the first `k` tokens, which are all element tokens, and leaves the rest of the stream; so no partly filled buffer is returned |
| ArraySerde.FillElements | concrete-fftw/src/array.rs:184-188 | filling one slot per element from the element tokens of `s` yields `s` and leaves what follows untouched |
| ArraySerde.FillShort | concrete-fftw/src/array.rs:184-188 | a sequence that ends before the hinted count fails with "Failed to retrieve the next element" |
| ArraySerde.EncodeEmpty | concrete-fftw/src/array.rs:213-225 | an empty buffer encodes as `Seq(Some(0))`, `SeqEnd` |
| ArraySerde.DecodeWithoutHint | concrete-fftw/src/array.rs:181-183 | a sequence without a size hint fails with "Failed to retrieve the size of the AlignedVec." |
| ArraySerde.DecodeTruncated | concrete-fftw/src/array.rs:184-188 | decoding a sequence that declares more elements than it holds fails with the next-element error |
| ArraySerde.DecodeTwoOfThree | concrete-fftw/src/array.rs:181-189 | a sequence declaring 3 elements that ends after 2 is rejected |
| ArraySerde.Visit | concrete-fftw/src/array.rs:176-190 | without a size hint the visitor fails with "Failed to retrieve the size of the AlignedVec."; a success holds exactly as many elements as the hint announced |
| ArraySerde.Decode | concrete-fftw/src/array.rs:193-203 | a successful decode accepts only the exact encoding of the elements it returns |
| ArraySerde.DecodeEncode | concrete-fftw/src/array.rs:228-253 | decoding the encoding of any contents gives back those contents |
| ArraySerde.VisitSeq | concrete-fftw/src/array.rs:176-190 | the visitor succeeds exactly when the specification does, with its elements and remaining stream; on failure it returns the same error and, having dropped its buffer, leaves the live set as it was, with no call logged when the hint is missing and one allocation plus one free otherwise; a success adds one block and logs one allocation |
| ArraySerde.Deserialize | concrete-fftw/src/array.rs:193-203 | deserialising agrees with `Decode`; a failure leaves no block allocated and logs either nothing (no sequence start or no hint) or one allocation and one free; a success adds exactly the new buffer's block and logs one allocation |
| ArraySerde.RoundTrip | concrete-fftw/src/array.rs:227-253 | serialising a buffer and deserialising the tokens yields a new buffer with the same contents and element kind, equal to the original exactly when the original equals itself; its block is new to the live set and one allocation is logged |
| LegacyAlignedVec.AlignedVec.constructor | src/aligned_vec.rs:83-92 | `new(n)` gives a buffer of length `n` with every element zero, in a fresh block that is the one block added to the live set |
| LegacyAlignedVec.AlignedVec.AsSlice | src/aligned_vec.rs:48-50 | the read view has exactly `n` elements, element `i` being element `i` of the block |
| LegacyAlignedVec.AlignedVec.WriteSlice | src/aligned_vec.rs:52-54 | writing through `as_mut_slice` changes only the buffer's own elements, never its length |
| LegacyAlignedVec.AlignedVec.Index | src/aligned_vec.rs:95-100 | `index(i)` is element `i` of the view, for `i < n` |
| LegacyAlignedVec.AlignedVec.IndexMut | src/aligned_vec.rs:102-105 | writing through `index_mut(i)` changes element `i` only; every other element and `n` stay the same |
| LegacyAlignedVec.AlignedVec.Drop | src/aligned_vec.rs:70-76 | dropping releases exactly the block `new` obtained, once, and no other block, and leaves the handle invalid |
| LegacyAlignedVec.CreateAndDropTwo | src/aligned_vec.rs:70-92 | two buffers own distinct blocks, neither live before; dropping both invalidates both handles and restores the live set, with two allocations and two frees logged |

## Left out

- The FFTW routines `fftw_alloc_real`, `fftwf_alloc_real`, `fftw_alloc_complex`, `fftwf_alloc_complex` and `fftw_free` are foreign. They are modelled as fresh array allocation plus the ghost live set and call log. The initial contents of a fresh block are arbitrary, standing for uninitialised memory.
- Allocation failure is not modelled. Neither revision checks the returned pointer, and a Dafny allocation cannot fail.
- `FFI_SIZE_LIMIT` is 2^64, the range of C `size_t` on a 64-bit target. On a target whose FFI count type is narrower, the constant would be smaller. `n` itself is modelled as an unbounded natural.
- `alignment_of` / `fftw_alignment_of` is a foreign query about machine addresses and cannot be stated over Dafny arrays.
- `FFTW_MUTEX`, the `excall!` macro, lock poisoning (`expect("Cannot get lock")`) and the `Send`/`Sync` impls are concurrency. The model is sequential, and the gateway's methods stand for the gated calls.
- The concrete element types `f32`, `f64`, `c32`, `c64` are floating point. `T` stays generic with a caller-supplied zero and equality.
- Raw-pointer reconstruction (`from_raw_parts`, `offset`) becomes array access with bounds preconditions.
- The serde framework is modelled only as the token stream. A complex element is one `Element` token rather than its `Tuple` group. Errors returned by `serialize_seq`, `serialize_element` and `end` are not modelled, so `Serialize` always succeeds. Errors raised by `next_element` itself are one `Malformed` case.
- ArraySerde.Decode checks that the sequence starts with a `Seq` token and ends right after the visited elements. That check belongs to the deserializer, not to this code; it is stated in the simplest form that makes the round trip meaningful.
- The `Debug` derive and `Visitor::expecting` produce text only.
