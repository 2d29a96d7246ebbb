/** The optional serde support of the newer buffer (`mod serde` of
    `concrete-fftw/src/array.rs`), stated over the token stream a serializer
    receives and a deserializer hands out. */
module ArraySerde {
  import opened Wrappers
  import opened FftwGateway
  import opened AlignedArray

  /** A token of serde's data model, as far as a sequence of elements goes:
      the start of a sequence with its optional length, one element, the
      end of the sequence. */
  datatype Token<T> = Seq(len: Option<nat>) | Element(value: T) | SeqEnd

  /** `Custom` is an error the visitor raises with its own message;
      `Malformed` is one the deserializer raises because the stream does not
      have the shape of a sequence at that point. */
  datatype DeError = Custom(msg: string) | Malformed

  const SIZE_HINT_MESSAGE: string := "Failed to retrieve the size of the AlignedVec."
  const NEXT_ELEMENT_MESSAGE: string := "Failed to retrieve the next element"

  /** The element tokens of `s`, in index order. */
  function ElementTokens<T>(s: seq<T>): (ts: seq<Token<T>>)
    ensures |ts| == |s|
    ensures forall i :: 0 <= i < |s| ==> ts[i] == Element(s[i])
  {
    seq(|s|, i requires 0 <= i < |s| => Element(s[i]))
  }

  /** What `serialize` emits for a buffer holding `s`. */
  function Encode<T>(s: seq<T>): (ts: seq<Token<T>>)
    ensures |ts| == |s| + 2
    ensures ts[0] == Seq(Some(|s|)) && ts[|s| + 1] == SeqEnd
    ensures forall i :: 0 <= i < |s| ==> ts[i + 1] == Element(s[i])
  {
    [Seq(Some(|s|))] + ElementTokens(s) + [SeqEnd]
  }

  /** `Serialize::serialize`: a sequence tagged with the buffer's length,
      then every element in index order, then the end marker. */
  method Serialize<T(0)>(v: AlignedVec<T>) returns (tokens: seq<Token<T>>)
    requires v.Valid()
    ensures tokens == Encode(v.AsSlice())
  {
    tokens := [Seq(Some(v.n))];
    var i := 0;
    while i < v.n
      invariant 0 <= i <= v.n
      invariant tokens == [Seq(Some(v.n))] + ElementTokens(v.data[..i])
    {
      tokens := tokens + [Element(v.data[i])];
      i := i + 1;
    }
    assert v.data[..v.n] == v.AsSlice();
    tokens := tokens + [SeqEnd];
  }

  /** `SeqAccess::next_element` inside a sequence: an element, `None` at the
      end marker (which stays in the stream), an error otherwise. */
  function NextElement<T>(input: seq<Token<T>>): (r: Result<(Option<T>, seq<Token<T>>), DeError>)
    ensures r.Failure? <==> (input == [] || input[0].Seq?)
    ensures (r.Success? && r.value.0.None?) <==> (input != [] && input[0].SeqEnd?)
    ensures r.Success? && r.value.0.Some? ==>
      input != [] && input[0] == Element(r.value.0.value) && r.value.1 == input[1..]
    ensures r.Success? && r.value.0.None? ==> r.value.1 == input
  {
    if input == [] then Failure(Malformed)
    else match input[0]
      case Element(x) => Success((Some(x), input[1..]))
      case SeqEnd => Success((None, input))
      case Seq(_) => Failure(Malformed)
  }

  /** Puts `prefix` in front of the elements of a successful outcome. */
  function Prepend<T>(prefix: seq<T>, r: Result<(seq<T>, seq<Token<T>>), DeError>)
    : Result<(seq<T>, seq<Token<T>>), DeError>
  {
    match r
    case Success((s, rest)) => Success((prefix + s, rest))
    case Failure(e) => Failure(e)
  }

  lemma PrependTwice<T>(p: seq<T>, q: seq<T>, r: Result<(seq<T>, seq<Token<T>>), DeError>)
    ensures Prepend(p, Prepend(q, r)) == Prepend(p + q, r)
  {
    if r.Success? {
      assert p + (q + r.value.0) == (p + q) + r.value.0;
    }
  }

  lemma PrependNothing<T>(r: Result<(seq<T>, seq<Token<T>>), DeError>)
    ensures Prepend([], r) == r
  {
    if r.Success? {
      assert [] + r.value.0 == r.value.0;
    }
  }

  /** The loop of `visit_seq`: read `k` elements one by one, failing on the
      first error or on a sequence that ends too early. */
  function Fill<T>(k: nat, input: seq<Token<T>>): (r: Result<(seq<T>, seq<Token<T>>), DeError>)
    ensures r.Success? ==>
      && |r.value.0| == k && k <= |input| && r.value.1 == input[k..]
      && forall i :: 0 <= i < k ==> input[i] == Element(r.value.0[i])
    decreases k
  {
    if k == 0 then Success(([], input))
    else match NextElement(input)
      case Failure(e) => Failure(e)
      case Success((None, _)) => Failure(Custom(NEXT_ELEMENT_MESSAGE))
      case Success((Some(x), rest)) => Prepend([x], Fill(k - 1, rest))
  }

  /** `AlignedVecVisitor::visit_seq` on the stream after the sequence start
      whose length was `hint`. */
  function Visit<T>(hint: Option<nat>, input: seq<Token<T>>): (r: Result<(seq<T>, seq<Token<T>>), DeError>)
    ensures hint.None? ==> r == Failure(Custom(SIZE_HINT_MESSAGE))
    ensures r.Success? ==> hint == Some(|r.value.0|)
  {
    match hint
    case None => Failure(Custom(SIZE_HINT_MESSAGE))
    case Some(k) => Fill(k, input)
  }

  /** `Deserialize::deserialize` through `deserialize_seq`: the stream starts
      a sequence, the visitor reads it, and the sequence ends right after. */
  function Decode<T>(tokens: seq<Token<T>>): (r: Result<seq<T>, DeError>)
    ensures r.Success? ==> tokens == Encode(r.value)
  {
    if tokens == [] || !tokens[0].Seq? then Failure(Malformed)
    else match Visit(tokens[0].len, tokens[1..])
      case Failure(e) => Failure(e)
      case Success((s, rest)) => if |rest| == 1 && rest[0].SeqEnd? then Success(s) else Failure(Malformed)
  }

  /** Reading the element tokens of `s` yields `s` and leaves what follows. */
  lemma {:induction false} FillElements<T>(s: seq<T>, tail: seq<Token<T>>)
    ensures Fill(|s|, ElementTokens(s) + tail) == Success((s, tail))
  {
    if s != [] {
      var input := ElementTokens(s) + tail;
      assert input[0] == Element(s[0]);
      assert input[1..] == ElementTokens(s[1..]) + tail;
      assert NextElement(input) == Success((Some(s[0]), input[1..]));
      FillElements(s[1..], tail);
      assert Fill(|s|, input) == Prepend([s[0]], Success((s[1..], tail)));
      assert [s[0]] + s[1..] == s;
    } else {
      assert ElementTokens(s) + tail == tail;
    }
  }

  /** A sequence that ends after fewer elements than its size hint is
      rejected with the visitor's "next element" error. */
  lemma {:induction false} FillShort<T>(s: seq<T>, k: nat)
    requires |s| < k
    ensures Fill(k, ElementTokens(s) + [SeqEnd]) == Failure(Custom(NEXT_ELEMENT_MESSAGE))
  {
    var input := ElementTokens(s) + [SeqEnd];
    if s == [] {
      assert input == [SeqEnd];
    } else {
      assert input[0] == Element(s[0]);
      assert input[1..] == ElementTokens(s[1..]) + [SeqEnd];
      FillShort(s[1..], k - 1);
    }
  }

  /** Deserialising what `serialize` produced gives back the same elements. */
  lemma DecodeEncode<T>(s: seq<T>)
    ensures Decode(Encode(s)) == Success(s)
  {
    var tokens := Encode(s);
    assert tokens[1..] == ElementTokens(s) + [SeqEnd];
    FillElements(s, [SeqEnd]);
  }

  /** The encoding of an empty buffer is a sequence start tagged 0 and the
      end marker. */
  lemma EncodeEmpty<T>()
    ensures Encode<T>([]) == [Seq(Some(0)), SeqEnd]
  {
  }

  /** Without a size hint decoding fails before anything is allocated. */
  lemma DecodeWithoutHint<T>(rest: seq<Token<T>>)
    ensures Decode([Seq(None)] + rest) == Failure(Custom(SIZE_HINT_MESSAGE))
  {
    assert ([Seq(None)] + rest)[1..] == rest;
  }

  /** A stream that declares more elements than it holds fails. */
  lemma DecodeTruncated<T>(s: seq<T>, k: nat)
    requires |s| < k
    ensures Decode([Seq(Some(k))] + ElementTokens(s) + [SeqEnd]) == Failure(Custom(NEXT_ELEMENT_MESSAGE))
  {
    var tokens := [Seq(Some(k))] + ElementTokens(s) + [SeqEnd];
    assert tokens[1..] == ElementTokens(s) + [SeqEnd];
    FillShort(s, k);
  }

  /** A sequence that declares three elements but ends after two is
      rejected rather than decoded into a partly filled buffer. */
  lemma DecodeTwoOfThree<T>(a: T, b: T)
    ensures Decode([Seq(Some(3)), Element(a), Element(b), SeqEnd]) == Failure(Custom(NEXT_ELEMENT_MESSAGE))
  {
    assert [Seq(Some(3)), Element(a), Element(b), SeqEnd] == [Seq(Some(3))] + ElementTokens([a, b]) + [SeqEnd];
    DecodeTruncated([a, b], 3);
  }

  /** `visit_seq`: allocate a zeroed buffer of the hinted size, then
      overwrite its slots in order from the stream. On an error the buffer
      is dropped, so nothing stays allocated and no partly filled buffer is
      returned. */
  method VisitSeq<T(0)>(gw: Gateway, elem: Allocable<T>, hint: Option<nat>, input: seq<Token<T>>)
    returns (r: Result<AlignedVec<T>, DeError>, rest: seq<Token<T>>)
    requires hint.Some? ==> hint.value < FFI_SIZE_LIMIT
    modifies gw
    ensures r.Success? <==> Visit(hint, input).Success?
    ensures r.Failure? ==> r.error == Visit(hint, input).error && gw.live == old(gw.live)
    ensures hint.None? ==> gw.calls == old(gw.calls)
    ensures hint.Some? && r.Failure? ==> gw.calls == old(gw.calls) + [AllocRoutine(elem.kind), FftwFree]
    ensures r.Success? ==>
      && fresh(r.value) && fresh(r.value.data) && r.value.Valid() && r.value.elem == elem
      && r.value.AsSlice() == Visit(hint, input).value.0
      && rest == Visit(hint, input).value.1
      && r.value.data !in old(gw.live) && gw.live == old(gw.live) + {r.value.data}
      && gw.calls == old(gw.calls) + [AllocRoutine(elem.kind)]
  {
    if hint.None? {
      return Failure(Custom(SIZE_HINT_MESSAGE)), input;
    }
    var output := new AlignedVec(gw, elem, hint.value);
    rest := input;
    var i := 0;
    PrependNothing(Fill(output.n, input));
    while i < output.n
      invariant 0 <= i <= output.n
      invariant output.Valid()
      invariant gw.live == old(gw.live) + {output.data}
      invariant gw.calls == old(gw.calls) + [AllocRoutine(elem.kind)]
      invariant Fill(output.n, input) == Prepend(output.data[..i], Fill(output.n - i, rest))
    {
      var next := NextElement(rest);
      if next.Failure? {
        output.Drop(gw);
        return Failure(next.error), rest;
      }
      if next.value.0.None? {
        output.Drop(gw);
        return Failure(Custom(NEXT_ELEMENT_MESSAGE)), rest;
      }
      var x := next.value.0.value;
      label step:
      assert Fill(output.n - i, rest) == Prepend([x], Fill(output.n - i - 1, next.value.1));
      PrependTwice(output.data[..i], [x], Fill(output.n - i - 1, next.value.1));
      output.data[i] := x;
      assert output.data[..i + 1] == old@step(output.data[..i]) + [x];
      rest := next.value.1;
      i := i + 1;
    }
    assert output.data[..output.n] == output.AsSlice();
    r := Success(output);
  }

  /** `deserialize`: read the sequence start, run the visitor, require the
      sequence to end right after the elements it read. */
  method Deserialize<T(0)>(gw: Gateway, elem: Allocable<T>, tokens: seq<Token<T>>)
    returns (r: Result<AlignedVec<T>, DeError>)
    requires tokens != [] && tokens[0].Seq? && tokens[0].len.Some? ==> tokens[0].len.value < FFI_SIZE_LIMIT
    modifies gw
    ensures r.Success? <==> Decode(tokens).Success?
    ensures r.Failure? ==> r.error == Decode(tokens).error && gw.live == old(gw.live)
    ensures r.Failure? ==>
      gw.calls == old(gw.calls) || gw.calls == old(gw.calls) + [AllocRoutine(elem.kind), FftwFree]
    ensures r.Failure? && (tokens == [] || !tokens[0].Seq? || tokens[0].len.None?) ==> gw.calls == old(gw.calls)
    ensures r.Success? ==>
      && fresh(r.value) && fresh(r.value.data) && r.value.Valid() && r.value.elem == elem
      && r.value.AsSlice() == Decode(tokens).value
      && r.value.data !in old(gw.live) && gw.live == old(gw.live) + {r.value.data}
      && gw.calls == old(gw.calls) + [AllocRoutine(elem.kind)]
  {
    if tokens == [] || !tokens[0].Seq? {
      return Failure(Malformed);
    }
    var visited, rest := VisitSeq(gw, elem, tokens[0].len, tokens[1..]);
    if visited.Failure? {
      return Failure(visited.error);
    }
    if !(|rest| == 1 && rest[0].SeqEnd?) {
      visited.value.Drop(gw);
      return Failure(Malformed);
    }
    r := visited;
  }

  /** Serialising a buffer and deserialising the tokens gives a new buffer
      with the same contents, equal to the original exactly when the
      original equals itself (unless an element is a NaN). */
  method RoundTrip<T(0)>(gw: Gateway, v: AlignedVec<T>, eq: (T, T) -> bool)
    returns (w: AlignedVec<T>)
    requires v.Valid()
    modifies gw
    ensures fresh(w.data) && w.Valid() && w.elem == v.elem && w.AsSlice() == v.AsSlice()
    ensures w.Eq(v, eq) == v.Eq(v, eq)
    ensures w.data !in old(gw.live)
    ensures gw.calls == old(gw.calls) + [AllocRoutine(v.elem.kind)]
    ensures gw.live == old(gw.live) + {w.data}
  {
    var tokens := Serialize(v);
    DecodeEncode(v.AsSlice());
    var r := Deserialize(gw, v.elem, tokens);
    w := r.value;
    EqOfSameContents(w, v, eq);
  }
}
