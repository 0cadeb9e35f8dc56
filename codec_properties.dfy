/** What the codecs of module Codec promise: exact sizes, the wire layout of
    vectors and options, the behaviour of the vector decoder's loop, and
    round trips. The vector round trip is where the code departs from
    RFC 8446 section 3.4: the encoder writes the number of elements into the
    length field and the decoder reads it as a number of bytes, so the crate
    round-trips only vectors whose elements are one byte each. */
module CodecProperties {
  import opened Errors
  import opened BigEndian
  import opened Streams
  import opened Primitives
  import opened Arrays
  import opened Codec

  // ---------------------------------------------------------------------
  // Layout of an encoding

  /** Element i's encoding sits in the elements' concatenated encodings
      right after those of the elements before it: encoding keeps order. */
  lemma ElementPlacement(rule: LengthPrefix, es: seq<Value>, i: nat)
    requires forall j :: 0 <= j < |es| ==> WellFormed(es[j])
    requires EncodeAll(rule, es).Ok? && i < |es|
    ensures EncodeWith(rule, es[i]).Ok?
    ensures ElemsSize(es[..i]) + Size(es[i]) <= |EncodeAll(rule, es).value|
    ensures EncodeAll(rule, es).value[ElemsSize(es[..i])..ElemsSize(es[..i]) + Size(es[i])]
            == EncodeWith(rule, es[i]).value
  {
    var front, back := es[..i], es[i..];
    assert es == front + back;
    EncodeAllConcat(rule, front, back);
    assert back[0] == es[i];
    EncodeAllLength(rule, front);
    EncodeLength(rule, es[i]);
    MiddleSlice(EncodeAll(rule, front).value, EncodeWith(rule, es[i]).value, EncodeAll(rule, back[1..]).value);
  }

  /** The middle part of a three-part concatenation. */
  lemma MiddleSlice<T>(a: seq<T>, b: seq<T>, c: seq<T>)
    ensures (a + (b + c))[|a|..|a| + |b|] == b
  {
  }

  /** A vector the crate encodes has at most `MAX` elements; its encoding
      starts with the element count as a `len_len`-byte big-endian integer
      and is `serialized_len` bytes long. */
  lemma VecWireLayout(lw: LenWidth, es: seq<Value>)
    requires forall j :: 0 <= j < |es| ==> WellFormed(es[j])
    requires Encode(Vec(lw, es)).Ok?
    ensures var bytes := Encode(Vec(lw, es)).value;
            && |es| <= lw.Max()
            && |bytes| == Size(Vec(lw, es))
            && bytes[..lw.LenLen()] == EncodeUInt(lw.Prefix(), |es|)
            && FromBigEndian(bytes[..lw.LenLen()]) == |es|
  {
    EncodeLength(ElementCount, Vec(lw, es));
    FromToBigEndian(|es|, lw.LenLen());
  }

  /** An option is written as its tag, 0 for None and 1 for Some, followed
      by the payload's encoding when there is one. */
  lemma OptionWire(o: Option<Value>)
    requires WellFormed(Opt(o))
    requires Encode(Opt(o)).Ok?
    ensures var bytes := Encode(Opt(o)).value;
            && |bytes| == Size(Opt(o))
            && bytes[0] == (if o.None? then 0 else 1)
            && (o.None? ==> bytes == [0])
            && (o.Some? ==> Encode(o.value).Ok? && bytes[1..] == Encode(o.value).value)
  {
    EncodeLength(ElementCount, Opt(o));
  }

  // ---------------------------------------------------------------------
  // Decoding: the option tag and the vector loop

  /** Every decoder starts by reading at least one byte, so at the end of
      the readable window every type fails with `EndOfStream`. */
  lemma AtLimitEndOfStream(k: Kind, data: seq<byte>, p: nat)
    requires p <= |data|
    ensures Decode(k, data, p, p) == Decoded(Err(EndOfStream), p)
  {
    match k
    case KUInt(w) =>
    case KArray(n) =>
    case KOption(_) =>
    case KVec(lw, _) =>
  }

  /** The option tag: 0 gives None after one byte, 1 decodes a payload right
      after the tag, and any other tag is a `DecodingError` naming it, with
      no payload read. */
  lemma OptionTags(k: Kind, data: seq<byte>, pos: nat, limit: nat)
    requires pos < limit <= |data|
    ensures data[pos] == 0 ==> Decode(KOption(k), data, pos, limit) == Decoded(Ok(Opt(None)), pos + 1)
    ensures data[pos] == 1 ==>
              var e := Decode(k, data, pos + 1, limit);
              Decode(KOption(k), data, pos, limit)
              == Decoded(if e.result.Ok? then Ok(Opt(Some(e.result.value))) else Err(e.result.error), e.next)
    ensures data[pos] > 1 ==>
              Decode(KOption(k), data, pos, limit)
              == Decoded(Err(DecodingError(OptionTagMessage(data[pos]))), pos + 1)
  {
  }

  /** `EndOfStream` never escapes the element loop: it ends the loop
      successfully, and the loop fails only with another element error. */
  lemma {:induction false} ElemsNeverEndOfStream(ek: Kind, data: seq<byte>, pos: nat, limit: nat, acc: seq<Value>)
    requires pos <= limit <= |data|
    ensures DecodeElems(ek, data, pos, limit, acc).result != Err(EndOfStream)
    decreases limit - pos
  {
    DecodeElemsStep(ek, data, pos, limit, acc);
    var e := Decode(ek, data, pos, limit);
    if e.result.Ok? {
      ElemsNeverEndOfStream(ek, data, e.next, limit, acc + [e.result.value]);
    }
  }

  /** A vector decode fails with `EndOfStream` only when its length field
      itself cannot be read. */
  lemma VecEndOfStreamOnlyFromLengthField(lw: LenWidth, ek: Kind, data: seq<byte>, pos: nat, limit: nat)
    requires pos <= limit <= |data|
    ensures Decode(KVec(lw, ek), data, pos, limit).result == Err(EndOfStream) <==> limit - pos < lw.LenLen()
  {
    DecodeVecUnfold(lw, ek, data, pos, limit);
    var len := DecodeUInt(lw.Prefix(), data, pos, limit);
    if len.result.Ok? {
      ElemsNeverEndOfStream(ek, data, len.next, Min(limit, len.next + len.result.value), []);
    }
  }

  /** Whatever its elements' decoders do, a vector decode consumes at most
      the length field and as many bytes as the field declares. */
  lemma VecDecodeBounded(lw: LenWidth, ek: Kind, data: seq<byte>, pos: nat, limit: nat)
    requires pos + lw.LenLen() <= limit <= |data|
    ensures Decode(KVec(lw, ek), data, pos, limit).next
            <= pos + lw.LenLen() + FromBigEndian(data[pos..pos + lw.LenLen()])
  {
    DecodeVecUnfold(lw, ek, data, pos, limit);
  }

  // ---------------------------------------------------------------------
  // Round trips

  /** Every vector inside v has elements that encode to exactly one byte,
      so its element count equals its byte count. */
  predicate OneByteElements(v: Value) {
    match v
    case UInt(_, _) => true
    case Bytes(_) => true
    case Opt(None) => true
    case Opt(Some(x)) => OneByteElements(x)
    case Vec(_, es) => forall i :: 0 <= i < |es| ==> Size(es[i]) == 1 && OneByteElements(es[i])
  }

  /** Under rule, every length field written for v holds the number of
      bytes that follow it, as the decoder expects. */
  predicate LengthFieldIsByteCount(rule: LengthPrefix, v: Value) {
    rule == ByteCount || OneByteElements(v)
  }

  /** The elements are values of type ek whose length fields hold byte
      counts under rule. */
  predicate ElemsFit(rule: LengthPrefix, es: seq<Value>, ek: Kind) {
    forall i :: 0 <= i < |es| ==> HasKind(es[i], ek) && WellFormed(es[i]) && LengthFieldIsByteCount(rule, es[i])
  }

  /** What fits of a sequence of elements fits of its first element and of
      the rest. */
  lemma ElemsFitTail(rule: LengthPrefix, es: seq<Value>, ek: Kind)
    requires es != [] && ElemsFit(rule, es, ek)
    ensures ElemsFit(rule, es[1..], ek)
    ensures HasKind(es[0], ek) && WellFormed(es[0]) && LengthFieldIsByteCount(rule, es[0])
  {
  }

  /** Elements of one byte each take as many bytes as there are elements. */
  lemma {:induction false} OneByteElementsSize(es: seq<Value>)
    requires forall i :: 0 <= i < |es| ==> Size(es[i]) == 1
    ensures ElemsSize(es) == |es|
  {
    if es != [] {
      OneByteElementsSize(es[1..]);
    }
  }

  /** Two encodings side by side in the input each sit in their own slice. */
  lemma SliceSplit(data: seq<byte>, p: nat, a: seq<byte>, b: seq<byte>)
    requires p + |a| + |b| <= |data|
    requires data[p..p + |a| + |b|] == a + b
    ensures data[p..p + |a|] == a && data[p + |a|..p + |a| + |b|] == b
  {
    assert data[p..p + |a|] == data[p..p + |a| + |b|][..|a|];
    assert data[p + |a|..p + |a| + |b|] == data[p..p + |a| + |b|][|a|..];
  }

  /** Decoding an encoding gives the value back and consumes exactly its
      `serialized_len` bytes, whatever follows in the window. With the
      length field the RFC prescribes (ByteCount) this holds for every
      value; with the one the crate writes (ElementCount) it holds when
      every vector's elements encode to one byte each. */
  lemma {:induction false} RoundTrip(rule: LengthPrefix, v: Value, k: Kind, data: seq<byte>, pos: nat, limit: nat)
    requires HasKind(v, k) && WellFormed(v) && LengthFieldIsByteCount(rule, v)
    requires EncodeWith(rule, v).Ok?
    requires pos + Size(v) <= limit <= |data|
    requires data[pos..pos + Size(v)] == EncodeWith(rule, v).value
    ensures Decode(k, data, pos, limit) == Decoded(Ok(v), pos + Size(v))
    decreases v, 0
  {
    match v
    case UInt(w, n) =>
      UIntRoundTrip(w, n, data, pos, limit);
    case Bytes(b) =>
    case Opt(None) =>
      assert data[pos] == data[pos..pos + 1][0];
    case Opt(Some(x)) =>
      SomeLayout(rule, x, data, pos);
      RoundTrip(rule, x, k.some, data, pos + 1, limit);
      SomeFromPayload(k.some, x, data, pos, limit);
    case Vec(lw, es) =>
      VecRoundTrip(rule, lw, es, k.elem, data, pos, limit);
  }

  /** The encoding of `Some(x)` in the input: the tag 1, then x's encoding. */
  lemma SomeLayout(rule: LengthPrefix, x: Value, data: seq<byte>, pos: nat)
    requires WellFormed(x)
    requires EncodeWith(rule, Opt(Some(x))).Ok?
    requires pos + Size(Opt(Some(x))) <= |data|
    requires data[pos..pos + Size(Opt(Some(x)))] == EncodeWith(rule, Opt(Some(x))).value
    ensures EncodeWith(rule, x).Ok?
    ensures Size(Opt(Some(x))) == 1 + Size(x)
    ensures data[pos] == 1
    ensures data[pos + 1..pos + 1 + Size(x)] == EncodeWith(rule, x).value
  {
    var payload := EncodeWith(rule, x).value;
    EncodeLength(rule, x);
    SliceSplit(data, pos, [1], payload);
    assert data[pos] == data[pos..pos + 1][0];
  }

  /** The tag 1 followed by a payload that decodes to x decodes to `Some(x)`. */
  lemma SomeFromPayload(ek: Kind, x: Value, data: seq<byte>, pos: nat, limit: nat)
    requires pos + 1 + Size(x) <= limit <= |data|
    requires data[pos] == 1
    requires Decode(ek, data, pos + 1, limit) == Decoded(Ok(x), pos + 1 + Size(x))
    ensures Decode(KOption(ek), data, pos, limit) == Decoded(Ok(Opt(Some(x))), pos + 1 + Size(x))
  {
    assert data[pos..pos + 1][0] == 1;
  }

  /** The vector case: the length field gives a window of exactly the
      elements' bytes, and the loop decodes them all and then stops at the
      window's end. */
  lemma {:induction false} VecRoundTrip(rule: LengthPrefix, lw: LenWidth, es: seq<Value>, ek: Kind, data: seq<byte>, pos: nat, limit: nat)
    requires ElemsFit(rule, es, ek)
    requires rule == ByteCount || forall i :: 0 <= i < |es| ==> Size(es[i]) == 1
    requires EncodeWith(rule, Vec(lw, es)).Ok?
    requires pos + Size(Vec(lw, es)) <= limit <= |data|
    requires data[pos..pos + Size(Vec(lw, es))] == EncodeWith(rule, Vec(lw, es)).value
    ensures Decode(KVec(lw, ek), data, pos, limit) == Decoded(Ok(Vec(lw, es)), pos + Size(Vec(lw, es)))
    decreases es, 3
  {
    VecLayout(rule, lw, es, ek, data, pos);
    VecElemsDecode(rule, lw, es, ek, data, pos, limit, ElemsSize(es));
  }

  /** A length field holding n followed by n bytes in which the elements
      are encoded in place decodes to the vector of those elements. */
  lemma {:induction false} VecElemsDecode(rule: LengthPrefix, lw: LenWidth, es: seq<Value>, ek: Kind, data: seq<byte>, pos: nat, limit: nat, n: nat)
    requires pos + lw.LenLen() + n <= limit <= |data|
    requires InRange(lw.Prefix(), n)
    requires data[pos..pos + lw.LenLen()] == EncodeUInt(lw.Prefix(), n)
    requires EncodedInPlace(rule, ek, es, data, pos + lw.LenLen(), pos + lw.LenLen() + n)
    ensures Decode(KVec(lw, ek), data, pos, limit) == Decoded(Ok(Vec(lw, es)), pos + lw.LenLen() + n)
    decreases es, 2
  {
    var window := pos + lw.LenLen() + n;
    ElemsDecodeInPlace(rule, es, ek, data, pos + lw.LenLen(), window, window);
    VecDecodesFromLayout(lw, es, ek, data, pos, limit, n);
  }

  /** A vector's encoding in the input, when its length field holds the
      byte count: that count, then each element's encoding in turn. */
  lemma VecLayout(rule: LengthPrefix, lw: LenWidth, es: seq<Value>, ek: Kind, data: seq<byte>, pos: nat)
    requires ElemsFit(rule, es, ek)
    requires rule == ByteCount || forall i :: 0 <= i < |es| ==> Size(es[i]) == 1
    requires EncodeWith(rule, Vec(lw, es)).Ok?
    requires pos + Size(Vec(lw, es)) <= |data|
    requires data[pos..pos + Size(Vec(lw, es))] == EncodeWith(rule, Vec(lw, es)).value
    ensures Size(Vec(lw, es)) == lw.LenLen() + ElemsSize(es)
    ensures InRange(lw.Prefix(), ElemsSize(es))
    ensures data[pos..pos + lw.LenLen()] == EncodeUInt(lw.Prefix(), ElemsSize(es))
    ensures EncodedInPlace(rule, ek, es, data, pos + lw.LenLen(), pos + lw.LenLen() + ElemsSize(es))
  {
    EncodedVec(rule, lw, es, data, pos);
    ElemsEncodedInPlace(rule, es, ek, data, pos + lw.LenLen());
  }

  /** A length field holding the byte count of elements that decode one
      after another right after it decodes, with them, to the vector of
      those elements. */
  lemma VecDecodesFromLayout(lw: LenWidth, es: seq<Value>, ek: Kind, data: seq<byte>, pos: nat, limit: nat, n: nat)
    requires pos + lw.LenLen() + n <= limit <= |data|
    requires InRange(lw.Prefix(), n)
    requires data[pos..pos + lw.LenLen()] == EncodeUInt(lw.Prefix(), n)
    requires DecodesInPlace(ek, es, data, pos + lw.LenLen(), pos + lw.LenLen() + n, pos + lw.LenLen() + n)
    ensures Decode(KVec(lw, ek), data, pos, limit) == Decoded(Ok(Vec(lw, es)), pos + lw.LenLen() + n)
  {
    UIntRoundTrip(lw.Prefix(), n, data, pos, limit);
    ElemsWhole(es, ek, data, pos + lw.LenLen(), pos + lw.LenLen() + n);
    VecFromElems(lw, ek, data, pos, limit, es, n);
  }

  /** The encoding of a vector in the input, when its length field holds
      the byte count: that count, then the elements' encodings. */
  lemma EncodedVec(rule: LengthPrefix, lw: LenWidth, es: seq<Value>, data: seq<byte>, pos: nat)
    requires forall i :: 0 <= i < |es| ==> WellFormed(es[i])
    requires rule == ByteCount || forall i :: 0 <= i < |es| ==> Size(es[i]) == 1
    requires EncodeWith(rule, Vec(lw, es)).Ok?
    requires pos + Size(Vec(lw, es)) <= |data|
    requires data[pos..pos + Size(Vec(lw, es))] == EncodeWith(rule, Vec(lw, es)).value
    ensures Size(Vec(lw, es)) == lw.LenLen() + ElemsSize(es)
    ensures InRange(lw.Prefix(), ElemsSize(es))
    ensures data[pos..pos + lw.LenLen()] == EncodeUInt(lw.Prefix(), ElemsSize(es))
    ensures EncodeAll(rule, es).Ok?
    ensures data[pos + lw.LenLen()..pos + lw.LenLen() + ElemsSize(es)] == EncodeAll(rule, es).value
  {
    EncodeAllLength(rule, es);
    if rule == ElementCount {
      OneByteElementsSize(es);
    }
    var field := EncodeUInt(lw.Prefix(), ElemsSize(es));
    assert EncodeWith(rule, Vec(lw, es)).value == field + EncodeAll(rule, es).value;
    SliceSplit(data, pos, field, EncodeAll(rule, es).value);
  }

  /** es decodes from the input one element after another, the first
      starting at p and the last ending at q. */
  predicate DecodesInPlace(ek: Kind, es: seq<Value>, data: seq<byte>, p: nat, q: nat, limit: nat)
    requires p <= q <= limit <= |data|
    decreases es
  {
    if es == [] then p == q
    else
      var d := Decode(ek, data, p, limit);
      d.result == Ok(es[0]) && d.next <= q && DecodesInPlace(ek, es[1..], data, d.next, q, limit)
  }

  /** Each element of es is a value of type ek whose encoding under rule
      sits in the input right after those of the elements before it, the
      first starting at p and the last ending at q. */
  predicate EncodedInPlace(rule: LengthPrefix, ek: Kind, es: seq<Value>, data: seq<byte>, p: nat, q: nat)
    requires p <= q <= |data|
    decreases es
  {
    if es == [] then p == q
    else
      && HasKind(es[0], ek) && WellFormed(es[0]) && LengthFieldIsByteCount(rule, es[0])
      && EncodeWith(rule, es[0]).Ok?
      && p + Size(es[0]) <= q
      && data[p..p + Size(es[0])] == EncodeWith(rule, es[0]).value
      && EncodedInPlace(rule, ek, es[1..], data, p + Size(es[0]), q)
  }

  /** The elements' concatenated encodings in the input are their
      encodings one after another. */
  lemma {:induction false} ElemsEncodedInPlace(rule: LengthPrefix, es: seq<Value>, ek: Kind, data: seq<byte>, p: nat)
    requires ElemsFit(rule, es, ek)
    requires EncodeAll(rule, es).Ok?
    requires p + ElemsSize(es) <= |data|
    requires data[p..p + ElemsSize(es)] == EncodeAll(rule, es).value
    ensures EncodedInPlace(rule, ek, es, data, p, p + ElemsSize(es))
    decreases es
  {
    if es != [] {
      var m, q := p + Size(es[0]), p + ElemsSize(es);
      ElemsFitTail(rule, es, ek);
      EncodedCons(rule, es, data, p);
      ElemsEncodedInPlace(rule, es[1..], ek, data, m);
      assert m + ElemsSize(es[1..]) == q;
      EncodedInPlaceCons(rule, ek, es, data, p, m, q);
    }
  }

  /** An element encoded from p to m, followed by elements encoded in
      place from m to q, are encoded in place from p to q. */
  lemma EncodedInPlaceCons(rule: LengthPrefix, ek: Kind, es: seq<Value>, data: seq<byte>, p: nat, m: nat, q: nat)
    requires es != []
    requires p <= m <= q <= |data|
    requires HasKind(es[0], ek) && WellFormed(es[0]) && LengthFieldIsByteCount(rule, es[0])
    requires EncodeWith(rule, es[0]).Ok?
    requires m == p + Size(es[0])
    requires data[p..m] == EncodeWith(rule, es[0]).value
    requires EncodedInPlace(rule, ek, es[1..], data, m, q)
    ensures EncodedInPlace(rule, ek, es, data, p, q)
  {
  }

  /** Each element decodes from its own encoding. */
  lemma {:induction false} ElemsDecodeInPlace(rule: LengthPrefix, es: seq<Value>, ek: Kind, data: seq<byte>, p: nat, q: nat, limit: nat)
    requires p <= q <= limit <= |data|
    requires EncodedInPlace(rule, ek, es, data, p, q)
    ensures DecodesInPlace(ek, es, data, p, q, limit)
    decreases es, 1
  {
    if es != [] {
      var m := p + Size(es[0]);
      RoundTrip(rule, es[0], ek, data, p, limit);
      ElemsDecodeInPlace(rule, es[1..], ek, data, m, q, limit);
      DecodesInPlaceCons(ek, es, data, p, m, q, limit);
    }
  }

  /** An element that decodes from p to m, followed by elements that
      decode in place from m to q, decode in place from p to q. */
  lemma DecodesInPlaceCons(ek: Kind, es: seq<Value>, data: seq<byte>, p: nat, m: nat, q: nat, limit: nat)
    requires es != []
    requires p <= m <= q <= limit <= |data|
    requires Decode(ek, data, p, limit) == Decoded(Ok(es[0]), m)
    requires DecodesInPlace(ek, es[1..], data, m, q, limit)
    ensures DecodesInPlace(ek, es, data, p, q, limit)
  {
  }

  /** The encoding of es in the input is that of its first element
      followed by that of the rest. */
  lemma EncodedCons(rule: LengthPrefix, es: seq<Value>, data: seq<byte>, p: nat)
    requires es != []
    requires forall i :: 0 <= i < |es| ==> WellFormed(es[i])
    requires EncodeAll(rule, es).Ok?
    requires p + ElemsSize(es) <= |data|
    requires data[p..p + ElemsSize(es)] == EncodeAll(rule, es).value
    ensures EncodeWith(rule, es[0]).Ok? && EncodeAll(rule, es[1..]).Ok?
    ensures ElemsSize(es) == Size(es[0]) + ElemsSize(es[1..])
    ensures data[p..p + Size(es[0])] == EncodeWith(rule, es[0]).value
    ensures data[p + Size(es[0])..p + Size(es[0]) + ElemsSize(es[1..])] == EncodeAll(rule, es[1..]).value
  {
    var first, rest := EncodeWith(rule, es[0]).value, EncodeAll(rule, es[1..]).value;
    assert EncodeAll(rule, es).value == first + rest;
    EncodeLength(rule, es[0]);
    EncodeAllLength(rule, es[1..]);
    SliceSplit(data, p, first, rest);
  }

  /** The element loop decodes elements that sit one after another in
      order, each from exactly its own bytes. */
  lemma {:induction false} ElemsRoundTrip(es: seq<Value>, ek: Kind, data: seq<byte>, p: nat, q: nat, limit: nat, acc: seq<Value>)
    requires p <= q <= limit <= |data|
    requires DecodesInPlace(ek, es, data, p, q, limit)
    ensures DecodeElems(ek, data, p, limit, acc) == DecodeElems(ek, data, q, limit, acc + es)
    decreases es
  {
    if es == [] {
      assert acc + es == acc;
    } else {
      var d := Decode(ek, data, p, limit);
      ElemsRoundTrip(es[1..], ek, data, d.next, q, limit, acc + [es[0]]);
      ConsParts(acc, es);
    }
  }

  /** Appending a sequence is appending its first element, then the rest. */
  lemma ConsParts<T>(acc: seq<T>, es: seq<T>)
    requires es != []
    ensures acc + [es[0]] + es[1..] == acc + es
  {
  }

  /** Over a window holding exactly elements that decode in place, the
      loop decodes them all and stops at the window's end. */
  lemma ElemsWhole(es: seq<Value>, ek: Kind, data: seq<byte>, p: nat, limit: nat)
    requires p <= limit <= |data|
    requires DecodesInPlace(ek, es, data, p, limit, limit)
    ensures DecodeElems(ek, data, p, limit, []) == Decoded(Ok(es), limit)
  {
    ElemsRoundTrip(es, ek, data, p, limit, limit, []);
    assert [] + es == es;
    ElemsStopAtLimit(ek, data, limit, es);
  }

  /** At the end of its window the loop stops with what it gathered. */
  lemma ElemsStopAtLimit(ek: Kind, data: seq<byte>, limit: nat, acc: seq<Value>)
    requires limit <= |data|
    ensures DecodeElems(ek, data, limit, limit, acc) == Decoded(Ok(acc), limit)
  {
    DecodeElemsStep(ek, data, limit, limit, acc);
    AtLimitEndOfStream(ek, data, limit);
  }

  /** A length field that spans the window up to w, and a loop that
      gathers es up to w, make a vector decode of es ending at w. */
  lemma VecFromElems(lw: LenWidth, ek: Kind, data: seq<byte>, pos: nat, limit: nat, es: seq<Value>, n: nat)
    requires pos + lw.LenLen() + n <= limit <= |data|
    requires DecodeUInt(lw.Prefix(), data, pos, limit) == Decoded(Ok(n), pos + lw.LenLen())
    requires DecodeElems(ek, data, pos + lw.LenLen(), pos + lw.LenLen() + n, []) == Decoded(Ok(es), pos + lw.LenLen() + n)
    ensures Decode(KVec(lw, ek), data, pos, limit) == Decoded(Ok(Vec(lw, es)), pos + lw.LenLen() + n)
  {
    DecodeVecUnfold(lw, ek, data, pos, limit);
  }


  /** The crate's own round trip: with its element-count length field,
      decoding the encoding of a value whose vectors hold one-byte elements
      gives the value back, leaving whatever follows unread. */
  lemma CrateRoundTrip(v: Value, k: Kind, rest: seq<byte>)
    requires HasKind(v, k) && WellFormed(v) && OneByteElements(v)
    requires Encode(v).Ok?
    ensures var wire := Encode(v).value + rest;
            Decode(k, wire, 0, |wire|) == Decoded(Ok(v), |Encode(v).value|)
  {
    var wire := Encode(v).value + rest;
    EncodeLength(ElementCount, v);
    assert wire[0..Size(v)] == Encode(v).value;
    RoundTrip(ElementCount, v, k, wire, 0, |wire|);
  }

  /** The elements of a vector of `u8`. */
  function U8s(bs: seq<byte>): (es: seq<Value>)
    ensures |es| == |bs|
    ensures forall i :: 0 <= i < |bs| ==> es[i] == UInt(U8, bs[i])
  {
    seq(|bs|, i requires 0 <= i < |bs| => UInt(U8, bs[i]))
  }

  /** Encoding a sequence with one more element in front. */
  lemma EncodeAllPrepend(rule: LengthPrefix, x: Value, rest: seq<Value>)
    requires WellFormed(x)
    requires forall i :: 0 <= i < |rest| ==> WellFormed(rest[i])
    ensures forall i :: 0 <= i < |[x] + rest| ==> WellFormed(([x] + rest)[i])
    ensures EncodeWith(rule, x).Ok? && EncodeAll(rule, rest).Ok? ==>
              EncodeAll(rule, [x] + rest) == Ok(EncodeWith(rule, x).value + EncodeAll(rule, rest).value)
  {
    assert ([x] + rest)[0] == x;
    assert ([x] + rest)[1..] == rest;
  }

  /** A `u8` element is written as its own byte, so the elements of a vector
      of `u8` are written as the bytes themselves. */
  lemma {:induction false} U8sEncoding(rule: LengthPrefix, bs: seq<byte>)
    ensures forall i :: 0 <= i < |bs| ==> WellFormed(U8s(bs)[i])
    ensures EncodeAll(rule, U8s(bs)) == Ok(bs)
  {
    if bs != [] {
      U8sEncoding(rule, bs[1..]);
      assert U8s(bs) == [UInt(U8, bs[0])] + U8s(bs[1..]);
      assert EncodeUInt(U8, bs[0]) == [bs[0]];
      EncodeAllPrepend(rule, UInt(U8, bs[0]), U8s(bs[1..]));
      assert bs == [bs[0]] + bs[1..];
    }
  }

  /** A vector of `u8` with at most `MAX` elements is encoded as its length
      field followed by its bytes verbatim, and decodes back to itself from
      wherever those bytes sit, leaving whatever follows them unread. */
  lemma VecU8RoundTrip(lw: LenWidth, bs: seq<byte>, data: seq<byte>, pos: nat, limit: nat)
    requires |bs| <= lw.Max()
    requires pos + lw.LenLen() + |bs| <= limit <= |data|
    requires data[pos..pos + lw.LenLen() + |bs|] == EncodeUInt(lw.Prefix(), |bs|) + bs
    ensures Encode(Vec(lw, U8s(bs))) == Ok(EncodeUInt(lw.Prefix(), |bs|) + bs)
    ensures Decode(KVec(lw, KUInt(U8)), data, pos, limit) == Decoded(Ok(Vec(lw, U8s(bs))), pos + lw.LenLen() + |bs|)
  {
    VecU8Encoding(lw, bs);
    var v := Vec(lw, U8s(bs));
    assert OneByteElements(v);
    assert HasKind(v, KVec(lw, KUInt(U8)));
    EncodeLength(ElementCount, v);
    RoundTrip(ElementCount, v, KVec(lw, KUInt(U8)), data, pos, limit);
  }

  /** A vector of `u8` with at most `MAX` elements is written as its length
      field followed by its bytes verbatim. */
  lemma VecU8Encoding(lw: LenWidth, bs: seq<byte>)
    requires |bs| <= lw.Max()
    ensures WellFormed(Vec(lw, U8s(bs)))
    ensures Encode(Vec(lw, U8s(bs))) == Ok(EncodeUInt(lw.Prefix(), |bs|) + bs)
  {
    U8sEncoding(ElementCount, bs);
  }

  /** Too many elements for the length field: encoding fails with
      `InvalidVectorLength`. */
  lemma VecTooLong(lw: LenWidth, es: seq<Value>)
    requires forall j :: 0 <= j < |es| ==> WellFormed(es[j])
    requires |es| > lw.Max()
    ensures Encode(Vec(lw, es)) == Err(InvalidVectorLength)
  {
  }

  // ---------------------------------------------------------------------
  // Where the code and RFC 8446 section 3.4 part ways

  /** Four `u16` elements. */
  function U16Quad(a: nat, b: nat, c: nat, d: nat): (q: seq<Value>) {
    [UInt(U16, a), UInt(U16, b), UInt(U16, c), UInt(U16, d)]
  }

  /** The bytes of the four elements, one after another. */
  function U16QuadBytes(a: nat, b: nat, c: nat, d: nat): (bytes: seq<byte>)
    requires InRange(U16, a) && InRange(U16, b) && InRange(U16, c) && InRange(U16, d)
  {
    EncodeUInt(U16, a) + EncodeUInt(U16, b) + EncodeUInt(U16, c) + EncodeUInt(U16, d)
  }

  /** An integer element of type w decodes from the next w.Bytes() bytes. */
  lemma UIntElement(w: UIntWidth, data: seq<byte>, pos: nat, limit: nat)
    requires pos + w.Bytes() <= limit <= |data|
    ensures Decode(KUInt(w), data, pos, limit)
            == Decoded(Ok(UInt(w, FromBigEndian(data[pos..pos + w.Bytes()]))), pos + w.Bytes())
  {
  }

  /** The middle part of a concatenation of three. */
  lemma ConcatSlice(pre: seq<byte>, x: seq<byte>, post: seq<byte>)
    ensures (pre + x + post)[|pre|..|pre| + |x|] == x
  {
    assert (pre + x + post)[|pre|..|pre| + |x|] == (pre + x)[|pre|..];
  }

  /** Four u16 elements in a `TlsVecU8`. The crate writes the length field 4
      (the element count); the decoder reads it as 4 bytes, decodes the
      first two elements only, and leaves 4 bytes of the encoding unread. */
  lemma CountPrefixCounterexample(a: nat, b: nat, c: nat, d: nat)
    requires InRange(U16, a) && InRange(U16, b) && InRange(U16, c) && InRange(U16, d)
    ensures var wire := [4] + U16QuadBytes(a, b, c, d);
            && |wire| == 9
            && Encode(Vec(L8, U16Quad(a, b, c, d))) == Ok(wire)
            && Decode(KVec(L8, KUInt(U16)), wire, 0, |wire|)
               == Decoded(Ok(Vec(L8, [UInt(U16, a), UInt(U16, b)])), 5)
  {
    var wire := [4] + U16QuadBytes(a, b, c, d);
    U16QuadEncoding(ElementCount, a, b, c, d);
    assert EncodeUInt(U8, 4) == [4];
    CountPrefixDecode(a, b, c, d, wire);
  }

  /** The decoding half of the counterexample: the window is [1, 5). */
  lemma CountPrefixDecode(a: nat, b: nat, c: nat, d: nat, wire: seq<byte>)
    requires InRange(U16, a) && InRange(U16, b) && InRange(U16, c) && InRange(U16, d)
    requires wire == [4] + U16QuadBytes(a, b, c, d)
    ensures |wire| == 9
    ensures Decode(KVec(L8, KUInt(U16)), wire, 0, 9) == Decoded(Ok(Vec(L8, [UInt(U16, a), UInt(U16, b)])), 5)
  {
    CountPrefixLayout(a, b, c, d, wire);
    UIntRoundTrip(U8, 4, wire, 0, 9);
    DecodeVecUnfold(L8, KUInt(U16), wire, 0, 9);
    TwoElementsInWindow(a, b, wire);
  }

  /** Where the length field and the first two elements sit in the
      counterexample's input. */
  lemma CountPrefixLayout(a: nat, b: nat, c: nat, d: nat, wire: seq<byte>)
    requires InRange(U16, a) && InRange(U16, b) && InRange(U16, c) && InRange(U16, d)
    requires wire == [4] + U16QuadBytes(a, b, c, d)
    ensures |wire| == 9
    ensures wire[0..1] == EncodeUInt(U8, 4)
    ensures wire[1..3] == EncodeUInt(U16, a) && wire[3..5] == EncodeUInt(U16, b)
  {
    var ea, eb, ec, ed := EncodeUInt(U16, a), EncodeUInt(U16, b), EncodeUInt(U16, c), EncodeUInt(U16, d);
    assert wire[0..1] == [4] == EncodeUInt(U8, 4);
    assert wire == [4] + ea + (eb + ec + ed);
    ConcatSlice([4], ea, eb + ec + ed);
    assert wire == [4] + ea + eb + (ec + ed);
    ConcatSlice([4] + ea, eb, ec + ed);
  }

  /** The element loop over the window [1, 5) holding two u16 encodings
      reads both and stops at the window's end. */
  lemma TwoElementsInWindow(a: nat, b: nat, wire: seq<byte>)
    requires InRange(U16, a) && InRange(U16, b) && |wire| == 9
    requires wire[1..3] == EncodeUInt(U16, a) && wire[3..5] == EncodeUInt(U16, b)
    ensures DecodeElems(KUInt(U16), wire, 1, 5, []) == Decoded(Ok([UInt(U16, a), UInt(U16, b)]), 5)
  {
    UIntRoundTrip(U16, a, wire, 1, 5);
    UIntRoundTrip(U16, b, wire, 3, 5);
    var one, two := [UInt(U16, a)], [UInt(U16, a), UInt(U16, b)];
    DecodeElemsStep(KUInt(U16), wire, 5, 5, two);
    AtLimitEndOfStream(KUInt(U16), wire, 5);
    DecodeElemsStep(KUInt(U16), wire, 3, 5, one);
    assert one + [UInt(U16, b)] == two;
    DecodeElemsStep(KUInt(U16), wire, 1, 5, []);
    assert [] + [UInt(U16, a)] == one;
  }

  /** The four u16 elements encode to their eight bytes, in order. */
  lemma U16QuadEncoding(rule: LengthPrefix, a: nat, b: nat, c: nat, d: nat)
    requires InRange(U16, a) && InRange(U16, b) && InRange(U16, c) && InRange(U16, d)
    ensures forall i :: 0 <= i < |U16Quad(a, b, c, d)| ==> WellFormed(U16Quad(a, b, c, d)[i])
    ensures EncodeAll(rule, U16Quad(a, b, c, d)) == Ok(U16QuadBytes(a, b, c, d))
  {
    var e1, e2, e3, e4 := UInt(U16, a), UInt(U16, b), UInt(U16, c), UInt(U16, d);
    var ea, eb, ec, ed := EncodeUInt(U16, a), EncodeUInt(U16, b), EncodeUInt(U16, c), EncodeUInt(U16, d);
    EncodeAllPrepend(rule, e4, []);
    assert [e4] + [] == [e4] && ed + [] == ed;
    EncodeAllPrepend(rule, e3, [e4]);
    assert [e3] + [e4] == [e3, e4];
    EncodeAllPrepend(rule, e2, [e3, e4]);
    assert [e2] + [e3, e4] == [e2, e3, e4];
    EncodeAllPrepend(rule, e1, [e2, e3, e4]);
    assert [e1] + [e2, e3, e4] == U16Quad(a, b, c, d);
    assert ea + (eb + (ec + ed)) == U16QuadBytes(a, b, c, d);
  }

  /** With the byte count in the length field, as the RFC and the decoder
      expect, the same vector is written with the field 8 and decodes back
      whole. */
  lemma ByteCountDecodesWhole(a: nat, b: nat, c: nat, d: nat)
    requires InRange(U16, a) && InRange(U16, b) && InRange(U16, c) && InRange(U16, d)
    ensures var wire := [8] + U16QuadBytes(a, b, c, d);
            && |wire| == 9
            && EncodeWith(ByteCount, Vec(L8, U16Quad(a, b, c, d))) == Ok(wire)
            && Decode(KVec(L8, KUInt(U16)), wire, 0, |wire|) == Decoded(Ok(Vec(L8, U16Quad(a, b, c, d))), 9)
  {
    var wire := [8] + U16QuadBytes(a, b, c, d);
    var es := U16Quad(a, b, c, d);
    U16QuadEncoding(ByteCount, a, b, c, d);
    EncodeAllLength(ByteCount, es);
    assert EncodeUInt(U8, 8) == [8];
    assert EncodeWith(ByteCount, Vec(L8, es)) == Ok(wire);
    ByteCountDecode(a, b, c, d, wire);
  }

  /** The decoding half: the window is the whole input. */
  lemma ByteCountDecode(a: nat, b: nat, c: nat, d: nat, wire: seq<byte>)
    requires InRange(U16, a) && InRange(U16, b) && InRange(U16, c) && InRange(U16, d)
    requires EncodeWith(ByteCount, Vec(L8, U16Quad(a, b, c, d))) == Ok(wire)
    ensures Decode(KVec(L8, KUInt(U16)), wire, 0, |wire|) == Decoded(Ok(Vec(L8, U16Quad(a, b, c, d))), |wire|)
  {
    var v := Vec(L8, U16Quad(a, b, c, d));
    EncodeLength(ByteCount, v);
    assert HasKind(v, KVec(L8, KUInt(U16)));
    assert wire[0..|wire|] == wire;
    RoundTrip(ByteCount, v, KVec(L8, KUInt(U16)), wire, 0, |wire|);
  }

  /** The elements 1, 2, 3 and 500 are the bytes 0 1 0 2 0 3 1 244, so with
      the byte count 8 in front they are the input the derive tests decode
      into a `TlsVecU8<u16>`. */
  lemma DeriveTestInput()
    ensures [8] + U16QuadBytes(1, 2, 3, 500) == [8, 0, 1, 0, 2, 0, 3, 1, 244]
  {
    assert EncodeUInt(U16, 1) == [0, 1];
    assert EncodeUInt(U16, 2) == [0, 2];
    assert EncodeUInt(U16, 3) == [0, 3];
    assert EncodeUInt(U16, 500) == [1, 244];
  }

  /** A length field that promises more bytes than the input holds is not
      an error: the loop stops at the end of the input and the vector
      holds the elements read so far. */
  lemma TruncatedVectorDecodesPartially()
    ensures var wire: seq<byte> := [4, 77, 88];
            Decode(KVec(L8, KUInt(U8)), wire, 0, 3) == Decoded(Ok(Vec(L8, [UInt(U8, 77), UInt(U8, 88)])), 3)
  {
    var wire: seq<byte> := [4, 77, 88];
    DecodeVecUnfold(L8, KUInt(U8), wire, 0, 3);
    assert wire[0..1] == [4];
    assert FromBigEndian([4]) == 4 by {
      assert [4][..0] == [];
    }
    assert wire[1..2] == [77];
    assert wire[2..3] == [88];
    assert FromBigEndian([77]) == 77 by {
      assert [77][..0] == [];
    }
    assert FromBigEndian([88]) == 88 by {
      assert [88][..0] == [];
    }
    assert DecodeUInt(U8, wire, 0, 3) == Decoded(Ok(4), 1);
    UIntElement(U8, wire, 1, 3);
    UIntElement(U8, wire, 2, 3);
    assert Decode(KUInt(U8), wire, 1, 3) == Decoded(Ok(UInt(U8, 77)), 2);
    assert Decode(KUInt(U8), wire, 2, 3) == Decoded(Ok(UInt(U8, 88)), 3);
    DecodeElemsStep(KUInt(U8), wire, 3, 3, [UInt(U8, 77), UInt(U8, 88)]);
    AtLimitEndOfStream(KUInt(U8), wire, 3);
    assert DecodeElems(KUInt(U8), wire, 3, 3, [UInt(U8, 77), UInt(U8, 88)]) == Decoded(Ok([UInt(U8, 77), UInt(U8, 88)]), 3);
    DecodeElemsStep(KUInt(U8), wire, 2, 3, [UInt(U8, 77)]);
    assert [UInt(U8, 77)] + [UInt(U8, 88)] == [UInt(U8, 77), UInt(U8, 88)];
    assert DecodeElems(KUInt(U8), wire, 2, 3, [UInt(U8, 77)]) == Decoded(Ok([UInt(U8, 77), UInt(U8, 88)]), 3);
    DecodeElemsStep(KUInt(U8), wire, 1, 3, []);
    assert [] + [UInt(U8, 77)] == [UInt(U8, 77)];
    assert DecodeElems(KUInt(U8), wire, 1, 3, []) == Decoded(Ok([UInt(U8, 77), UInt(U8, 88)]), 3);
  }

  // ---------------------------------------------------------------------
  // The crate's test scenarios

  /** [1, 2, 3, 4, 5] as a `TlsVecU32<u8>` is written as
      [0, 0, 0, 5, 1, 2, 3, 4, 5]. */
  lemma VecU32Example()
    ensures Encode(Vec(L32, U8s([1, 2, 3, 4, 5]))) == Ok([0, 0, 0, 5, 1, 2, 3, 4, 5])
  {
    VecU8Encoding(L32, [1, 2, 3, 4, 5]);
    assert ToBigEndian(0, 3) == [0, 0, 0] by {
      assert ToBigEndian(0, 1) == [0];
      assert ToBigEndian(0, 2) == [0, 0];
    }
    assert ToBigEndian(5, 4) == [0, 0, 0, 5];
    assert EncodeUInt(U32, 5) == [0, 0, 0, 5];
    assert [0, 0, 0, 5] + [1, 2, 3, 4, 5] == [0, 0, 0, 5, 1, 2, 3, 4, 5];
  }

  /** After a leading u8 read of 1, [4, 77, 88, 1, 99] decodes as a
      `TlsVecU8<u8>` to [77, 88, 1, 99], and the input is then empty. */
  lemma VecU8DecodeExample()
    ensures var data: seq<byte> := [1, 4, 77, 88, 1, 99];
            && DecodeUInt(U8, data, 0, 6) == Decoded(Ok(1), 1)
            && Decode(KVec(L8, KUInt(U8)), data, 1, 6) == Decoded(Ok(Vec(L8, U8s([77, 88, 1, 99]))), 6)
            && DecodeUInt(U8, data, 6, 6).result == Err(EndOfStream)
  {
    var data: seq<byte> := [1, 4, 77, 88, 1, 99];
    assert data[0..1] == EncodeUInt(U8, 1);
    UIntRoundTrip(U8, 1, data, 0, 6);
    assert EncodeUInt(U8, 4) == [4];
    assert data[1..6] == EncodeUInt(U8, 4) + [77, 88, 1, 99];
    VecU8RoundTrip(L8, [77, 88, 1, 99], data, 1, 6);
  }
}
