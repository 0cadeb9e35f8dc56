/** The codec of every type the crate serializes, as one closed universe:
    the integer primitives and byte arrays, `Option<T>` with its 0/1 tag
    (tls_codec/src/primitives.rs), the length-prefixed vectors
    `TlsVecU8/U16/U32<T>` (tls_codec/src/tls_vec.rs), and the serialize
    trait's detached form (tls_codec/src/lib.rs). A `Kind` stands for a Rust
    type, a `Value` for a value of one. The specification functions `Size`,
    `EncodeWith` and `Decode` say what the codecs compute; the methods
    `Serialize` and `Deserialize` do it on a `Writer` and a `Reader` and are
    proved to agree with them. */
module Codec {
  import opened Errors
  import opened BigEndian
  import opened Streams
  import opened Primitives
  import opened Arrays

  /** The length-field widths of `TlsVecU8`, `TlsVecU16` and `TlsVecU32`. */
  datatype LenWidth = L8 | L16 | L32 {

    /** The integer type of the length field. */
    function Prefix(): (w: UIntWidth) {
      match this
      case L8 => U8
      case L16 => U16
      case L32 => U32
    }

    /** `len_len`: the number of bytes of the length field. */
    function LenLen(): (n: nat)
      ensures n == Prefix().Bytes()
    {
      match this
      case L8 => 1
      case L16 => 2
      case L32 => 4
    }

    /** `MAX` of the length field's type. */
    function Max(): (m: nat)
      ensures m == Pow256(LenLen()) - 1
    {
      Prefix().Max()
    }
  }

  /** The serializable types. */
  datatype Kind =
    | KUInt(w: UIntWidth)
    | KArray(n: ArrayLen)
    | KOption(some: Kind)
    | KVec(lw: LenWidth, elem: Kind)

  /** Values of the serializable types. A vector is the same value whether it
      is a public or a secret vector: the two share their wire format. */
  datatype Value =
    | UInt(w: UIntWidth, n: nat)
    | Bytes(bytes: seq<byte>)
    | Opt(o: Option<Value>)
    | Vec(lw: LenWidth, elems: seq<Value>)

  /** v is a value of the type k. */
  predicate HasKind(v: Value, k: Kind) {
    match v
    case UInt(w, n) => k == KUInt(w) && InRange(w, n)
    case Bytes(b) => k.KArray? && |b| == k.n.Count()
    case Opt(None) => k.KOption?
    case Opt(Some(x)) => k.KOption? && HasKind(x, k.some)
    case Vec(lw, es) => k.KVec? && k.lw == lw && forall i :: 0 <= i < |es| ==> HasKind(es[i], k.elem)
  }

  /** Every integer in v fits its type: what Rust's types guarantee of every
      value, whatever its type. */
  predicate WellFormed(v: Value) {
    match v
    case UInt(w, n) => InRange(w, n)
    case Bytes(_) => true
    case Opt(None) => true
    case Opt(Some(x)) => WellFormed(x)
    case Vec(_, es) => forall i :: 0 <= i < |es| ==> WellFormed(es[i])
  }

  lemma {:induction false} KindedIsWellFormed(v: Value, k: Kind)
    requires HasKind(v, k)
    ensures WellFormed(v)
  {
    match v
    case UInt(_, _) =>
    case Bytes(_) =>
    case Opt(None) =>
    case Opt(Some(x)) => KindedIsWellFormed(x, k.some);
    case Vec(_, es) =>
      forall i | 0 <= i < |es| ensures WellFormed(es[i]) {
        KindedIsWellFormed(es[i], k.elem);
      }
  }

  // ---------------------------------------------------------------------
  // Size

  /** `serialized_len`: a constant for the primitives, 1 plus the payload's
      size for an option, and for a vector the fold of the elements' sizes
      starting from `len_len`. */
  function Size(v: Value): (n: nat)
    decreases v
  {
    match v
    case UInt(w, _) => w.Bytes()
    case Bytes(b) => |b|
    case Opt(None) => 1
    case Opt(Some(x)) => 1 + Size(x)
    case Vec(lw, es) => lw.LenLen() + ElemsSize(es)
  }

  /** The elements' sizes added up: what the fold in `serialized_len`
      adds to its starting value `len_len`. */
  function ElemsSize(es: seq<Value>): (n: nat)
    decreases es
  {
    if es == [] then 0 else Size(es[0]) + ElemsSize(es[1..])
  }

  // ---------------------------------------------------------------------
  // Encoding

  /** What a vector's length field holds. The code writes the number of
      elements; the decoder, like RFC 8446 section 3.4, reads it as the
      number of bytes of the elements' encodings. */
  datatype LengthPrefix = ElementCount | ByteCount

  /** What serializing v appends to a buffer, or the error it fails with,
      when vectors write their length field according to rule. */
  function EncodeWith(rule: LengthPrefix, v: Value): (r: Result<seq<byte>>)
    requires WellFormed(v)
    ensures r.Err? ==> r.error == InvalidVectorLength
  {
    match v
    case UInt(w, n) => Ok(EncodeUInt(w, n))
    case Bytes(b) => Ok(b)
    case Opt(None) => Ok([0])
    case Opt(Some(x)) =>
      (match EncodeWith(rule, x)
       case Ok(payload) => Ok([1] + payload)
       case Err(e) => Err(e))
    case Vec(lw, es) =>
      var declared := if rule == ElementCount then |es| else ElemsSize(es);
      if declared > lw.Max() then Err(InvalidVectorLength)
      else
        (match EncodeAll(rule, es)
         case Ok(body) => Ok(EncodeUInt(lw.Prefix(), declared) + body)
         case Err(e) => Err(e))
  }

  /** The elements' encodings concatenated in order, or the first error. */
  function EncodeAll(rule: LengthPrefix, es: seq<Value>): (r: Result<seq<byte>>)
    requires forall i :: 0 <= i < |es| ==> WellFormed(es[i])
    ensures r.Err? ==> r.error == InvalidVectorLength
  {
    if es == [] then Ok([])
    else
      match EncodeWith(rule, es[0])
      case Err(e) => Err(e)
      case Ok(first) =>
        match EncodeAll(rule, es[1..])
        case Err(e) => Err(e)
        case Ok(rest) => Ok(first + rest)
  }

  /** The encoding the crate produces: vectors write their element count. */
  function Encode(v: Value): (r: Result<seq<byte>>)
    requires WellFormed(v)
  {
    EncodeWith(ElementCount, v)
  }

  /** A successful encoding is exactly `serialized_len` bytes long, under
      either rule for the length field. */
  lemma {:induction false} EncodeLength(rule: LengthPrefix, v: Value)
    requires WellFormed(v)
    requires EncodeWith(rule, v).Ok?
    ensures |EncodeWith(rule, v).value| == Size(v)
  {
    match v
    case UInt(_, _) =>
    case Bytes(_) =>
    case Opt(None) =>
    case Opt(Some(x)) => EncodeLength(rule, x);
    case Vec(lw, es) => EncodeAllLength(rule, es);
  }

  /** The elements' encodings together are as long as their sizes add up. */
  lemma {:induction false} EncodeAllLength(rule: LengthPrefix, es: seq<Value>)
    requires forall i :: 0 <= i < |es| ==> WellFormed(es[i])
    requires EncodeAll(rule, es).Ok?
    ensures |EncodeAll(rule, es).value| == ElemsSize(es)
  {
    if es != [] {
      EncodeLength(rule, es[0]);
      EncodeAllLength(rule, es[1..]);
    }
  }

  /** Encoding two runs of elements one after the other: the encodings of
      both, in order, and an error when either fails. */
  lemma {:induction false} EncodeAllConcat(rule: LengthPrefix, xs: seq<Value>, ys: seq<Value>)
    requires forall i :: 0 <= i < |xs| ==> WellFormed(xs[i])
    requires forall i :: 0 <= i < |ys| ==> WellFormed(ys[i])
    ensures forall i :: 0 <= i < |xs + ys| ==> WellFormed((xs + ys)[i])
    ensures EncodeAll(rule, xs + ys).Ok? <==> EncodeAll(rule, xs).Ok? && EncodeAll(rule, ys).Ok?
    ensures EncodeAll(rule, xs + ys).Ok? ==>
              EncodeAll(rule, xs + ys).value == EncodeAll(rule, xs).value + EncodeAll(rule, ys).value
  {
    if xs == [] {
      assert xs + ys == ys;
    } else {
      assert (xs + ys)[0] == xs[0];
      assert (xs + ys)[1..] == xs[1..] + ys;
      EncodeAllConcat(rule, xs[1..], ys);
      if EncodeAll(rule, xs + ys).Ok? {
        var first, mid, rest := EncodeWith(rule, xs[0]).value, EncodeAll(rule, xs[1..]).value, EncodeAll(rule, ys).value;
        assert first + (mid + rest) == first + mid + rest;
      }
    }
  }

  /** The elements es[..i + 1] encode as es[..i] followed by es[i]; when
      es[i] fails to encode, so does the whole of es. */
  lemma EncodeAllPrefix(rule: LengthPrefix, es: seq<Value>, i: nat)
    requires forall j :: 0 <= j < |es| ==> WellFormed(es[j])
    requires i < |es|
    ensures EncodeAll(rule, es[..i + 1]).Ok? <==> EncodeAll(rule, es[..i]).Ok? && EncodeWith(rule, es[i]).Ok?
    ensures EncodeAll(rule, es[..i + 1]).Ok? ==>
              EncodeAll(rule, es[..i + 1]).value == EncodeAll(rule, es[..i]).value + EncodeWith(rule, es[i]).value
    ensures EncodeWith(rule, es[i]).Err? ==> EncodeAll(rule, es).Err?
  {
    assert es[..i + 1] == es[..i] + [es[i]];
    EncodeAllConcat(rule, es[..i], [es[i]]);
    assert [es[i]][1..] == [];
    assert es == es[..i + 1] + es[i + 1..];
    EncodeAllConcat(rule, es[..i + 1], es[i + 1..]);
  }

  // ---------------------------------------------------------------------
  // Decoding

  /** A decimal numeral, as `{}` formats an integer. */
  function Decimal(n: nat): (s: string)
    ensures |s| >= 1
  {
    if n < 10 then ["0123456789"[n]] else Decimal(n / 10) + ["0123456789"[n % 10]]
  }

  /** The number a string of decimal digits stands for, most significant
      digit first. */
  function DecimalValue(s: string): (n: int)
  {
    if s == [] then 0 else DecimalValue(s[..|s| - 1]) * 10 + (s[|s| - 1] as int - '0' as int)
  }

  /** The digit character of d and its value. */
  lemma DigitValue(d: nat)
    requires d < 10
    ensures '0' <= "0123456789"[d] <= '9'
    ensures "0123456789"[d] as int - '0' as int == d
  {
    if d == 0 {} else if d == 1 {} else if d == 2 {} else if d == 3 {} else if d == 4 {}
    else if d == 5 {} else if d == 6 {} else if d == 7 {} else if d == 8 {} else {}
  }

  /** The numeral is made of digits and reads back as n: `{}` renders a
      number as its own decimal value. */
  lemma {:induction false} DecimalRoundTrip(n: nat)
    ensures forall i :: 0 <= i < |Decimal(n)| ==> '0' <= Decimal(n)[i] <= '9'
    ensures DecimalValue(Decimal(n)) == n
  {
    var s := Decimal(n);
    if n < 10 {
      DigitValue(n);
      assert s[..0] == [];
    } else {
      DecimalRoundTrip(n / 10);
      DigitValue(n % 10);
      assert s[..|s| - 1] == Decimal(n / 10);
    }
  }

  /** The fixed text around the tag in the message of the error for an
      option tag other than 0 or 1. */
  const OptionTagLead: string := "Trying to decode Option<T> with "
  const OptionTagTail: string := " for option. It must be 0 for None and 1 for Some."

  /** The message of the error for an option tag other than 0 or 1. */
  function OptionTagMessage(tag: byte): (m: string) {
    OptionTagLead + Decimal(tag) + OptionTagTail
  }

  /** The message names the tag: between its fixed lead and tail it holds
      the tag's decimal numeral, so different tags give different
      messages. */
  lemma OptionTagMessageNamesTag(tag: byte)
    ensures var m := OptionTagMessage(tag);
            && |OptionTagLead| + |OptionTagTail| < |m|
            && m[..|OptionTagLead|] == OptionTagLead
            && m[|m| - |OptionTagTail|..] == OptionTagTail
            && DecimalValue(m[|OptionTagLead|..|m| - |OptionTagTail|]) == tag
  {
    var m := OptionTagMessage(tag);
    assert m[|OptionTagLead|..|m| - |OptionTagTail|] == Decimal(tag);
    DecimalRoundTrip(tag);
  }

  /** Distinct tags give distinct error messages. */
  lemma OptionTagMessageInjective(a: byte, b: byte)
    requires OptionTagMessage(a) == OptionTagMessage(b)
    ensures a == b
  {
    OptionTagMessageNamesTag(a);
    OptionTagMessageNamesTag(b);
  }

  /** Deserializing a value of type k from the readable window
      `data[pos..limit]`: the value or the error, and where reading stopped.
      Every successful decode consumes at least one byte, and no decode
      reads beyond the window. */
  function Decode(k: Kind, data: seq<byte>, pos: nat, limit: nat): (d: Decoded<Value>)
    requires pos <= limit <= |data|
    ensures pos <= d.next <= limit
    ensures d.result.Ok? ==> pos < d.next
    decreases k, 1
  {
    match k
    case KUInt(w) =>
      var u := DecodeUInt(w, data, pos, limit);
      (match u.result
       case Ok(n) => Decoded(Ok(UInt(w, n)), u.next)
       case Err(e) => Decoded(Err(e), u.next))
    case KArray(n) =>
      var a := DecodeArray(n, data, pos, limit);
      (match a.result
       case Ok(b) => Decoded(Ok(Bytes(b)), a.next)
       case Err(e) => Decoded(Err(e), a.next))
    case KOption(ek) => DecodeOption(ek, data, pos, limit)
    case KVec(lw, ek) => DecodeVec(lw, ek, data, pos, limit)
  }

  /** `Option<T>`: the tag byte, then for 1 the payload. */
  function DecodeOption(ek: Kind, data: seq<byte>, pos: nat, limit: nat): (d: Decoded<Value>)
    requires pos <= limit <= |data|
    ensures pos <= d.next <= limit
    ensures d.result.Ok? ==> pos < d.next
    decreases ek, 3
  {
    var tag := ReadExact(data, pos, limit, 1);
    if tag.result.Err? then Decoded(Err(tag.result.error), tag.next)
    else if tag.result.value[0] == 0 then Decoded(Ok(Opt(None)), tag.next)
    else if tag.result.value[0] == 1 then
      var e := Decode(ek, data, tag.next, limit);
      (match e.result
       case Ok(x) => Decoded(Ok(Opt(Some(x))), e.next)
       case Err(err) => Decoded(Err(err), e.next))
    else Decoded(Err(DecodingError(OptionTagMessage(tag.result.value[0]))), tag.next)
  }

  /** A vector: the length field, then the element loop over a window of
      that many bytes. */
  function DecodeVec(lw: LenWidth, ek: Kind, data: seq<byte>, pos: nat, limit: nat): (d: Decoded<Value>)
    requires pos <= limit <= |data|
    ensures pos <= d.next <= limit
    ensures d.result.Ok? ==> pos < d.next
    ensures d.result.Ok? ==> pos + lw.LenLen() <= d.next
    decreases ek, 3
  {
    var len := DecodeUInt(lw.Prefix(), data, pos, limit);
    if len.result.Err? then Decoded(Err(len.result.error), len.next)
    else
      var window := Min(limit, len.next + len.result.value);
      var elems := DecodeElems(ek, data, len.next, window, []);
      (match elems.result
       case Ok(es) => Decoded(Ok(Vec(lw, es)), elems.next)
       case Err(e) => Decoded(Err(e), elems.next))
  }

  /** The vector decoder's loop over the window `data[pos..limit]`: decode
      elements and append them to acc until one fails. `EndOfStream` ends
      the loop with the elements gathered so far; any other error is the
      result. */
  function DecodeElems(ek: Kind, data: seq<byte>, pos: nat, limit: nat, acc: seq<Value>): (d: Decoded<seq<Value>>)
    requires pos <= limit <= |data|
    ensures pos <= d.next <= limit
    decreases ek, 2, limit - pos
  {
    var e := Decode(ek, data, pos, limit);
    match e.result
    case Ok(x) => DecodeElems(ek, data, e.next, limit, acc + [x])
    case Err(err) =>
      if err == EndOfStream then Decoded(Ok(acc), e.next) else Decoded(Err(err), e.next)
  }

  /** A successful decode yields a value of the type asked for. */
  lemma {:induction false} DecodeHasKind(k: Kind, data: seq<byte>, pos: nat, limit: nat)
    requires pos <= limit <= |data|
    ensures var d := Decode(k, data, pos, limit);
            d.result.Ok? ==> HasKind(d.result.value, k)
    decreases k, 0, 0
  {
    match k
    case KUInt(_) =>
    case KArray(_) =>
    case KOption(ek) =>
      if pos < limit && data[pos] == 1 {
        DecodeHasKind(ek, data, pos + 1, limit);
      }
    case KVec(lw, ek) =>
      var len := DecodeUInt(lw.Prefix(), data, pos, limit);
      if len.result.Ok? {
        DecodeElemsHasKind(ek, data, len.next, Min(limit, len.next + len.result.value), []);
      }
  }

  /** The element loop keeps what it gathered and adds values of the
      element type only. */
  lemma {:induction false} DecodeElemsHasKind(ek: Kind, data: seq<byte>, pos: nat, limit: nat, acc: seq<Value>)
    requires pos <= limit <= |data|
    requires forall i :: 0 <= i < |acc| ==> HasKind(acc[i], ek)
    ensures var d := DecodeElems(ek, data, pos, limit, acc);
            d.result.Ok? ==> acc <= d.result.value && forall i :: 0 <= i < |d.result.value| ==> HasKind(d.result.value[i], ek)
    decreases ek, 1, limit - pos
  {
    var e := Decode(ek, data, pos, limit);
    if e.result.Ok? {
      DecodeHasKind(ek, data, pos, limit);
      DecodeElemsHasKind(ek, data, e.next, limit, acc + [e.result.value]);
    }
  }

  /** One turn of the decoding loop. */
  lemma DecodeElemsStep(ek: Kind, data: seq<byte>, pos: nat, limit: nat, acc: seq<Value>)
    requires pos <= limit <= |data|
    ensures var e := Decode(ek, data, pos, limit);
            DecodeElems(ek, data, pos, limit, acc) ==
              if e.result.Ok? then DecodeElems(ek, data, e.next, limit, acc + [e.result.value])
              else if e.result.error == EndOfStream then Decoded(Ok(acc), e.next)
              else Decoded(Err(e.result.error), e.next)
  {
  }

  /** Decoding a vector: the length field, then the loop over a window of
      that many bytes. */
  lemma DecodeVecUnfold(lw: LenWidth, ek: Kind, data: seq<byte>, pos: nat, limit: nat)
    requires pos <= limit <= |data|
    ensures var len := DecodeUInt(lw.Prefix(), data, pos, limit);
            Decode(KVec(lw, ek), data, pos, limit) ==
              if len.result.Err? then Decoded(Err(len.result.error), len.next)
              else
                var elems := DecodeElems(ek, data, len.next, Min(limit, len.next + len.result.value), []);
                if elems.result.Ok? then Decoded(Ok(Vec(lw, elems.result.value)), elems.next)
                else Decoded(Err(elems.result.error), elems.next)
  {
  }

  // ---------------------------------------------------------------------
  // The codecs on streams

  /** `tls_serialize`: appends v's encoding to the buffer and returns how
      many bytes it appended. On failure it returns the encoding's error;
      what it appended before failing is left in the buffer. */
  method Serialize(v: Value, w: Writer) returns (r: Result<nat>)
    requires WellFormed(v)
    modifies w
    ensures r.Ok? <==> Encode(v).Ok?
    ensures r.Ok? ==> w.buf == old(w.buf) + Encode(v).value && r.value == |Encode(v).value|
    ensures r.Err? ==> r.error == Encode(v).error && old(w.buf) <= w.buf
    decreases v
  {
    match v
    case UInt(width, n) =>
      var written := SerializeUInt(width, n, w);
      r := Ok(written);
    case Bytes(b) =>
      SerializeArray(b, w);
      r := Ok(|b|);
    case Opt(None) =>
      w.Write([0]);
      r := Ok(1);
    case Opt(Some(x)) =>
      w.Write([1]);
      var inner := Serialize(x, w);
      if inner.Err? {
        return Err(inner.error);
      }
      r := Ok(inner.value + 1);
    case Vec(lw, es) =>
      r := SerializeVec(lw, es, w);
  }

  /** `tls_serialize` of a vector: the element count is checked against the
      length field's `MAX` before anything is written, then the count and
      the elements are written. */
  method SerializeVec(lw: LenWidth, es: seq<Value>, w: Writer) returns (r: Result<nat>)
    requires forall i :: 0 <= i < |es| ==> WellFormed(es[i])
    modifies w
    ensures r.Ok? <==> Encode(Vec(lw, es)).Ok?
    ensures r.Ok? ==> w.buf == old(w.buf) + Encode(Vec(lw, es)).value && r.value == |Encode(Vec(lw, es)).value|
    ensures r.Err? ==> r.error == Encode(Vec(lw, es)).error && old(w.buf) <= w.buf
    ensures |es| > lw.Max() ==> r == Err(InvalidVectorLength) && w.buf == old(w.buf)
    decreases es, 1
  {
    if |es| > lw.Max() {
      return Err(InvalidVectorLength);
    }
    var written := SerializeUInt(lw.Prefix(), |es|, w);
    var body := SerializeElems(es, w);
    if body.Err? {
      return Err(body.error);
    }
    r := Ok(written + body.value);
  }

  /** The loop of `tls_serialize` over a vector's elements: each element in
      order is serialized and the byte counts are added up; the first error
      ends the loop. */
  method SerializeElems(es: seq<Value>, w: Writer) returns (r: Result<nat>)
    requires forall i :: 0 <= i < |es| ==> WellFormed(es[i])
    modifies w
    ensures r.Ok? <==> EncodeAll(ElementCount, es).Ok?
    ensures r.Ok? ==> w.buf == old(w.buf) + EncodeAll(ElementCount, es).value && r.value == |EncodeAll(ElementCount, es).value|
    ensures r.Err? ==> r.error == InvalidVectorLength && old(w.buf) <= w.buf
    decreases es, 0
  {
    var written := 0;
    var i := 0;
    while i < |es|
      invariant 0 <= i <= |es|
      invariant EncodeAll(ElementCount, es[..i]).Ok?
      invariant w.buf == old(w.buf) + EncodeAll(ElementCount, es[..i]).value
      invariant written == |EncodeAll(ElementCount, es[..i]).value|
    {
      var e := Serialize(es[i], w);
      EncodeAllPrefix(ElementCount, es, i);
      if e.Err? {
        return Err(e.error);
      }
      written := written + e.value;
      i := i + 1;
    }
    assert es[..i] == es;
    r := Ok(written);
  }

  /** `tls_deserialize` of a value of type k: the reader advances exactly as
      `Decode` says, and its limit is unchanged. */
  method Deserialize(k: Kind, r: Reader) returns (res: Result<Value>)
    requires r.Valid()
    modifies r
    ensures r.Valid() && r.limit == old(r.limit)
    ensures Decoded(res, r.pos) == Decode(k, r.data, old(r.pos), r.limit)
    decreases k, 1
  {
    match k
    case KUInt(width) =>
      var u := DeserializeUInt(width, r);
      res := if u.Ok? then Ok(UInt(width, u.value)) else Err(u.error);
    case KArray(n) =>
      var a := DeserializeArray(n, r);
      res := if a.Ok? then Ok(Bytes(a.value)) else Err(a.error);
    case KOption(ek) =>
      var someOrNone := new byte[1](_ => 0);
      var tag := r.ReadExactInto(someOrNone);
      if tag.Err? {
        return Err(tag.error);
      }
      if someOrNone[0] == 0 {
        res := Ok(Opt(None));
      } else if someOrNone[0] == 1 {
        var element := Deserialize(ek, r);
        res := if element.Ok? then Ok(Opt(Some(element.value))) else Err(element.error);
      } else {
        res := Err(DecodingError(OptionTagMessage(someOrNone[0])));
      }
    case KVec(lw, ek) =>
      res := DeserializeVec(lw, ek, r);
  }

  /** `tls_deserialize` of a vector: reads the length field, bounds the
      reader to that many bytes with `take`, runs the element loop on the
      bounded reader, and drops the bound again. */
  method DeserializeVec(lw: LenWidth, ek: Kind, r: Reader) returns (res: Result<Value>)
    requires r.Valid()
    modifies r
    ensures r.Valid() && r.limit == old(r.limit)
    ensures Decoded(res, r.pos) == Decode(KVec(lw, ek), r.data, old(r.pos), r.limit)
    decreases KVec(lw, ek), 0
  {
    DecodeVecUnfold(lw, ek, r.data, r.pos, r.limit);
    var len := DeserializeUInt(lw.Prefix(), r);
    if len.Err? {
      return Err(len.error);
    }
    var outer := r.Take(len.value);
    var elems := DeserializeElems(ek, r);
    r.Restore(outer);
    res := if elems.Ok? then Ok(Vec(lw, elems.value)) else Err(elems.error);
  }

  /** The vector decoder's loop: decode elements from the (bounded) reader
      and push them onto the result until one fails; `EndOfStream` ends the
      loop, any other error is returned. */
  method DeserializeElems(ek: Kind, r: Reader) returns (res: Result<seq<Value>>)
    requires r.Valid()
    modifies r
    ensures r.Valid() && r.limit == old(r.limit)
    ensures Decoded(res, r.pos) == DecodeElems(ek, r.data, old(r.pos), r.limit, [])
    decreases ek, 2
  {
    var result: seq<Value> := [];
    while true
      invariant r.Valid() && r.limit == old(r.limit) && old(r.pos) <= r.pos
      invariant DecodeElems(ek, r.data, old(r.pos), r.limit, []) == DecodeElems(ek, r.data, r.pos, r.limit, result)
      decreases r.limit - r.pos
    {
      ghost var before := r.pos;
      var element := Deserialize(ek, r);
      DecodeElemsStep(ek, r.data, before, r.limit, result);
      if element.Err? {
        if element.error == EndOfStream {
          break;
        }
        return Err(element.error);
      }
      result := result + [element.value];
    }
    res := Ok(result);
  }

  /** `tls_serialize_detached`: serializes into a fresh buffer sized by
      `serialized_len`. The result is exactly what serializing appends to
      an empty buffer, or the same error, and a successful result is
      `serialized_len` bytes long. */
  method SerializeDetached(v: Value) returns (r: Result<seq<byte>>)
    requires WellFormed(v)
    ensures r == Encode(v)
    ensures r.Ok? ==> |r.value| == Size(v)
  {
    var buffer := new Writer.WithCapacity(Size(v));
    var written := Serialize(v, buffer);
    if written.Err? {
      assert Encode(v) == Err(written.error);
      return Err(written.error);
    }
    EncodeLength(ElementCount, v);
    assert buffer.buf == Encode(v).value;
    r := Ok(buffer.buf);
  }
}
