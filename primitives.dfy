/** The codecs of the unsigned integer primitives `u8`, `u16`, `u32` and
    `u64`: big-endian, fixed width, no length field
    (tls_codec/src/primitives.rs). */
module Primitives {
  import opened Errors
  import opened BigEndian
  import opened Streams

  /** The four unsigned integer types. */
  datatype UIntWidth = U8 | U16 | U32 | U64 {

    /** `serialized_len` of every value of the type: its width in bytes. */
    function Bytes(): (n: nat)
      ensures n in {1, 2, 4, 8}
    {
      match this
      case U8 => 1
      case U16 => 2
      case U32 => 4
      case U64 => 8
    }

    /** `MAX` of the type. */
    function Max(): (m: nat)
      ensures m == Pow256(Bytes()) - 1
    {
      match this
      case U8 => 0xFF
      case U16 => 0xFFFF
      case U32 => 0xFFFF_FFFF
      case U64 => 0xFFFF_FFFF_FFFF_FFFF
    }
  }

  /** The values a variable of the type can hold. */
  predicate InRange(w: UIntWidth, n: nat) {
    n <= w.Max()
  }

  /** `to_be_bytes`: the encoding of n. */
  function EncodeUInt(w: UIntWidth, n: nat): (s: seq<byte>)
    requires InRange(w, n)
    ensures |s| == w.Bytes()
  {
    ToBigEndian(n, w.Bytes())
  }

  /** `read_exact` of the width followed by `from_be_bytes`. */
  function DecodeUInt(w: UIntWidth, data: seq<byte>, pos: nat, limit: nat): (d: Decoded<nat>)
    requires pos <= limit <= |data|
    ensures d.result.Ok? ==> InRange(w, d.result.value)
  {
    var raw := ReadExact(data, pos, limit, w.Bytes());
    match raw.result
    case Ok(bytes) => Decoded(Ok(FromBigEndian(bytes)), raw.next)
    case Err(e) => Decoded(Err(e), raw.next)
  }

  /** Serialize: writes `to_be_bytes` of n and returns how many bytes. */
  method SerializeUInt(w: UIntWidth, n: nat, writer: Writer) returns (written: nat)
    requires InRange(w, n)
    modifies writer
    ensures writer.buf == old(writer.buf) + EncodeUInt(w, n)
    ensures written == w.Bytes()
  {
    var bytes := EncodeUInt(w, n);
    writer.Write(bytes);
    written := |bytes|;
  }

  /** Deserialize: fills a zeroed buffer of the width with `read_exact` and
      rebuilds the value with `from_be_bytes`. */
  method DeserializeUInt(w: UIntWidth, r: Reader) returns (res: Result<nat>)
    requires r.Valid()
    modifies r
    ensures r.Valid() && r.limit == old(r.limit)
    ensures Decoded(res, r.pos) == DecodeUInt(w, r.data, old(r.pos), r.limit)
  {
    var x := new byte[w.Bytes()](_ => 0);
    var read := r.ReadExactInto(x);
    if read.Err? {
      return Err(read.error);
    }
    res := Ok(FromBigEndian(x[..]));
  }

  /** Decoding an encoding gives the value back and consumes exactly its
      width, whatever follows it. */
  lemma UIntRoundTrip(w: UIntWidth, n: nat, data: seq<byte>, pos: nat, limit: nat)
    requires InRange(w, n)
    requires pos + w.Bytes() <= limit <= |data|
    requires data[pos..pos + w.Bytes()] == EncodeUInt(w, n)
    ensures DecodeUInt(w, data, pos, limit) == Decoded(Ok(n), pos + w.Bytes())
  {
    FromToBigEndian(n, w.Bytes());
  }

  /** Decoding then encoding gives back the bytes that were read. */
  lemma UIntReencode(w: UIntWidth, data: seq<byte>, pos: nat, limit: nat)
    requires pos <= limit <= |data|
    requires DecodeUInt(w, data, pos, limit).result.Ok?
    ensures var d := DecodeUInt(w, data, pos, limit);
            d.next == pos + w.Bytes() &&
            EncodeUInt(w, d.result.value) == data[pos..d.next]
  {
    ToFromBigEndian(data[pos..pos + w.Bytes()]);
  }

  /** With fewer bytes left than the width, decoding fails with
      `EndOfStream` and drains the readable window. */
  lemma UIntShortInput(w: UIntWidth, data: seq<byte>, pos: nat, limit: nat)
    requires pos <= limit <= |data|
    requires limit - pos < w.Bytes()
    ensures DecodeUInt(w, data, pos, limit) == Decoded(Err(EndOfStream), limit)
  {
  }

  /** Consecutive decodes advance the cursor: 77, 88 and 355 are read from
      [77, 88, 1, 99] as u8, u8 and u16, and a further u8 read fails. */
  lemma ConsecutiveReads()
    ensures var data: seq<byte> := [77, 88, 1, 99];
            && DecodeUInt(U8, data, 0, 4) == Decoded(Ok(77), 1)
            && DecodeUInt(U8, data, 1, 4) == Decoded(Ok(88), 2)
            && DecodeUInt(U16, data, 2, 4) == Decoded(Ok(355), 4)
            && DecodeUInt(U8, data, 4, 4).result == Err(EndOfStream)
  {
    var data: seq<byte> := [77, 88, 1, 99];
    assert FromBigEndian([77]) == 77 by {
      assert [77][..0] == [];
    }
    assert FromBigEndian([88]) == 88 by {
      assert [88][..0] == [];
    }
    assert FromBigEndian([1, 99]) == 355 by {
      assert [1, 99][..1] == [1];
      assert [1][..0] == [];
    }
    assert data[0..1] == [77];
    assert data[1..2] == [88];
    assert data[2..4] == [1, 99];
  }
}
