/** The codec of the fixed-size byte arrays `[u8; N]`: the N bytes verbatim,
    no length field (tls_codec/src/arrays.rs). */
module Arrays {
  import opened Errors
  import opened BigEndian
  import opened Streams

  /** The array lengths the codec is instantiated for. */
  datatype ArrayLen = N2 | N4 | N8 | N16 | N32 | N64 {

    /** N, which is also `serialized_len` of every array of the type. */
    function Count(): (n: nat)
      ensures n in {2, 4, 8, 16, 32, 64}
    {
      match this
      case N2 => 2
      case N4 => 4
      case N8 => 8
      case N16 => 16
      case N32 => 32
      case N64 => 64
    }
  }

  /** Deserialize as a function: `read_exact` of exactly N bytes. */
  function DecodeArray(n: ArrayLen, data: seq<byte>, pos: nat, limit: nat): (d: Decoded<seq<byte>>)
    requires pos <= limit <= |data|
    ensures d.result.Ok? ==> |d.result.value| == n.Count()
  {
    ReadExact(data, pos, limit, n.Count())
  }

  /** Serialize: `extend_from_slice` appends the array's bytes verbatim. */
  method SerializeArray(a: seq<byte>, buffer: Writer)
    modifies buffer
    ensures buffer.buf == old(buffer.buf) + a
  {
    buffer.Write(a);
  }

  /** Deserialize: fills a zeroed `[0u8; N]` with `read_exact`. */
  method DeserializeArray(n: ArrayLen, r: Reader) returns (res: Result<seq<byte>>)
    requires r.Valid()
    modifies r
    ensures r.Valid() && r.limit == old(r.limit)
    ensures Decoded(res, r.pos) == DecodeArray(n, r.data, old(r.pos), r.limit)
  {
    var out := new byte[n.Count()](_ => 0);
    var read := r.ReadExactInto(out);
    if read.Err? {
      return Err(read.error);
    }
    res := Ok(out[..]);
  }

  /** Deserializing the bytes Serialize wrote gives the same array and
      consumes exactly N bytes; with fewer than N bytes left the result is
      `EndOfStream`. */
  lemma ArrayRoundTrip(n: ArrayLen, a: seq<byte>, data: seq<byte>, pos: nat, limit: nat)
    requires |a| == n.Count()
    requires pos <= limit <= |data|
    requires pos + n.Count() <= limit ==> data[pos..pos + n.Count()] == a
    ensures pos + n.Count() <= limit ==> DecodeArray(n, data, pos, limit) == Decoded(Ok(a), pos + n.Count())
    ensures pos + n.Count() > limit ==> DecodeArray(n, data, pos, limit) == Decoded(Err(EndOfStream), limit)
  {
  }

  /** [0, 1, 2, 3] as a `[u8; 4]` is written as [0, 1, 2, 3] and read back. */
  method ByteArrayExample()
  {
    var w := new Writer.WithCapacity(4);
    SerializeArray([0, 1, 2, 3], w);
    assert w.buf == [0, 1, 2, 3];
    var r := new Reader(w.buf);
    assert r.data[0..4] == [0, 1, 2, 3];
    var y := DeserializeArray(N4, r);
    assert y == Ok([0, 1, 2, 3]);
  }
}
