/** The two sides of `std::io` the codecs use: a reader over an in-memory byte
    slice, which a vector decoder can bound with `take`, and a writer that
    appends to a byte vector. */
module Streams {
  import opened Errors
  import opened BigEndian

  function Min(a: nat, b: nat): (m: nat) { if a <= b then a else b }

  /** `read_exact` of n bytes from the readable window `data[pos..limit]`.
      With n bytes available it yields them and moves past them. Otherwise
      the reads it is built from drain the window and it fails with the
      `UnexpectedEof` io error, which the codecs convert to `EndOfStream`. */
  function ReadExact(data: seq<byte>, pos: nat, limit: nat, n: nat): (d: Decoded<seq<byte>>)
    requires pos <= limit <= |data|
    ensures d.result.Ok? <==> pos + n <= limit
    ensures d.result.Ok? ==> d.next == pos + n && d.result.value == data[pos..pos + n]
    ensures d.result.Err? ==> d.next == limit && d.result.error == EndOfStream
  {
    if pos + n <= limit then Decoded(Ok(data[pos..pos + n]), pos + n)
    else Decoded(Err(FromIoError(EofError)), limit)
  }

  /** A cursor over a byte slice. `limit` is where reading stops: the end of
      the slice, or closer when the reader is wrapped by `take`. */
  class Reader {
    const data: seq<byte>
    var pos: nat
    var limit: nat

    ghost predicate Valid()
      reads this
    {
      pos <= limit <= |data|
    }

    /** A reader over the whole slice. */
    constructor (data: seq<byte>)
      ensures Valid() && this.data == data && pos == 0 && limit == |data|
    {
      this.data := data;
      pos := 0;
      limit := |data|;
    }

    /** `read_exact` into a caller's buffer, filled in place. On failure the
        buffer's contents are unspecified, as for the standard library. */
    method ReadExactInto(buf: array<byte>) returns (r: Result<()>)
      requires Valid()
      modifies this, buf
      ensures Valid() && limit == old(limit)
      ensures Decoded(if r.Ok? then Ok(buf[..]) else Err(r.error), pos)
              == ReadExact(data, old(pos), limit, buf.Length)
    {
      if pos + buf.Length <= limit {
        forall i | 0 <= i < buf.Length {
          buf[i] := data[pos + i];
        }
        assert buf[..] == data[pos..pos + buf.Length];
        pos := pos + buf.Length;
        r := Ok(());
      } else {
        pos := limit;
        r := Err(FromIoError(EofError));
      }
    }

    /** `take(n)`: from now on at most n more bytes can be read. Returns the
        limit in force before, for `Restore` when the bounded reader is
        dropped. */
    method Take(n: nat) returns (outer: nat)
      requires Valid()
      modifies this
      ensures Valid() && pos == old(pos)
      ensures outer == old(limit) && limit == Min(old(limit), pos + n)
    {
      outer := limit;
      limit := Min(limit, pos + n);
    }

    /** Dropping the bounded reader: the outer limit is in force again and
        the position keeps what the bounded reader consumed. */
    method Restore(outer: nat)
      requires Valid() && limit <= outer <= |data|
      modifies this
      ensures Valid() && pos == old(pos) && limit == outer
    {
      limit := outer;
    }
  }

  /** The `Vec<u8>` a serializer appends to. */
  class Writer {
    var buf: seq<byte>
    const capacity: nat

    /** `Vec::with_capacity(n)`: empty, with room reserved for n bytes. */
    constructor WithCapacity(n: nat)
      ensures buf == [] && capacity == n
    {
      buf := [];
      capacity := n;
    }

    /** Append bytes at the end; what was written before is kept. */
    method Write(bytes: seq<byte>)
      modifies this
      ensures buf == old(buf) + bytes
    {
      buf := buf + bytes;
    }
  }
}
