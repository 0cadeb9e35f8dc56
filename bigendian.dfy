/** Bytes and the big-endian (network order) representation of unsigned
    integers, the `to_be_bytes` / `from_be_bytes` pair the integer codecs use. */
module BigEndian {

  type byte = b: int | 0 <= b < 256

  /** 256^n: the number of values an n-byte unsigned integer can hold. */
  function Pow256(n: nat): (r: nat)
    ensures r >= 1
  {
    if n == 0 then 1 else 256 * Pow256(n - 1)
  }

  /** The n-byte big-endian representation of x, most significant byte first. */
  function ToBigEndian(x: nat, n: nat): (s: seq<byte>)
    requires x < Pow256(n)
    ensures |s| == n
  {
    if n == 0 then [] else ToBigEndian(x / 256, n - 1) + [x % 256]
  }

  /** The unsigned integer whose big-endian representation is s. */
  function FromBigEndian(s: seq<byte>): (x: nat)
    ensures x < Pow256(|s|)
  {
    if s == [] then 0 else FromBigEndian(s[..|s| - 1]) * 256 + s[|s| - 1]
  }

  /** Reading back a written integer gives the integer. */
  lemma {:induction false} FromToBigEndian(x: nat, n: nat)
    requires x < Pow256(n)
    ensures FromBigEndian(ToBigEndian(x, n)) == x
  {
    if n > 0 {
      var s := ToBigEndian(x, n);
      assert s[..n - 1] == ToBigEndian(x / 256, n - 1);
      FromToBigEndian(x / 256, n - 1);
    }
  }

  /** Splitting a + 256 * q into its last byte and the rest. */
  lemma DivModByte(q: nat, b: byte)
    ensures (q * 256 + b) / 256 == q && (q * 256 + b) % 256 == b
  {
  }

  /** Writing back a read integer gives the bytes it was read from. */
  lemma {:induction false} ToFromBigEndian(s: seq<byte>)
    ensures ToBigEndian(FromBigEndian(s), |s|) == s
  {
    if s != [] {
      var n := |s|;
      var init := s[..n - 1];
      var x := FromBigEndian(s);
      assert x == FromBigEndian(init) * 256 + s[n - 1];
      DivModByte(FromBigEndian(init), s[n - 1]);
      ToFromBigEndian(init);
      assert ToBigEndian(x, n) == ToBigEndian(FromBigEndian(init), n - 1) + [s[n - 1]];
      assert s == init + [s[n - 1]];
    }
  }
}
