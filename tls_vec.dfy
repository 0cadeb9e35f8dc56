/** The vector types `TlsVecU8`, `TlsVecU16`, `TlsVecU32` and their secret
    counterparts `SecretTlsVecU8/U16/U32` (tls_codec/src/tls_vec.rs): a
    growable vector of elements of one type, written on the wire behind a
    1, 2 or 4 byte length field. The secret variants share the wire format
    and add `zeroize`, which `drop` runs. */
module TlsVecs {
  import opened Errors
  import opened BigEndian
  import opened Streams
  import opened Primitives
  import opened Codec
  import opened CodecProperties

  // ---------------------------------------------------------------------
  // retain

  /** The elements of s for which keep holds, in their order in s: what
      `Vec::retain` leaves behind. */
  function Filter(s: seq<Value>, keep: Value -> bool): (kept: seq<Value>)
    decreases s
  {
    if s == [] then []
    else (if keep(s[0]) then [s[0]] else []) + Filter(s[1..], keep)
  }

  /** Everything retained comes from s and satisfies the predicate. */
  lemma {:induction false} FilterKeeps(s: seq<Value>, keep: Value -> bool)
    ensures forall x :: x in Filter(s, keep) ==> x in s && keep(x)
    decreases s
  {
    if s != [] {
      FilterKeeps(s[1..], keep);
    }
  }

  /** Exactly the elements satisfying the predicate are retained, each as
      often as it occurs in s; the others are all removed. */
  lemma {:induction false} FilterCount(s: seq<Value>, keep: Value -> bool)
    ensures forall x :: multiset(Filter(s, keep))[x] == if keep(x) then multiset(s)[x] else 0
    decreases s
  {
    if s != [] {
      FilterCount(s[1..], keep);
      assert s == [s[0]] + s[1..];
    }
  }

  /** Retaining from two runs one after the other retains from each run in
      turn: the retained elements keep their original order. */
  lemma {:induction false} FilterConcat(s: seq<Value>, t: seq<Value>, keep: Value -> bool)
    ensures Filter(s + t, keep) == Filter(s, keep) + Filter(t, keep)
    decreases s
  {
    if s == [] {
      assert s + t == t;
    } else {
      var head := if keep(s[0]) then [s[0]] else [];
      assert (s + t)[0] == s[0];
      assert (s + t)[1..] == s[1..] + t;
      assert Filter(s + t, keep) == head + Filter(s[1..] + t, keep);
      FilterConcat(s[1..], t, keep);
      assert head + (Filter(s[1..], keep) + Filter(t, keep)) == (head + Filter(s[1..], keep)) + Filter(t, keep);
    }
  }

  /** Retaining twice with the same predicate is retaining once. */
  lemma {:induction false} FilterIdempotent(s: seq<Value>, keep: Value -> bool)
    ensures Filter(Filter(s, keep), keep) == Filter(s, keep)
    decreases s
  {
    if s != [] {
      var head := if keep(s[0]) then [s[0]] else [];
      FilterConcat(head, Filter(s[1..], keep), keep);
      FilterIdempotent(s[1..], keep);
      if keep(s[0]) {
        assert head[1..] == [];
      }
    }
  }

  // ---------------------------------------------------------------------
  // zeroize

  /** v holds zeros only: integers are 0, byte arrays all-zero bytes, an
      option is `None` and a vector is empty. */
  predicate IsZero(v: Value)
  {
    match v
    case UInt(_, n) => n == 0
    case Bytes(b) => forall i :: 0 <= i < |b| ==> b[i] == 0
    case Opt(o) => o.None?
    case Vec(_, es) => es == []
  }

  /** What `zeroize` leaves in the place of v: integers and the bytes of an
      array are overwritten by zero, an option's payload is zeroized and
      taken, leaving `None`, and a vector's elements are zeroized and then
      cleared, leaving it empty. */
  function Zero(v: Value): (z: Value)
    ensures IsZero(z)
    ensures v.UInt? ==> z == UInt(v.w, 0)
    ensures v.Bytes? ==> z.Bytes? && |z.bytes| == |v.bytes|
    ensures v.Opt? ==> z == Opt(None)
    ensures v.Vec? ==> z == Vec(v.lw, [])
  {
    match v
    case UInt(w, _) => UInt(w, 0)
    case Bytes(b) => Bytes(seq(|b|, _ => 0))
    case Opt(_) => Opt(None)
    case Vec(lw, _) => Vec(lw, [])
  }

  /** Zeroing keeps the type of a value: a zeroed element still belongs in
      its vector. */
  lemma ZeroKeepsKind(v: Value, k: Kind)
    requires HasKind(v, k)
    ensures HasKind(Zero(v), k)
  {
  }

  /** Zeroing a zeroed value changes nothing more: zeroize is idempotent. */
  lemma ZeroOfZero(v: Value)
    requires IsZero(v)
    ensures Zero(v) == v
  {
    if v.Bytes? {
      assert Zero(v).bytes == v.bytes;
    }
  }

  /** The slots s with the first n overwritten by their zeroed values:
      what zeroize leaves in the allocation of a vector of length n. */
  function Wiped(s: seq<Value>, n: nat): (w: seq<Value>)
    requires n <= |s|
    ensures |w| == |s|
    ensures forall i :: 0 <= i < n ==> w[i] == Zero(s[i]) && IsZero(w[i])
    ensures forall i :: n <= i < |w| ==> w[i] == s[i]
  {
    seq(|s|, i requires 0 <= i < |s| => if i < n then Zero(s[i]) else s[i])
  }

  /** Wiping slots that are already wiped changes nothing. */
  lemma WipedTwice(s: seq<Value>, n: nat)
    requires n <= |s|
    ensures Wiped(Wiped(s, n), n) == Wiped(s, n)
  {
  }

  // ---------------------------------------------------------------------
  // The vector

  /** The slots of s from index n on; none when n is past its end. */
  function SlotsFrom(s: seq<Value>, n: nat): (t: seq<Value>)
    ensures |t| == if n <= |s| then |s| - n else 0
    ensures forall i :: 0 <= i < |t| ==> t[i] == s[n + i]
  {
    if n <= |s| then s[n..] else []
  }

  /** One of the six vector types. `lw` is the length field's type (which
      of U8, U16 and U32), `elem` the element type `T` and `secret` tells
      the `Secret` variants apart; `vec` is the wrapped `Vec<T>`. `slots`
      is what the `Vec`'s allocation holds: the elements, then whatever
      elements removed earlier left behind past the length. */
  class TlsVec {
    const lw: LenWidth
    const elem: Kind
    const secret: bool
    var vec: seq<Value>
    var slots: seq<Value>

    /** Every element is of the element type, as `Vec<T>` guarantees, and
        the elements occupy the first slots of the allocation. */
    ghost predicate Valid()
      reads this
    {
      && vec <= slots
      && forall i :: 0 <= i < |vec| ==> HasKind(vec[i], elem)
    }

    /** `new`: wraps the given vector. */
    constructor New(lw: LenWidth, elem: Kind, secret: bool, vec: seq<Value>)
      requires forall i :: 0 <= i < |vec| ==> HasKind(vec[i], elem)
      ensures Valid()
      ensures this.lw == lw && this.elem == elem && this.secret == secret && this.vec == vec
      ensures slots == vec
    {
      this.lw := lw;
      this.elem := elem;
      this.secret := secret;
      this.vec := vec;
      slots := vec;
    }

    /** `from_slice`: wraps a copy of the slice's elements. */
    constructor FromSlice(lw: LenWidth, elem: Kind, secret: bool, slice: seq<Value>)
      requires forall i :: 0 <= i < |slice| ==> HasKind(slice[i], elem)
      ensures Valid()
      ensures this.lw == lw && this.elem == elem && this.secret == secret && vec == slice
      ensures slots == slice
    {
      this.lw := lw;
      this.elem := elem;
      this.secret := secret;
      vec := slice;
      slots := slice;
    }

    /** `default`: an empty vector without an allocation. */
    constructor Default(lw: LenWidth, elem: Kind, secret: bool)
      ensures Valid()
      ensures this.lw == lw && this.elem == elem && this.secret == secret && vec == [] && slots == []
    {
      this.lw := lw;
      this.elem := elem;
      this.secret := secret;
      vec := [];
      slots := [];
    }

    /** `len`: the number of elements. */
    function Len(): (n: nat)
      reads this
      ensures n == |vec|
    {
      |vec|
    }

    /** `is_empty`: there are no elements. */
    function IsEmpty(): (b: bool)
      reads this
      ensures b <==> Len() == 0
    {
      vec == []
    }

    /** `get`: the element at index i, or `None` past the end. */
    function Get(i: nat): (r: Option<Value>)
      reads this
      ensures r.Some? <==> i < Len()
      ensures r.Some? ==> r.value == vec[i]
    {
      if i < |vec| then Some(vec[i]) else None
    }

    /** `len_len`: 1, 2 or 4 bytes of length field for the U8, U16 and U32
        variants, enough to write every count up to the field's `MAX`. */
    function LenLen(): (n: nat)
      ensures n in {1, 2, 4}
      ensures n == 1 <==> lw == L8
      ensures lw.Max() == Pow256(n) - 1
    {
      lw.LenLen()
    }

    /** `push`: appends one element, written to the slot after the last
        one; nothing else changes. */
    method Push(value: Value)
      requires Valid() && HasKind(value, elem)
      modifies this
      ensures Valid()
      ensures vec == old(vec) + [value]
      ensures slots == vec + SlotsFrom(old(slots), |vec|)
      ensures Len() == old(Len()) + 1 && Get(old(Len())) == Some(value)
    {
      vec := vec + [value];
      slots := vec + SlotsFrom(slots, |vec|);
    }

    /** `pop`: removes and returns the last element, or returns `None` and
        changes nothing when there is none. The element is moved out, so
        its slot still holds it. */
    method Pop() returns (r: Option<Value>)
      requires Valid()
      modifies this
      ensures Valid()
      ensures (r, vec) == Popped(old(vec))
      ensures slots == old(slots)
    {
      if vec == [] {
        r := None;
      } else {
        r := Some(vec[|vec| - 1]);
        vec := vec[..|vec| - 1];
      }
    }

    /** `retain`: keeps exactly the elements the predicate accepts, in
        their original order (see `Filter` and its lemmas). */
    method Retain(keep: Value -> bool)
      requires Valid()
      modifies this
      ensures Valid()
      ensures vec == Filter(old(vec), keep)
      ensures slots == vec + SlotsFrom(old(slots), |vec|)
    {
      var kept := Filter(vec, keep);
      FilterKeeps(vec, keep);
      forall i | 0 <= i < |kept| ensures HasKind(kept[i], elem) {
        assert kept[i] in kept;
        var j :| 0 <= j < |vec| && vec[j] == kept[i];
      }
      vec := kept;
      slots := kept + SlotsFrom(slots, |kept|);
    }

    /** `into_vec`: hands out the elements with their allocation, leaving
        an empty vector without one behind (`mem::take`), so that a secret
        vector's `drop` then zeroizes nothing. */
    method IntoVec() returns (v: seq<Value>)
      requires Valid()
      modifies this
      ensures Valid()
      ensures v == old(vec) && vec == [] && slots == []
    {
      v := vec;
      vec := [];
      slots := [];
    }

    /** `zeroize` of a secret vector: each element in turn is overwritten
        in its slot by its zeroed value, then the vector is cleared. The
        slots past the old length are left as they were. */
    method Zeroize()
      requires Valid() && secret
      modifies this
      ensures Valid()
      ensures vec == []
      ensures slots == Wiped(old(slots), |old(vec)|)
    {
      var i := 0;
      while i < |vec|
        invariant 0 <= i <= |vec| == |old(vec)|
        invariant |slots| == |old(slots)|
        invariant Valid()
        invariant forall j :: 0 <= j < i ==> vec[j] == Zero(old(vec)[j])
        invariant forall j :: i <= j < |slots| ==> slots[j] == old(slots)[j]
      {
        ZeroKeepsKind(vec[i], elem);
        var z := Zero(vec[i]);
        vec := vec[i := z];
        slots := slots[i := z];
        i := i + 1;
      }
      vec := [];
      assert slots == Wiped(old(slots), |old(vec)|);
    }

    /** `drop` of a secret vector: zeroizes it, so every element's slot
        holds zeros before the vector is emptied. */
    method Drop()
      requires Valid() && secret
      modifies this
      ensures vec == []
      ensures slots == Wiped(old(slots), |old(vec)|)
    {
      Zeroize();
    }

    /** `serialized_len`: the length field's `len_len` plus the elements'
        sizes, which is exactly how many bytes a successful serialization
        writes. */
    function SerializedLen(): (n: nat)
      reads this
      requires Valid()
      ensures n == LenLen() + ElemsSize(vec)
      ensures WellFormed(Vec(lw, vec))
      ensures Encode(Vec(lw, vec)).Ok? ==> n == |Encode(Vec(lw, vec)).value|
    {
      EncodedVecLength(lw, vec, elem);
      Size(Vec(lw, vec))
    }

    /** `tls_serialize`: writes the vector to the buffer as `Encode` says,
        or fails with `InvalidVectorLength` having written nothing when
        there are more elements than the length field's `MAX`. */
    method Serialize(w: Writer) returns (r: Result<nat>)
      requires Valid()
      modifies w
      ensures WellFormed(Vec(lw, vec))
      ensures r.Ok? <==> Encode(Vec(lw, vec)).Ok?
      ensures r.Ok? ==> w.buf == old(w.buf) + Encode(Vec(lw, vec)).value && r.value == SerializedLen()
      ensures r.Err? ==> r.error == InvalidVectorLength && old(w.buf) <= w.buf
      ensures |vec| > lw.Max() ==> r == Err(InvalidVectorLength) && w.buf == old(w.buf)
    {
      AllWellFormed(vec, elem);
      r := SerializeVec(lw, vec, w);
    }

    /** `tls_deserialize`: a new vector of the given type holding what
        `Decode` reads at the reader's position; the reader advances as
        `Decode` says. */
    static method Deserialize(lw: LenWidth, elem: Kind, secret: bool, r: Reader) returns (res: Result<TlsVec>)
      requires r.Valid()
      modifies r
      ensures r.Valid() && r.limit == old(r.limit)
      ensures var d := Decode(KVec(lw, elem), r.data, old(r.pos), r.limit);
              r.pos == d.next &&
              (res.Ok? <==> d.result.Ok?) &&
              (res.Err? ==> res.error == d.result.error) &&
              (res.Ok? ==> fresh(res.value) && res.value.Valid() &&
                           res.value.lw == lw && res.value.elem == elem && res.value.secret == secret &&
                           Vec(lw, res.value.vec) == d.result.value)
    {
      DecodeHasKind(KVec(lw, elem), r.data, r.pos, r.limit);
      var v := DeserializeVec(lw, elem, r);
      if v.Err? {
        return Err(v.error);
      }
      var t := new TlsVec.New(lw, elem, secret, v.value.elems);
      res := Ok(t);
    }
  }

  /** The outcome of `pop` on s: the last element and the rest, or `None`
      and s unchanged when s is empty. */
  function Popped(s: seq<Value>): (r: (Option<Value>, seq<Value>))
    ensures s == [] <==> r.0 == None
    ensures s == [] ==> r.1 == []
    ensures r.0.Some? ==> r.1 + [r.0.value] == s
  {
    if s == [] then (None, []) else (Some(s[|s| - 1]), s[..|s| - 1])
  }

  /** `pop` after `push` gives back the pushed element and the vector as it
      was before. */
  lemma PopAfterPush(s: seq<Value>, x: Value)
    ensures Popped(s + [x]) == (Some(x), s)
  {
    assert (s + [x])[..|s|] == s;
  }

  /** A vector's elements are well-formed when they have the element type. */
  lemma AllWellFormed(es: seq<Value>, k: Kind)
    requires forall i :: 0 <= i < |es| ==> HasKind(es[i], k)
    ensures forall i :: 0 <= i < |es| ==> WellFormed(es[i])
  {
    forall i | 0 <= i < |es| ensures WellFormed(es[i]) {
      KindedIsWellFormed(es[i], k);
    }
  }

  /** A vector of elements of type k encodes to `len_len` plus the
      elements' sizes, when it encodes. */
  lemma EncodedVecLength(lw: LenWidth, es: seq<Value>, k: Kind)
    requires forall i :: 0 <= i < |es| ==> HasKind(es[i], k)
    ensures WellFormed(Vec(lw, es))
    ensures Encode(Vec(lw, es)).Ok? ==> |Encode(Vec(lw, es)).value| == lw.LenLen() + ElemsSize(es)
  {
    AllWellFormed(es, k);
    if Encode(Vec(lw, es)).Ok? {
      EncodeLength(ElementCount, Vec(lw, es));
    }
  }

  /** Every element takes at least one byte on the wire, so the element
      count the length field holds never exceeds the number of bytes that
      follow it, and the two agree only when every element is one byte
      long. */
  lemma {:induction false} CountAtMostBytes(es: seq<Value>, k: Kind)
    requires forall i :: 0 <= i < |es| ==> HasKind(es[i], k)
    ensures |es| <= ElemsSize(es)
    ensures |es| == ElemsSize(es) <==> forall i :: 0 <= i < |es| ==> Size(es[i]) == 1
    decreases es
  {
    if es != [] {
      CountAtMostBytes(es[1..], k);
      SizePositive(es[0], k);
      if forall i :: 0 <= i < |es[1..]| ==> Size(es[1..][i]) == 1 {
        if Size(es[0]) == 1 {
          forall i | 0 <= i < |es| ensures Size(es[i]) == 1 {
            if i > 0 {
              assert es[i] == es[1..][i - 1];
            }
          }
        }
      } else {
        var j :| 0 <= j < |es[1..]| && Size(es[1..][j]) != 1;
        assert es[j + 1] == es[1..][j];
      }
    }
  }

  /** No value of a serializable type is empty on the wire: an array
      `[u8; N]` has N >= 2 bytes, every other value at least one tag or
      length byte. */
  lemma SizePositive(v: Value, k: Kind)
    requires HasKind(v, k)
    ensures Size(v) >= 1
  {
  }

  /** Creating a vector from a Rust vector and taking it apart with
      `into_vec` gives back the same elements. */
  method NewThenIntoVec(lw: LenWidth, elem: Kind, secret: bool, elems: seq<Value>) returns (out: seq<Value>)
    requires forall i :: 0 <= i < |elems| ==> HasKind(elems[i], elem)
    ensures out == elems
  {
    var t := new TlsVec.New(lw, elem, secret, elems);
    out := t.IntoVec();
  }

  /** `TlsVecU32::from_slice(&[1, 2, 3, 4, 5])` serializes into a fresh
      buffer as [0, 0, 0, 5, 1, 2, 3, 4, 5], nine bytes. */
  method FromSliceSerializeExample() returns (r: Result<nat>, bytes: seq<byte>)
    ensures r == Ok(9) && bytes == [0, 0, 0, 5, 1, 2, 3, 4, 5]
  {
    var t := new TlsVec.FromSlice(L32, KUInt(U8), false, U8s([1, 2, 3, 4, 5]));
    var w := new Writer.WithCapacity(t.SerializedLen());
    r := t.Serialize(w);
    VecU32Example();
    bytes := w.buf;
  }
}
