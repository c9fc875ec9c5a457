/**
 `from_le_bytes` for Rust's fixed-width integers: a byte array whose first
 byte is the least significant. The typed arm of `get_from_stream!` sizes its
 byte array with `size_of::<T>()` and decodes it this way; here the type is an
 explicit `IntType` argument.
 */
module LittleEndian {
  import opened Io

  /** 256 to the power `n`, the number of values `n` bytes can hold. */
  function Pow256(n: nat): (r: nat)
    ensures r >= 1
  {
    if n == 0 then 1 else 256 * Pow256(n - 1)
  }

  /** Unsigned `from_le_bytes`: `b[0]` is worth 1, `b[1]` 256, and so on. */
  function FromLeBytes(b: seq<Byte>): (r: nat)
    ensures r < Pow256(|b|)
  {
    if |b| == 0 then 0 else b[0] + 256 * FromLeBytes(b[1..])
  }

  /** The reference definition: the sum over `i < |b|` of `b[i] * 256^i`,
      accumulated from the most significant byte down. */
  function WeightedSum(b: seq<Byte>): nat
  {
    if |b| == 0 then 0
    else WeightedSum(b[..|b| - 1]) + b[|b| - 1] * Pow256(|b| - 1)
  }

  /** Unsigned `to_le_bytes` on `w` bytes, the inverse of `FromLeBytes`. */
  function ToLeBytes(v: nat, w: nat): (r: seq<Byte>)
    requires v < Pow256(w)
    ensures |r| == w
  {
    if w == 0 then [] else [v % 256] + ToLeBytes(v / 256, w - 1)
  }

  /** Appending a byte on the most significant side adds its weight. */
  lemma {:induction false} FromLeBytesSnoc(b: seq<Byte>, x: Byte)
    ensures FromLeBytes(b + [x]) == FromLeBytes(b) + x * Pow256(|b|)
    decreases |b|
  {
    if |b| > 0 {
      assert (b + [x])[1..] == b[1..] + [x];
      FromLeBytesSnoc(b[1..], x);
      var p := Pow256(|b| - 1);
      var a := FromLeBytes(b[1..]);
      assert FromLeBytes(b + [x]) == b[0] + 256 * (a + x * p);
      assert FromLeBytes(b) == b[0] + 256 * a;
      assert Pow256(|b|) == 256 * p;
      ShiftWeight(a, x, p);
    }
  }

  /** Distributing the weight 256 of one byte position. */
  lemma ShiftWeight(a: int, x: int, p: int)
    ensures 256 * (a + x * p) == 256 * a + x * (256 * p)
  {
  }

  /** `from_le_bytes` agrees with the weighted sum of the bytes. */
  lemma {:induction false} FromLeBytesIsWeightedSum(b: seq<Byte>)
    ensures FromLeBytes(b) == WeightedSum(b)
    decreases |b|
  {
    if |b| > 0 {
      var init := b[..|b| - 1];
      assert b == init + [b[|b| - 1]];
      FromLeBytesIsWeightedSum(init);
      FromLeBytesSnoc(init, b[|b| - 1]);
    }
  }

  /** Decoding what was encoded gives the value back. */
  lemma {:induction false} DecodeEncodeUnsigned(v: nat, w: nat)
    requires v < Pow256(w)
    ensures FromLeBytes(ToLeBytes(v, w)) == v
    decreases w
  {
    if w > 0 {
      var r := ToLeBytes(v, w);
      assert r[1..] == ToLeBytes(v / 256, w - 1);
      DecodeEncodeUnsigned(v / 256, w - 1);
    }
  }

  /** Encoding what was decoded gives the bytes back: every byte sequence is
      the encoding of exactly one value. */
  lemma {:induction false} EncodeDecodeUnsigned(b: seq<Byte>)
    ensures ToLeBytes(FromLeBytes(b), |b|) == b
    decreases |b|
  {
    if |b| > 0 {
      var u := FromLeBytes(b);
      assert u % 256 == b[0] && u / 256 == FromLeBytes(b[1..]);
      EncodeDecodeUnsigned(b[1..]);
      assert b == [b[0]] + b[1..];
    }
  }

  /** Half of `Pow256(w)`: `2^(8w - 1)`, the weight of the sign bit. */
  function HalfRange(w: nat): (r: int)
    requires w >= 1
    ensures 2 * r == Pow256(w)
  {
    128 * Pow256(w - 1)
  }

  /** Signed (two's complement) `from_le_bytes`. */
  function FromLeBytesSigned(b: seq<Byte>): (r: int)
    requires |b| >= 1
    ensures -HalfRange(|b|) <= r < HalfRange(|b|)
    ensures r == FromLeBytes(b) || r == FromLeBytes(b) - Pow256(|b|)
  {
    var u := FromLeBytes(b);
    if u < HalfRange(|b|) then u else u - Pow256(|b|)
  }

  /** Signed `to_le_bytes`: a negative value is stored as `v + 2^(8w)`. */
  function ToLeBytesSigned(v: int, w: nat): (r: seq<Byte>)
    requires w >= 1
    requires -HalfRange(w) <= v < HalfRange(w)
    ensures |r| == w
  {
    ToLeBytes(if v >= 0 then v else v + Pow256(w), w)
  }

  /** A signed value is negative exactly when the top bit of its most
      significant (last) byte is set. */
  lemma SignFollowsTopBit(b: seq<Byte>)
    requires |b| >= 1
    ensures FromLeBytesSigned(b) < 0 <==> b[|b| - 1] >= 128
  {
    var w := |b|;
    var init := b[..w - 1];
    var top := b[w - 1];
    assert b == init + [top];
    FromLeBytesSnoc(init, top);
    var p := Pow256(w - 1);
    assert FromLeBytes(b) == FromLeBytes(init) + top * p;
    assert FromLeBytes(init) < p;
    TopByteWeight(top, p);
  }

  /** The weight of the top byte against the sign bit's `128 * p`. */
  lemma TopByteWeight(top: Byte, p: nat)
    ensures top >= 128 ==> top * p >= 128 * p
    ensures top < 128 ==> top * p + p <= 128 * p
  {
    if top >= 128 {
      assert top * p == 128 * p + (top - 128) * p;
    } else {
      assert 128 * p == top * p + (128 - top) * p;
    }
  }

  lemma DecodeEncodeSigned(v: int, w: nat)
    requires w >= 1
    requires -HalfRange(w) <= v < HalfRange(w)
    ensures FromLeBytesSigned(ToLeBytesSigned(v, w)) == v
  {
    DecodeEncodeUnsigned(if v >= 0 then v else v + Pow256(w), w);
  }

  lemma EncodeDecodeSigned(b: seq<Byte>)
    requires |b| >= 1
    ensures ToLeBytesSigned(FromLeBytesSigned(b), |b|) == b
  {
    EncodeDecodeUnsigned(b);
  }

  /** The primitive integer types that have `from_le_bytes`. */
  datatype IntType = U8 | U16 | U32 | U64 | U128 | I8 | I16 | I32 | I64 | I128
  {
    /** `size_of::<T>()`, in bytes. */
    function Size(): (n: nat)
      ensures n >= 1
    {
      match this
      case U8 | I8 => 1
      case U16 | I16 => 2
      case U32 | I32 => 4
      case U64 | I64 => 8
      case U128 | I128 => 16
    }

    predicate Signed()
    {
      I8? || I16? || I32? || I64? || I128?
    }

    /** The values of the type: `0 ..= 2^(8n) - 1` unsigned,
        `-2^(8n-1) ..= 2^(8n-1) - 1` signed. */
    predicate Holds(v: int)
    {
      if Signed() then -HalfRange(Size()) <= v < HalfRange(Size())
      else 0 <= v < Pow256(Size())
    }
  }

  /** `<T>::from_le_bytes(bytes)`. */
  function Decode(t: IntType, b: seq<Byte>): (r: int)
    requires |b| == t.Size()
    ensures t.Holds(r)
    ensures r < 0 <==> t.Signed() && b[|b| - 1] >= 128
  {
    if t.Signed() then
      SignFollowsTopBit(b);
      FromLeBytesSigned(b)
    else FromLeBytes(b)
  }

  /** `v.to_le_bytes()`, the inverse of `Decode`. */
  function Encode(t: IntType, v: int): (r: seq<Byte>)
    requires t.Holds(v)
    ensures |r| == t.Size()
  {
    if t.Signed() then ToLeBytesSigned(v, t.Size()) else ToLeBytes(v, t.Size())
  }

  /** Every value of the type survives encoding and decoding. */
  lemma DecodeEncode(t: IntType, v: int)
    requires t.Holds(v)
    ensures Decode(t, Encode(t, v)) == v
  {
    if t.Signed() {
      DecodeEncodeSigned(v, t.Size());
    } else {
      DecodeEncodeUnsigned(v, t.Size());
    }
  }

  /** Every array of `size_of::<T>()` bytes survives decoding and encoding. */
  lemma EncodeDecode(t: IntType, b: seq<Byte>)
    requires |b| == t.Size()
    ensures Encode(t, Decode(t, b)) == b
  {
    if t.Signed() {
      EncodeDecodeSigned(b);
    } else {
      EncodeDecodeUnsigned(b);
    }
  }

  /** `u32::from_le_bytes([1, 0, 0, 0]) == 1`,
      `i32::from_le_bytes([0xff, 0xff, 0xff, 0xff]) == -1` and
      `u16::from_le_bytes([0x34, 0x12]) == 0x1234`. */
  lemma DecodeExamples()
    ensures Decode(U32, [1, 0, 0, 0]) == 1
    ensures Decode(I32, [0xff, 0xff, 0xff, 0xff]) == -1
    ensures Decode(U16, [0x34, 0x12]) == 0x1234
  {
  }
}
