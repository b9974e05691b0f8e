/**
 * Fixed-width little-endian integers over bytes. The persisted file stores
 * every integer in the host's native layout; this model fixes that layout to
 * little-endian with two's complement for signed values.
 */
module LittleEndian {

  newtype Byte = b: int | 0 <= b < 256

  /** 256^n, the number of values that n bytes can hold. */
  function Pow256(n: nat): (r: nat)
    ensures r >= 1
  {
    if n == 0 then 1 else 256 * Pow256(n - 1)
  }

  /** The n-byte little-endian encoding of an unsigned value. */
  function EncodeUnsigned(x: nat, n: nat): (r: seq<Byte>)
    requires x < Pow256(n)
    ensures |r| == n
  {
    if n == 0 then []
    else
      assert x / 256 < Pow256(n - 1) by {
        assert x < 256 * Pow256(n - 1);
      }
      [(x % 256) as Byte] + EncodeUnsigned(x / 256, n - 1)
  }

  /** The unsigned value that a little-endian byte string denotes. */
  function DecodeUnsigned(b: seq<Byte>): (r: nat)
    ensures r < Pow256(|b|)
  {
    if b == [] then 0 else b[0] as nat + 256 * DecodeUnsigned(b[1..])
  }

  lemma {:induction false} DecodeEncodeUnsigned(x: nat, n: nat)
    requires x < Pow256(n)
    ensures DecodeUnsigned(EncodeUnsigned(x, n)) == x
  {
    if n > 0 {
      assert x / 256 < Pow256(n - 1) by {
        assert x < 256 * Pow256(n - 1);
      }
      var e := EncodeUnsigned(x, n);
      assert e[1..] == EncodeUnsigned(x / 256, n - 1);
      DecodeEncodeUnsigned(x / 256, n - 1);
    }
  }

  lemma {:induction false} EncodeDecodeUnsigned(b: seq<Byte>)
    ensures EncodeUnsigned(DecodeUnsigned(b), |b|) == b
  {
    if b != [] {
      var x := DecodeUnsigned(b);
      var y := DecodeUnsigned(b[1..]);
      assert x == b[0] as nat + 256 * y;
      assert x % 256 == b[0] as nat && x / 256 == y;
      EncodeDecodeUnsigned(b[1..]);
    }
  }

  /** True when x fits an n-byte two's complement integer. */
  predicate InSignedRange(x: int, n: nat)
  {
    -(Pow256(n) / 2) <= x < Pow256(n) / 2
  }

  /** For at least one byte, 256^n splits into two equal halves. */
  lemma Pow256Halves(n: nat)
    requires n > 0
    ensures Pow256(n) == 2 * (Pow256(n) / 2)
  {
    assert Pow256(n) == 2 * (128 * Pow256(n - 1));
  }

  /** The n-byte two's complement encoding of a signed value. */
  function EncodeSigned(x: int, n: nat): (r: seq<Byte>)
    requires InSignedRange(x, n)
    ensures |r| == n
  {
    EncodeUnsigned(if x < 0 then x + Pow256(n) else x, n)
  }

  /** The signed value that an n-byte two's complement string denotes. */
  function DecodeSigned(b: seq<Byte>): (r: int)
    ensures b != [] ==> InSignedRange(r, |b|)
  {
    var u := DecodeUnsigned(b);
    if b == [] then u
    else
      Pow256Halves(|b|);
      if u >= Pow256(|b|) / 2 then u - Pow256(|b|) else u
  }

  lemma DecodeEncodeSigned(x: int, n: nat)
    requires InSignedRange(x, n)
    ensures DecodeSigned(EncodeSigned(x, n)) == x
  {
    DecodeEncodeUnsigned(if x < 0 then x + Pow256(n) else x, n);
  }
}
