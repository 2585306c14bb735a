/** Little-endian integers, as `struct.unpack` reads the 'h', 'i' and 'q'
    formats on a little-endian host. The encoders are the `struct.pack`
    side and serve as the inverse the decoders are proved against. */
module LittleEndian {
  import opened Common

  function Pow256(n: nat): (r: nat)
    ensures r >= 1
  {
    if n == 0 then 1 else 256 * Pow256(n - 1)
  }

  /** The unsigned value of a little-endian byte string. */
  function UIntLE(s: seq<Byte>): nat {
    if |s| == 0 then 0 else s[0] + 256 * UIntLE(s[1..])
  }

  /** An n-byte string holds an unsigned value below 256^n. */
  lemma {:induction false} UIntLEBound(s: seq<Byte>)
    ensures UIntLE(s) < Pow256(|s|)
  {
    if |s| > 0 {
      UIntLEBound(s[1..]);
    }
  }

  /** Half the range of an n-byte integer: 2^(8n-1). */
  function Half(n: nat): (h: int)
    requires n > 0
    ensures h > 0 && 2 * h == Pow256(n)
  {
    128 * Pow256(n - 1)
  }

  /** The two's-complement value of a little-endian byte string. */
  function SIntLE(s: seq<Byte>): int
    requires |s| > 0
  {
    var u := UIntLE(s);
    if u >= Half(|s|) then u - Pow256(|s|) else u
  }

  /** An n-byte string holds a signed value in [-2^(8n-1), 2^(8n-1)). */
  lemma SIntLERange(s: seq<Byte>)
    requires |s| > 0
    ensures -Half(|s|) <= SIntLE(s) < Half(|s|)
  {
    UIntLEBound(s);
  }

  /** The n little-endian bytes of an unsigned value. */
  function EncodeLE(x: nat, n: nat): (s: seq<Byte>)
    requires x < Pow256(n)
    ensures |s| == n
  {
    if n == 0 then []
    else [x % 256] + EncodeLE(x / 256, n - 1)
  }

  /** The n little-endian two's-complement bytes of a signed value. */
  function EncodeSLE(x: int, n: nat): (s: seq<Byte>)
    requires n > 0 && -Half(n) <= x < Half(n)
    ensures |s| == n
  {
    EncodeLE(if x < 0 then x + Pow256(n) else x, n)
  }

  lemma {:induction false} DecodeEncode(x: nat, n: nat)
    requires x < Pow256(n)
    ensures UIntLE(EncodeLE(x, n)) == x
  {
    if n > 0 {
      DecodeEncode(x / 256, n - 1);
      assert EncodeLE(x, n)[1..] == EncodeLE(x / 256, n - 1);
    }
  }

  lemma {:induction false} EncodeDecode(s: seq<Byte>)
    ensures UIntLE(s) < Pow256(|s|) && EncodeLE(UIntLE(s), |s|) == s
  {
    UIntLEBound(s);
    if |s| > 0 {
      EncodeDecode(s[1..]);
      assert UIntLE(s) % 256 == s[0] && UIntLE(s) / 256 == UIntLE(s[1..]);
    }
  }

  /** Reading back a packed signed integer gives the integer. */
  lemma SignedDecodeEncode(x: int, n: nat)
    requires n > 0 && -Half(n) <= x < Half(n)
    ensures SIntLE(EncodeSLE(x, n)) == x
  {
    DecodeEncode(if x < 0 then x + Pow256(n) else x, n);
  }

  /** Packing a decoded signed integer gives the bytes back: decoding is
      one-to-one. */
  lemma SignedEncodeDecode(s: seq<Byte>)
    requires |s| > 0
    ensures -Half(|s|) <= SIntLE(s) < Half(|s|) && EncodeSLE(SIntLE(s), |s|) == s
  {
    SIntLERange(s);
    EncodeDecode(s);
    var u := UIntLE(s);
    assert (if SIntLE(s) < 0 then SIntLE(s) + Pow256(|s|) else SIntLE(s)) == u;
  }
}
