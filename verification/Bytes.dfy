/**
 * Byte strings, fixed-width arithmetic and the big-endian length header that
 * every hybrid buffer starts with.
 */
module Bytes {

  newtype byte = i: int | 0 <= i < 256

  type Bytes = seq<byte>

  datatype Option<+T> = None | Some(value: T)

  const TWO_TO_THE_32 := 0x1_0000_0000
  const TWO_TO_THE_64 := 0x1_0000_0000_0000_0000

  /** Conversion of a non-negative C value to `uint32_t`. */
  function Wrap32(n: int): nat {
    n % TWO_TO_THE_32
  }

  /** Conversion of a C value to a 64-bit `size_t`; a negative difference wraps around. */
  function Wrap64(n: int): nat {
    n % TWO_TO_THE_64
  }

  function Zeros(n: nat): (z: Bytes)
    ensures |z| == n && forall i :: 0 <= i < n ==> z[i] == 0
  {
    seq(n, i => 0 as byte)
  }

  /** `s` with `data` copied over it at offset `off`: the effect of a memcpy. */
  function Splice(s: Bytes, off: nat, data: Bytes): (r: Bytes)
    requires off + |data| <= |s|
    ensures |r| == |s|
    ensures forall i :: 0 <= i < |s| ==> r[i] == if off <= i < off + |data| then data[i - off] else s[i]
  {
    s[..off] + data + s[off + |data|..]
  }

  // ---------------------------------------------------------------- header

  /** The four bytes ENCODE_UINT32 stores: the value modulo 2^32, most significant first. */
  function EncodeUint32(n: nat): (b: Bytes)
    ensures |b| == 4
  {
    [(n / 0x100_0000 % 256) as byte, (n / 0x1_0000 % 256) as byte, (n / 0x100 % 256) as byte, (n % 256) as byte]
  }

  /** What DECODE_UINT32 accumulates from the first four bytes. */
  function DecodeUint32(b: Bytes): (n: nat)
    requires |b| >= 4
    ensures n < TWO_TO_THE_32
  {
    b[0] as nat * 0x100_0000 + b[1] as nat * 0x1_0000 + b[2] as nat * 0x100 + b[3] as nat
  }

  /** Decoding inverts encoding up to the truncation to 32 bits. */
  lemma DecodeEncode(n: nat, rest: Bytes)
    ensures DecodeUint32(EncodeUint32(n) + rest) == Wrap32(n)
  {
    var b := EncodeUint32(n);
    assert (b + rest)[0] == b[0] && (b + rest)[1] == b[1] && (b + rest)[2] == b[2] && (b + rest)[3] == b[3];
    var q1, q2, q3 := n / 0x100, n / 0x1_0000, n / 0x100_0000;
    assert q2 == q1 / 256 && q3 == q2 / 256;
    var q4 := q3 / 256;
    assert n == q4 * TWO_TO_THE_32 + DecodeUint32(b + rest);
  }

  /** The four bytes weigh 2^24, 2^16, 2^8 and 1, in this order. */
  lemma MostSignificantFirst(n: nat)
    ensures var b := EncodeUint32(n);
      b[0] as nat * 0x100_0000 + b[1] as nat * 0x1_0000 + b[2] as nat * 0x100 + b[3] as nat == n % 0x1_0000_0000
  {
    DecodeEncode(n, []);
    assert EncodeUint32(n) + [] == EncodeUint32(n);
  }

  /** The base-256 digits of a number are recovered by division and remainder. */
  lemma Digits(b0: nat, b1: nat, b2: nat, b3: nat)
    requires b0 < 256 && b1 < 256 && b2 < 256 && b3 < 256
    ensures var n := b0 * 0x100_0000 + b1 * 0x1_0000 + b2 * 0x100 + b3;
      n / 0x100_0000 % 256 == b0 && n / 0x1_0000 % 256 == b1 && n / 0x100 % 256 == b2 && n % 256 == b3
  {
    var n := b0 * 0x100_0000 + b1 * 0x1_0000 + b2 * 0x100 + b3;
    var high2, low2 := b0 * 256 + b1, b2 * 256 + b3;
    assert n == high2 * 0x1_0000 + low2;
    assert n / 0x1_0000 == high2;
    assert n == b0 * 0x100_0000 + (b1 * 0x1_0000 + low2);
    assert n / 0x100_0000 == b0;
    assert n == (high2 * 256 + b2) * 256 + b3;
    assert n / 0x100 == high2 * 256 + b2;
  }

  /** Encoding inverts decoding: the header is a bijection between byte quadruples and uint32 values. */
  lemma EncodeDecode(b: Bytes)
    requires |b| >= 4
    ensures EncodeUint32(DecodeUint32(b)) == b[..4]
  {
    Digits(b[0] as nat, b[1] as nat, b[2] as nat, b[3] as nat);
    var e := EncodeUint32(DecodeUint32(b));
    assert e[0] == b[0] && e[1] == b[1] && e[2] == b[2] && e[3] == b[3];
  }

  // ---------------------------------------------------------- array writes

  /** memcpy into a buffer. */
  method Copy(dst: array<byte>, off: nat, src: Bytes)
    requires off + |src| <= dst.Length
    modifies dst
    ensures dst[..] == Splice(old(dst[..]), off, src)
  {
    for i := 0 to |src|
      invariant forall j :: 0 <= j < i ==> dst[off + j] == src[j]
      invariant forall j :: 0 <= j < dst.Length && !(off <= j < off + i) ==> dst[j] == old(dst[j])
    {
      dst[off + i] := src[i];
    }
    assert dst[..] == Splice(old(dst[..]), off, src);
  }

  /** ENCODE_UINT32: the length header, stored in place. */
  method StoreUint32(dst: array<byte>, n: nat)
    requires 4 <= dst.Length
    modifies dst
    ensures dst[..] == Splice(old(dst[..]), 0, EncodeUint32(n))
  {
    dst[0] := (n / 0x100_0000 % 256) as byte;
    dst[1] := (n / 0x1_0000 % 256) as byte;
    dst[2] := (n / 0x100 % 256) as byte;
    dst[3] := (n % 256) as byte;
    assert dst[..] == Splice(old(dst[..]), 0, EncodeUint32(n));
  }

  /** A zero-filled allocation. */
  method ZeroAlloc(n: nat) returns (a: array<byte>)
    ensures fresh(a) && a[..] == Zeros(n)
  {
    a := new byte[n](i => 0);
    assert a[..] == Zeros(n);
  }
}
