/**
 * The layout of a hybrid key buffer, written once as a concatenation. The
 * provider never forms this concatenation: it computes offsets, in several
 * places independently. Everything proved about those places is proved
 * against this description.
 *
 *   Packed        u32 | classic | pq | slack              hybrid signatures
 *   ClassicFirst  u32 | classic | slack | pq              hybrid KEMs
 *   PqFirst       u32 | pq | classic | slack              reversed hybrid KEMs
 */
module Layout {
  import opened Bytes
  import opened Primitives

  /** The buffer holding the classical share `c` (at most `max` bytes) and the post-quantum share `q`. */
  function Lay(o: Order, max: nat, c: Bytes, q: Bytes): (b: Bytes)
    requires |c| <= max
    ensures |b| == 4 + max + |q|
  {
    EncodeUint32(|c|) +
    match o
    case Packed => c + q + Zeros(max - |c|)
    case ClassicFirst => c + Zeros(max - |c|) + q
    case PqFirst => q + c + Zeros(max - |c|)
  }

  /** Where the classical share starts, for a post-quantum share of `pq` bytes. */
  function ClassicOffset(o: Order, pq: nat): nat {
    if o.PqFirst? then 4 + pq else 4
  }

  /** Where the post-quantum share starts; `c` is the classical length in the header. */
  function PqOffset(o: Order, max: nat, c: nat): nat {
    match o
    case Packed => 4 + c
    case ClassicFirst => 4 + max
    case PqFirst => 4
  }

  /** `n` bytes of `b` from `off` on. */
  function Slice(b: Bytes, off: nat, n: nat): (s: Bytes)
    requires off + n <= |b|
    ensures |s| == n
  {
    b[off..off + n]
  }

  lemma SliceOfConcat(x: Bytes, s: Bytes, y: Bytes)
    ensures Slice(x + s + y, |x|, |s|) == s
  {
  }

  /** A string is its four consecutive pieces, and the pieces are its slices. */
  lemma FourPieces(e: Bytes, x: Bytes, y: Bytes, z: Bytes)
    ensures var p := e + x + y + z;
      && p[..|e|] == e && Slice(p, |e|, |x|) == x && Slice(p, |e| + |x|, |y|) == y && p[|e| + |x| + |y|..] == z
      && p == e + (x + y + z)
  {
  }

  lemma CutInFour(p: Bytes, i: nat, j: nat, k: nat)
    requires i <= j <= k <= |p|
    ensures p == p[..i] + Slice(p, i, j - i) + Slice(p, j, k - j) + p[k..]
  {
  }

  /** Buffers with a common prefix have the same slices inside it. */
  lemma SliceInPrefix(x: Bytes, y: Bytes, n: nat, off: nat, len: nat)
    requires off + len <= n <= |x| && n <= |y| && x[..n] == y[..n]
    ensures Slice(x, off, len) == Slice(y, off, len)
  {
    assert x[off..off + len] == x[..n][off..off + len];
    assert y[off..off + len] == y[..n][off..off + len];
  }

  /** Buffers that agree behind the header have the same slices there. */
  lemma SliceBehindHeader(x: Bytes, y: Bytes, n: nat, off: nat, len: nat)
    requires 4 <= off && off + len <= n <= |x| && n <= |y| && x[4..n] == y[4..n]
    ensures Slice(x, off, len) == Slice(y, off, len)
  {
    forall i | 0 <= i < len ensures Slice(x, off, len)[i] == Slice(y, off, len)[i] {
      assert x[off + i] == x[4..n][off + i - 4] && y[off + i] == y[4..n][off + i - 4];
    }
  }

  /** The two shares are found behind any four-byte header. */
  lemma SharesFound(o: Order, max: nat, e: Bytes, c: Bytes, q: Bytes)
    requires |e| == 4 && |c| <= max
    ensures var z := Zeros(max - |c|);
      var b := e + (match o case Packed => c + q + z case ClassicFirst => c + z + q case PqFirst => q + c + z);
      && Slice(b, ClassicOffset(o, |q|), |c|) == c
      && Slice(b, PqOffset(o, max, |c|), |q|) == q
  {
    hide Zeros;
    var z := Zeros(max - |c|);
    match o {
      case Packed =>
        assert e + (c + q + z) == e + c + (q + z);
        assert e + c + (q + z) == (e + c) + q + z;
        SliceOfConcat(e, c, q + z);
        SliceOfConcat(e + c, q, z);
      case ClassicFirst =>
        assert e + (c + z + q) == e + c + (z + q);
        assert e + c + (z + q) == (e + c + z) + q + [];
        SliceOfConcat(e, c, z + q);
        SliceOfConcat(e + c + z, q, []);
      case PqFirst =>
        assert e + (q + c + z) == e + q + (c + z);
        assert e + q + (c + z) == (e + q) + c + z;
        SliceOfConcat(e, q, c + z);
        SliceOfConcat(e + q, c, z);
    }
  }

  /**
   * Reading a laid-out buffer back: the header is the classical length and the
   * two offsets find exactly the two shares.
   */
  lemma LaySlices(o: Order, max: nat, c: Bytes, q: Bytes)
    requires |c| <= max < TWO_TO_THE_32
    ensures DecodeUint32(Lay(o, max, c, q)) == |c|
    ensures Slice(Lay(o, max, c, q), ClassicOffset(o, |q|), |c|) == c
    ensures Slice(Lay(o, max, c, q), PqOffset(o, max, |c|), |q|) == q
  {
    hide EncodeUint32, DecodeUint32;
    var z := Zeros(max - |c|);
    DecodeEncode(|c|, match o case Packed => c + q + z case ClassicFirst => c + z + q case PqFirst => q + c + z);
    SharesFound(o, max, EncodeUint32(|c|), c, q);
  }

  /**
   * The two shares are disjoint, start behind the header and end inside the
   * buffer whenever the header is in range.
   */
  lemma SharesApart(o: Order, max: nat, pq: nat, c: nat)
    requires c <= max
    ensures var co, qo := ClassicOffset(o, pq), PqOffset(o, max, c);
      && 4 <= co && co + c <= 4 + max + pq
      && 4 <= qo && qo + pq <= 4 + max + pq
      && (co + c <= qo || qo + pq <= co)
  {
  }

  /** A buffer with the header and both shares in place and zeros elsewhere is the laid-out buffer. */
  lemma LayUnique(o: Order, max: nat, c: Bytes, q: Bytes, extra: nat, b: Bytes)
    requires |c| <= max && |b| == 4 + max + |q| + extra
    requires forall i :: 0 <= i < 4 ==> b[i] == EncodeUint32(|c|)[i]
    requires var co := ClassicOffset(o, |q|); forall i :: co <= i < co + |c| ==> b[i] == c[i - co]
    requires var qo := PqOffset(o, max, |c|); forall i :: qo <= i < qo + |q| ==> b[i] == q[i - qo]
    requires var co, qo := ClassicOffset(o, |q|), PqOffset(o, max, |c|);
      forall i :: 4 <= i < |b| && !(co <= i < co + |c|) && !(qo <= i < qo + |q|) ==> b[i] == 0
    ensures b == Lay(o, max, c, q) + Zeros(extra)
  {
    var z := Zeros(max - |c|);
    match o {
      case Packed => assert b == EncodeUint32(|c|) + (c + q + z) + Zeros(extra);
      case ClassicFirst => assert b == EncodeUint32(|c|) + (c + z + q) + Zeros(extra);
      case PqFirst => assert b == EncodeUint32(|c|) + (q + c + z) + Zeros(extra);
    }
  }

  /** Key generation's three writes into a zeroed buffer produce the laid-out buffer. */
  lemma LayBySplices(o: Order, max: nat, c: Bytes, q: Bytes, extra: nat)
    requires |c| <= max
    ensures var n := 4 + max + |q| + extra;
      Splice(Splice(Splice(Zeros(n), ClassicOffset(o, |q|), c), 0, EncodeUint32(|c|)), PqOffset(o, max, |c|), q)
      == Lay(o, max, c, q) + Zeros(extra)
  {
    hide EncodeUint32, Splice, Zeros, Lay;
    var n := 4 + max + |q| + extra;
    var s1 := Splice(Zeros(n), ClassicOffset(o, |q|), c);
    var s2 := Splice(s1, 0, EncodeUint32(|c|));
    var s3 := Splice(s2, PqOffset(o, max, |c|), q);
    LayUnique(o, max, c, q, extra, s3);
  }
}
