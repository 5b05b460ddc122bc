/**
 * Hybrid signatures: a length-prefixed classical signature followed by a
 * post-quantum one, produced in place and taken apart with wrapping unsigned
 * arithmetic.
 */
module HybridSig {
  import opened Bytes
  import opened Primitives
  import opened Layout
  import opened KeyValues
  import opened Keys

  datatype Operation = OpNone | OpSign | OpVerify | OpSignMsg | OpVerifyMsg

  // ------------------------------------------------------- what is signed

  /** The digest the classical half uses, by the claimed level of the post-quantum half. */
  function LevelDigest(level: nat): Md {
    if level == 1 then Sha256 else if level == 2 || level == 3 then Sha384 else Sha512
  }

  /** Does the classical half hash? `api` is the message-API switch. */
  predicate SignHashes(op: Operation, api: bool) {
    op == OpSignMsg || !api
  }

  predicate VerifyHashes(op: Operation, api: bool) {
    op == OpVerifyMsg || !api
  }

  /** What the classical half signs or verifies. */
  function ClassicalInput(a: Alg, cl: Classical, hash: bool, tbs: Bytes): (Md, Bytes) {
    var md := LevelDigest(a.qs.claimedNistLevel);
    if hash then (md, cl.digest(md, tbs)) else (NoMd, tbs)
  }

  function SecretShare(a: Alg, priv: Bytes): Bytes
    requires |priv| >= a.PrivLen() && (a.keytype.HybSig? ==> Header(a, priv) <= a.evp.lengthPrivateKey)
    requires a.keytype.HybSig? || a.keytype.Sig?
  {
    Slice(priv, PqAt(a, a.evp.lengthPrivateKey, Header(a, priv)), a.qs.lengthSecretKey)
  }

  function PublicShare(a: Alg, pub: Bytes): Bytes
    requires |pub| >= a.PubLen() && (a.keytype.HybSig? ==> Header(a, pub) <= a.evp.lengthPublicKey)
    requires a.keytype.HybSig? || a.keytype.Sig?
  {
    Slice(pub, PqAt(a, a.evp.lengthPublicKey, Header(a, pub)), a.qs.lengthPublicKey)
  }

  /** The classical half of a hybrid signature, if it succeeds within its maximum length. */
  function ClassicalSignature(a: Alg, cl: Classical, k: Option<Pkey>, hash: bool, tbs: Bytes, r: nat): Option<Bytes> {
    var (md, data) := ClassicalInput(a, cl, hash, tbs);
    if k.None? then None
    else
      var s := cl.sign(k.value, md, data, r);
      if s.Some? && |s.value| > a.evp.lengthSignature then None else s
  }

  /** The whole signature: header, classical part and post-quantum part for a hybrid key. */
  function Signature(a: Alg, cl: Classical, pq: Pq, priv: Bytes, k: Option<Pkey>, hash: bool, context: Bytes,
                     tbs: Bytes, r1: nat, r2: nat): (s: Option<Bytes>)
    requires |priv| >= a.PrivLen() && (a.keytype.HybSig? ==> Header(a, priv) <= a.evp.lengthPrivateKey)
    requires a.keytype.HybSig? || a.keytype.Sig?
  {
    var quantum := pq.sign(SecretShare(a, priv), tbs, context, r2);
    if a.keytype.Sig? then quantum
    else
      var classic := ClassicalSignature(a, cl, k, hash, tbs, r1);
      if classic.None? || quantum.None? then None
      else Some(EncodeUint32(|classic.value|) + classic.value + quantum.value)
  }

  /** oqsx_key_maxsize */
  function MaxSize(a: Alg): nat {
    match a.keytype
    case Kem => a.qs.lengthSharedSecret
    case EcpHybKem | EcbpHybKem | EcxHybKem => a.evp.kexLengthSecret + a.qs.lengthSharedSecret
    case Sig => a.qs.lengthSignature
    case HybSig => a.qs.lengthSignature + a.evp.lengthSignature + 4
  }

  /**
   * The result of a signing call with a buffer of which `sigLen` bytes may be
   * used: return value, length, buffer. Bytes from the maximal size on are never
   * touched, not by a call that fails late either.
   */
  ghost predicate SignOutcome(a: Alg, cl: Classical, pq: Pq, priv: Bytes, k: Option<Pkey>, hash: bool, context: Bytes,
                              tbs: Bytes, r1: nat, r2: nat, sigLen: nat, before: Bytes,
                              rv: int, outLen: nat, after: Bytes)
    requires |priv| >= a.PrivLen() && (a.keytype.HybSig? ==> Header(a, priv) <= a.evp.lengthPrivateKey)
    requires a.keytype.HybSig? || a.keytype.Sig?
  {
    var s := Signature(a, cl, pq, priv, k, hash, context, tbs, r1, r2);
    && |after| == |before|
    && (MaxSize(a) <= |before| ==> after[MaxSize(a)..] == before[MaxSize(a)..])
    && if sigLen < MaxSize(a) || s.None? then
         rv == 0 && outLen == sigLen && (sigLen < MaxSize(a) ==> after == before)
       else
         && rv == 1 && outLen == |s.value| <= MaxSize(a)
         && outLen <= |after|
         && after[..outLen] == s.value && after[outLen..] == before[outLen..]
  }

  /** A signature never exceeds the advertised size. */
  lemma SignatureFits(a: Alg, cl: Classical, pq: Pq, priv: Bytes, k: Option<Pkey>, hash: bool, context: Bytes,
                      tbs: Bytes, r1: nat, r2: nat)
    requires |priv| >= a.PrivLen() && (a.keytype.HybSig? ==> Header(a, priv) <= a.evp.lengthPrivateKey)
    requires (a.keytype.HybSig? || a.keytype.Sig?) && PqSigLengths(a.qs, pq)
    ensures var s := Signature(a, cl, pq, priv, k, hash, context, tbs, r1, r2);
      s.Some? ==> |s.value| <= MaxSize(a)
  {
    var quantum := pq.sign(SecretShare(a, priv), tbs, context, r2);
    assert quantum.Some? ==> |quantum.value| <= a.qs.lengthSignature;
  }

  /** Where each half of a signature is, and what it is a signature of, written out case by case. */
  lemma SignatureWrittenOut(a: Alg, cl: Classical, pq: Pq, priv: Bytes, k: Option<Pkey>, op: Operation, api: bool,
                            context: Bytes, tbs: Bytes, r1: nat, r2: nat)
    requires |priv| >= a.PrivLen() && a.keytype.HybSig? && Header(a, priv) <= a.evp.lengthPrivateKey && a.Valid()
    ensures var s := Signature(a, cl, pq, priv, k, SignHashes(op, api), context, tbs, r1, r2);
      var level, quantum := a.qs.claimedNistLevel, pq.sign(SecretShare(a, priv), tbs, context, r2);
      var classic := if k.None? then None
                     else if op != OpSignMsg && api then cl.sign(k.value, NoMd, tbs, r1)
                     else if level == 1 then cl.sign(k.value, Sha256, cl.digest(Sha256, tbs), r1)
                     else if level == 2 || level == 3 then cl.sign(k.value, Sha384, cl.digest(Sha384, tbs), r1)
                     else cl.sign(k.value, Sha512, cl.digest(Sha512, tbs), r1);
      s.Some? <==> classic.Some? && |classic.value| <= a.evp.lengthSignature && quantum.Some?
    ensures var s := Signature(a, cl, pq, priv, k, SignHashes(op, api), context, tbs, r1, r2);
      s.Some? ==>
        k.Some? && |s.value| >= 4 && 4 + DecodeUint32(s.value) <= |s.value| &&
        var level, n := a.qs.claimedNistLevel, DecodeUint32(s.value);
        var classic, quantum := Some(s.value[4..4 + n]), Some(s.value[4 + n..]);
        && (op != OpSignMsg && api ==> classic == cl.sign(k.value, NoMd, tbs, r1))
        && (op == OpSignMsg || !api ==>
            && (level == 1 ==> classic == cl.sign(k.value, Sha256, cl.digest(Sha256, tbs), r1))
            && (level == 2 || level == 3 ==> classic == cl.sign(k.value, Sha384, cl.digest(Sha384, tbs), r1))
            && (level != 1 && level != 2 && level != 3 ==> classic == cl.sign(k.value, Sha512, cl.digest(Sha512, tbs), r1)))
        && quantum == pq.sign(SecretShare(a, priv), tbs, context, r2)
  {
    hide EncodeUint32, DecodeUint32, SecretShare;
    var s := Signature(a, cl, pq, priv, k, SignHashes(op, api), context, tbs, r1, r2);
    if s.Some? {
      var classic := ClassicalSignature(a, cl, k, SignHashes(op, api), tbs, r1).value;
      var quantum := pq.sign(SecretShare(a, priv), tbs, context, r2).value;
      SplitIsUnique(s.value, classic, quantum);
    }
  }

  // ------------------------------------------------------------- signing

  /** The classical part of oqs_sig_sign_directly: signature behind the header, then the header. */
  method SignClassic(key: OqsxKey, cl: Classical, op: Operation, api: bool, sig: array<byte>, tbs: Bytes, r: nat)
    returns (len: Option<nat>)
    requires key.Valid() && key.alg.keytype.HybSig? && sig.Length >= MaxSize(key.alg)
    modifies sig
    ensures var s := ClassicalSignature(key.alg, cl, key.classicalPkey, SignHashes(op, api), tbs, r);
      && len == (if s.Some? then Some(|s.value|) else None)
      && (s.Some? ==> |s.value| <= key.alg.evp.lengthSignature)
      && sig[..] == (if s.None? then old(sig[..])
                     else Splice(Splice(old(sig[..]), 4, s.value), 0, EncodeUint32(|s.value|)))
  {
    if key.classicalPkey.None? {
      return None;
    }
    var s: Option<Bytes>;
    if op == OpSignMsg || !api {
      var md: Md;
      match key.alg.qs.claimedNistLevel {
        case 1 => md := Sha256;
        case 2 => md := Sha384;
        case 3 => md := Sha384;
        case _ => md := Sha512;
      }
      s := cl.sign(key.classicalPkey.value, md, cl.digest(md, tbs), r);
    } else {
      s := cl.sign(key.classicalPkey.value, NoMd, tbs, r);
    }
    if s.None? || |s.value| > key.alg.evp.lengthSignature {
      return None;
    }
    Copy(sig, 4, s.value);
    StoreUint32(sig, |s.value|);
    return Some(|s.value|);
  }

  /**
   * oqs_sig_sign_directly: a null buffer asks for the length; otherwise the
   * signature is built in place and its length returned.
   */
  method SignDirectly(key: OqsxKey, cl: Classical, pq: Pq, op: Operation, api: bool, context: Bytes,
                      sig: array?<byte>, sigLen: nat, tbs: Bytes, r1: nat, r2: nat)
    returns (rv: int, outLen: nat)
    requires key.Valid() && (key.alg.keytype.HybSig? || key.alg.keytype.Sig?) && PrivLaid(key.alg, key.Val())
    requires PqSigLengths(key.alg.qs, pq)
    requires sig != null ==> sigLen <= sig.Length && sig != key.privkey
    modifies sig
    ensures key.privkey == null ==> rv == 0
    ensures key.privkey != null && sig == null ==> rv == 1 && outLen == MaxSize(key.alg)
    ensures key.privkey == null && sig != null ==> outLen == sigLen && sig[..] == old(sig[..])
    ensures key.privkey != null && sig != null ==>
      SignOutcome(key.alg, cl, pq, key.privkey[..], key.classicalPkey, SignHashes(op, api), context, tbs, r1, r2,
                  sigLen, old(sig[..]), rv, outLen, sig[..])
    ensures key.privkey != null && sig == null ==>
      outLen == if key.alg.keytype.HybSig? then 4 + key.alg.evp.lengthSignature + key.alg.qs.lengthSignature
                else key.alg.qs.lengthSignature
    ensures rv == 1 && sig != null && key.alg.keytype.HybSig? ==>
      key.classicalPkey.Some? && 4 <= outLen <= sig.Length && 4 + DecodeUint32(sig[..outLen]) <= outLen &&
      var classic, level, k := Some(sig[4..4 + DecodeUint32(sig[..outLen])]), key.alg.qs.claimedNistLevel, key.classicalPkey.value;
      && (op != OpSignMsg && api ==> classic == cl.sign(k, NoMd, tbs, r1))
      && (op == OpSignMsg || !api ==>
          && (level == 1 ==> classic == cl.sign(k, Sha256, cl.digest(Sha256, tbs), r1))
          && (level == 2 || level == 3 ==> classic == cl.sign(k, Sha384, cl.digest(Sha384, tbs), r1))
          && (level != 1 && level != 2 && level != 3 ==> classic == cl.sign(k, Sha512, cl.digest(Sha512, tbs), r1)))
  {
    hide EncodeUint32, DecodeUint32, Splice, Signature;
    outLen := sigLen;
    if key.privkey == null {
      return 0, outLen;
    }
    var isHybrid := key.alg.keytype == HybSig;
    var maxSigLen := key.alg.qs.lengthSignature;
    if isHybrid {
      maxSigLen := maxSigLen + (4 + key.alg.evp.lengthSignature);
    }
    if sig == null {
      return 1, maxSigLen;
    }
    if sigLen < maxSigLen {
      return 0, outLen;
    }
    SignatureFits(key.alg, cl, pq, key.privkey[..], key.classicalPkey, SignHashes(op, api), context, tbs, r1, r2);
    var len := SignParts(key, cl, pq, op, api, context, sig, tbs, r1, r2);
    if len.None? {
      return 0, outLen;
    }
    if key.alg.keytype == HybSig {
      SignatureWrittenOut(key.alg, cl, pq, key.privkey[..], key.classicalPkey, op, api, context, tbs, r1, r2);
      ghost var s := sig[..len.value];
      assert forall n :: 4 <= n <= len.value ==> sig[4..n] == s[4..n];
    }
    return 1, len.value;
  }

  /** The signature itself, built from the front: classical part if hybrid, then the post-quantum part. */
  method SignParts(key: OqsxKey, cl: Classical, pq: Pq, op: Operation, api: bool, context: Bytes,
                   sig: array<byte>, tbs: Bytes, r1: nat, r2: nat)
    returns (len: Option<nat>)
    requires key.Valid() && (key.alg.keytype.HybSig? || key.alg.keytype.Sig?) && PrivLaid(key.alg, key.Val())
    requires PqSigLengths(key.alg.qs, pq)
    requires key.privkey != null && sig.Length >= MaxSize(key.alg) && sig != key.privkey
    modifies sig
    ensures var s := Signature(key.alg, cl, pq, key.privkey[..], key.classicalPkey, SignHashes(op, api), context, tbs, r1, r2);
      && len == (if s.Some? then Some(|s.value|) else None)
      && (s.Some? ==>
        |s.value| <= sig.Length && sig[..|s.value|] == s.value && sig[|s.value|..] == old(sig[..])[|s.value|..])
    ensures sig[MaxSize(key.alg)..] == old(sig[..])[MaxSize(key.alg)..]
  {
    hide EncodeUint32, DecodeUint32, Splice, ClassicalSignature;
    SignatureFits(key.alg, cl, pq, key.privkey[..], key.classicalPkey, SignHashes(op, api), context, tbs, r1, r2);
    var index := 0;
    ghost var sig0 := sig[..];
    if key.alg.keytype == HybSig {
      var n := SignClassic(key, cl, op, api, sig, tbs, r1);
      if n.None? {
        return None;
      }
      index := 4 + n.value;
      ghost var c := ClassicalSignature(key.alg, cl, key.classicalPkey, SignHashes(op, api), tbs, r1).value;
      BehindTheWrites(sig0, 4, c, MaxSize(key.alg));
      BehindTheWrites(Splice(sig0, 4, c), 0, EncodeUint32(|c|), MaxSize(key.alg));
    }
    ghost var sig1 := sig[..];
    var off := key.compPriv[key.alg.NumKeys() - 1].off;
    var quantum := pq.sign(Slice(key.privkey[..], off, key.alg.qs.lengthSecretKey), tbs, context, r2);
    if quantum.None? {
      return None;
    }
    BehindTheWrites(sig1, index, quantum.value, MaxSize(key.alg));
    Copy(sig, index, quantum.value);
    len := Some(index + |quantum.value|);
    if key.alg.keytype == HybSig {
      ghost var classic := ClassicalSignature(key.alg, cl, key.classicalPkey, SignHashes(op, api), tbs, r1);
      Framed(sig0, classic.value, quantum.value);
    } else {
      assert sig[..len.value] == quantum.value && sig[len.value..] == sig0[len.value..];
    }
  }

  /** Writes that end before a place leave the rest alone. */
  lemma BehindTheWrites(s: Bytes, off: nat, x: Bytes, n: nat)
    requires off + |x| <= n <= |s|
    ensures Splice(s, off, x)[n..] == s[n..]
  {
  }

  /** The three writes of a hybrid signature leave the framed concatenation. */
  lemma Framed(s: Bytes, classic: Bytes, quantum: Bytes)
    requires 4 + |classic| + |quantum| <= |s|
    ensures var n := 4 + |classic| + |quantum|;
      var t := Splice(Splice(Splice(s, 4, classic), 0, EncodeUint32(|classic|)), 4 + |classic|, quantum);
      t[..n] == EncodeUint32(|classic|) + classic + quantum && t[n..] == s[n..]
  {
    hide EncodeUint32;
  }

  // --------------------------------------------------------- length guard

  /** The length test of the verifier as written: a 32-bit sum and a 64-bit difference, both wrapping. */
  predicate GuardPasses(sigLen: nat, c: nat, maxClassic: nat, maxPq: nat) {
    sigLen > 4 &&
    !(sigLen <= Wrap32(4 + c) || c > maxClassic || Wrap64(Wrap64(sigLen - 4) - c) > maxPq)
  }

  /** What it is meant to test, over the integers. */
  predicate SplitExists(sigLen: nat, c: nat, maxClassic: nat, maxPq: nat) {
    sigLen > 4 + c && c <= maxClassic && sigLen - 4 - c <= maxPq
  }

  lemma GuardIsExactBelow(sigLen: nat, c: nat, maxClassic: nat, maxPq: nat)
    requires sigLen < TWO_TO_THE_64 && c < TWO_TO_THE_32 && maxClassic < TWO_TO_THE_32 - 4
    ensures GuardPasses(sigLen, c, maxClassic, maxPq) <==> SplitExists(sigLen, c, maxClassic, maxPq)
  {
    if sigLen > 4 && c <= maxClassic {
      assert Wrap32(4 + c) == 4 + c;
      assert Wrap64(sigLen - 4) == sigLen - 4;
      if sigLen > 4 + c {
        assert Wrap64(sigLen - 4 - c) == sigLen - 4 - c;
      }
    }
  }

  /**
   * The guard is exact for every length and every header if and only if the
   * maximal classical length is below 2^32 - 4; at 2^32 - 4 the header
   * 2^32 - 4 with a total length of 2^32 passes although nothing is left over.
   */
  lemma GuardIsExact(maxClassic: nat, maxPq: nat)
    ensures maxClassic < TWO_TO_THE_32 - 4 <==>
      forall sigLen: nat, c: nat :: sigLen < TWO_TO_THE_64 && c < TWO_TO_THE_32 ==>
        (GuardPasses(sigLen, c, maxClassic, maxPq) <==> SplitExists(sigLen, c, maxClassic, maxPq))
  {
    if maxClassic < TWO_TO_THE_32 - 4 {
      forall sigLen: nat, c: nat | sigLen < TWO_TO_THE_64 && c < TWO_TO_THE_32
        ensures GuardPasses(sigLen, c, maxClassic, maxPq) <==> SplitExists(sigLen, c, maxClassic, maxPq)
      {
        GuardIsExactBelow(sigLen, c, maxClassic, maxPq);
      }
    } else {
      var n := TWO_TO_THE_32;
      assert GuardPasses(n, n - 4, maxClassic, maxPq) && !SplitExists(n, n - 4, maxClassic, maxPq);
    }
  }

  // ------------------------------------------------------------ verifying

  /** A signature is a header, a classical part and a non-empty post-quantum part that both verify. */
  ghost predicate Parts(a: Alg, cl: Classical, pq: Pq, pub: Bytes, k: Pkey, hash: bool, context: Bytes,
                        sig: Bytes, tbs: Bytes, classic: Bytes, quantum: Bytes)
    requires |pub| >= a.PubLen() && a.keytype.HybSig? && Header(a, pub) <= a.evp.lengthPublicKey
  {
    var (md, data) := ClassicalInput(a, cl, hash, tbs);
    && sig == EncodeUint32(|classic|) + classic + quantum
    && |classic| <= a.evp.lengthSignature && 0 < |quantum| <= a.qs.lengthSignature
    && cl.verify(k, md, data, classic)
    && pq.verify(PublicShare(a, pub), tbs, quantum, context)
  }

  ghost predicate Accepted(a: Alg, cl: Classical, pq: Pq, pub: Bytes, k: Option<Pkey>, hash: bool, context: Bytes,
                           sig: Bytes, tbs: Bytes)
    requires |pub| >= a.PubLen() && (a.keytype.HybSig? ==> Header(a, pub) <= a.evp.lengthPublicKey)
    requires a.keytype.HybSig? || a.keytype.Sig?
  {
    if a.keytype.Sig? then pq.verify(PublicShare(a, pub), tbs, sig, context)
    else k.Some? && exists c: Bytes, q: Bytes :: Parts(a, cl, pq, pub, k.value, hash, context, sig, tbs, c, q)
  }

  /** A framed signature splits in one way only, and the header finds it. */
  lemma SplitIsUnique(sig: Bytes, classic: Bytes, quantum: Bytes)
    requires sig == EncodeUint32(|classic|) + classic + quantum && |classic| < TWO_TO_THE_32
    ensures DecodeUint32(sig) == |classic| && Slice(sig, 4, |classic|) == classic && sig[4 + |classic|..] == quantum
  {
    hide EncodeUint32, DecodeUint32;
    DecodeEncode(|classic|, classic + quantum);
    FourPieces(EncodeUint32(|classic|), classic, quantum, []);
    assert sig == sig + [] == EncodeUint32(|classic|) + (classic + quantum);
  }

  /** Bytes that pass the guard are framed. */
  lemma SplitIsFramed(sig: Bytes, c: nat)
    requires |sig| > 4 && c == DecodeUint32(sig) && 4 + c <= |sig|
    ensures sig == EncodeUint32(|Slice(sig, 4, c)|) + Slice(sig, 4, c) + sig[4 + c..]
  {
    EncodeDecode(sig);
    hide EncodeUint32, DecodeUint32;
    CutInFour(sig, 4, 4 + c, 4 + c);
    assert Slice(sig, 4 + c, 0) == [];
    assert sig[..4] + Slice(sig, 4, c) + [] == sig[..4] + Slice(sig, 4, c);
  }

  /** Which hybrid signatures are accepted, in terms of the one split the header allows. */
  lemma AcceptedBySplit(a: Alg, cl: Classical, pq: Pq, pub: Bytes, k: Pkey, hash: bool, context: Bytes, sig: Bytes, tbs: Bytes)
    requires a.Valid() && |pub| >= a.PubLen() && a.keytype.HybSig? && Header(a, pub) <= a.evp.lengthPublicKey
    ensures Accepted(a, cl, pq, pub, Some(k), hash, context, sig, tbs) <==>
      && |sig| > 4 && SplitExists(|sig|, DecodeUint32(sig), a.evp.lengthSignature, a.qs.lengthSignature)
      && var c, (md, data) := DecodeUint32(sig), ClassicalInput(a, cl, hash, tbs);
        cl.verify(k, md, data, Slice(sig, 4, c)) && pq.verify(PublicShare(a, pub), tbs, sig[4 + c..], context)
  {
    forall x, y | Parts(a, cl, pq, pub, k, hash, context, sig, tbs, x, y)
      ensures |sig| > 4 && DecodeUint32(sig) == |x| && Slice(sig, 4, |x|) == x && sig[4 + |x|..] == y
    {
      SplitIsUnique(sig, x, y);
    }
    if |sig| > 4 && SplitExists(|sig|, DecodeUint32(sig), a.evp.lengthSignature, a.qs.lengthSignature) {
      var c := DecodeUint32(sig);
      SplitIsFramed(sig, c);
      var classic, quantum := Slice(sig, 4, c), sig[4 + c..];
      var (md, data) := ClassicalInput(a, cl, hash, tbs);
      if cl.verify(k, md, data, classic) && pq.verify(PublicShare(a, pub), tbs, quantum, context) {
        assert Parts(a, cl, pq, pub, k, hash, context, sig, tbs, classic, quantum);
      }
    }
  }

  /** The same, written out case by case. */
  lemma AcceptedWrittenOut(a: Alg, cl: Classical, pq: Pq, pub: Bytes, k: Pkey, op: Operation, api: bool,
                           context: Bytes, sig: Bytes, tbs: Bytes)
    requires a.Valid() && |pub| >= a.PubLen() && a.keytype.HybSig? && Header(a, pub) <= a.evp.lengthPublicKey
    ensures Accepted(a, cl, pq, pub, Some(k), VerifyHashes(op, api), context, sig, tbs) <==>
      |sig| > 4 && 4 + DecodeUint32(sig) < |sig| &&
      var level, n := a.qs.claimedNistLevel, DecodeUint32(sig);
      var classic, quantum := sig[4..4 + n], sig[4 + n..];
      && n <= a.evp.lengthSignature && |quantum| <= a.qs.lengthSignature
      && pq.verify(PublicShare(a, pub), tbs, quantum, context)
      && (if op == OpVerifyMsg || !api then
            if level == 1 then cl.verify(k, Sha256, cl.digest(Sha256, tbs), classic)
            else if level == 2 || level == 3 then cl.verify(k, Sha384, cl.digest(Sha384, tbs), classic)
            else cl.verify(k, Sha512, cl.digest(Sha512, tbs), classic)
          else cl.verify(k, NoMd, tbs, classic))
  {
    hide EncodeUint32, DecodeUint32, PublicShare, Accepted;
    AcceptedBySplit(a, cl, pq, pub, k, VerifyHashes(op, api), context, sig, tbs);
  }

  /**
   * oqs_sig_verify_directly: accepts exactly the strings that split into two
   * parts of admissible lengths which both verify.
   */
  method VerifyDirectly(key: OqsxKey, cl: Classical, pq: Pq, op: Operation, api: bool, context: Bytes,
                        sig: Option<Bytes>, tbs: Bytes)
    returns (rv: int)
    requires key.Valid() && (key.alg.keytype.HybSig? || key.alg.keytype.Sig?) && PubLaid(key.alg, key.Val())
    requires sig.Some? ==> |sig.value| < TWO_TO_THE_64
    ensures rv == 0 || rv == 1
    ensures rv == 1 <==> (key.pubkey != null && sig.Some? &&
      Accepted(key.alg, cl, pq, key.pubkey[..], key.classicalPkey, VerifyHashes(op, api), context, sig.value, tbs))
    ensures rv == 1 && key.alg.keytype.HybSig? ==>
      key.classicalPkey.Some? && |sig.value| > 4 && 4 + DecodeUint32(sig.value) < |sig.value| &&
      var classic, level, k := Slice(sig.value, 4, DecodeUint32(sig.value)), key.alg.qs.claimedNistLevel, key.classicalPkey.value;
      && (op != OpVerifyMsg && api ==> cl.verify(k, NoMd, tbs, classic))
      && (op == OpVerifyMsg || !api ==>
          && (level == 1 ==> cl.verify(k, Sha256, cl.digest(Sha256, tbs), classic))
          && (level == 2 || level == 3 ==> cl.verify(k, Sha384, cl.digest(Sha384, tbs), classic))
          && (level != 1 && level != 2 && level != 3 ==> cl.verify(k, Sha512, cl.digest(Sha512, tbs), classic)))
  {
    hide DecodeUint32, EncodeUint32, Parts, SplitExists, Accepted;
    if key.pubkey == null || sig.None? {
      return 0;
    }
    var s := sig.value;
    var off := key.compPub[key.alg.NumKeys() - 1].off;
    var pk := Slice(key.pubkey[..], off, key.alg.qs.lengthPublicKey);
    ghost var pub := key.pubkey[..];
    if key.alg.keytype == Sig {
      PlainAccepted(key.alg, cl, pq, pub, key.classicalPkey, VerifyHashes(op, api), context, s, tbs);
      rv := if pq.verify(pk, tbs, s, context) then 1 else 0;
      return;
    }
    if key.classicalPkey.None? {
      PlainAccepted(key.alg, cl, pq, pub, None, VerifyHashes(op, api), context, s, tbs);
      return 0;
    }
    AcceptedBySplit(key.alg, cl, pq, pub, key.classicalPkey.value, VerifyHashes(op, api), context, s, tbs);
    var ok, c := CheckFrame(key.alg, s);
    if !ok {
      return 0;
    }
    var good: bool;
    if op == OpVerifyMsg || !api {
      var md: Md;
      match key.alg.qs.claimedNistLevel {
        case 1 => md := Sha256;
        case 2 => md := Sha384;
        case 3 => md := Sha384;
        case _ => md := Sha512;
      }
      good := cl.verify(key.classicalPkey.value, md, cl.digest(md, tbs), Slice(s, 4, c));
    } else {
      good := cl.verify(key.classicalPkey.value, NoMd, tbs, Slice(s, 4, c));
    }
    if !good {
      return 0;
    }
    rv := if pq.verify(pk, tbs, s[4 + c..], context) then 1 else 0;
  }

  /** Acceptance for plain keys, and for hybrid keys that have no classical key. */
  lemma PlainAccepted(a: Alg, cl: Classical, pq: Pq, pub: Bytes, k: Option<Pkey>, hash: bool, context: Bytes,
                      sig: Bytes, tbs: Bytes)
    requires |pub| >= a.PubLen() && (a.keytype.HybSig? ==> Header(a, pub) <= a.evp.lengthPublicKey)
    requires a.keytype.Sig? || (a.keytype.HybSig? && k.None?)
    ensures Accepted(a, cl, pq, pub, k, hash, context, sig, tbs) <==>
      a.keytype.Sig? && pq.verify(PublicShare(a, pub), tbs, sig, context)
  {
  }

  /** The framing checks of the verifier, with its arithmetic. */
  method CheckFrame(a: Alg, sig: Bytes) returns (ok: bool, c: nat)
    requires a.Valid() && |sig| < TWO_TO_THE_64
    ensures ok <==> |sig| > 4 && SplitExists(|sig|, DecodeUint32(sig), a.evp.lengthSignature, a.qs.lengthSignature)
    ensures ok ==> c == DecodeUint32(sig) && 4 + c < |sig|
  {
    hide DecodeUint32;
    if |sig| <= 4 {
      return false, 0;
    }
    c := DecodeUint32(sig);
    var actualPq := Wrap64(Wrap64(|sig| - 4) - c);
    GuardIsExactBelow(|sig|, c, a.evp.lengthSignature, a.qs.lengthSignature);
    ok := !(|sig| <= Wrap32(4 + c) || c > a.evp.lengthSignature || actualPq > a.qs.lengthSignature);
  }

  // -------------------------------------------------------- sign and verify

  /** A plain key signs and verifies the data itself, under the context string, with its one liboqs key. */
  lemma PlainWrittenOut(a: Alg, cl: Classical, pq: Pq, kv: KeyVal, op: Operation, api: bool, context: Bytes,
                        sig: Bytes, tbs: Bytes, r1: nat, r2: nat)
    requires a.keytype.Sig? && Laid(a, kv)
    ensures kv.privkey.Some? ==>
      Signature(a, cl, pq, kv.privkey.value, kv.classical, SignHashes(op, api), context, tbs, r1, r2)
        == pq.sign(kv.privkey.value[..a.qs.lengthSecretKey], tbs, context, r2)
    ensures kv.pubkey.Some? ==>
      (Accepted(a, cl, pq, kv.pubkey.value, kv.classical, VerifyHashes(op, api), context, sig, tbs) <==>
        pq.verify(kv.pubkey.value[..a.qs.lengthPublicKey], tbs, sig, context))
  {
    assert kv.privkey.Some? ==> SecretShare(a, kv.privkey.value) == kv.privkey.value[..a.qs.lengthSecretKey];
    assert kv.pubkey.Some? ==> PublicShare(a, kv.pubkey.value) == kv.pubkey.value[..a.qs.lengthPublicKey];
  }

  /** Which pairs of operations make both sides hash, or neither. */
  lemma MatchedOperations(s: Operation, v: Operation, api: bool)
    requires (s == OpSign || s == OpSignMsg) && (v == OpVerify || v == OpVerifyMsg)
    ensures SignHashes(s, api) == VerifyHashes(v, api) <==> !api || (s == OpSign <==> v == OpVerify)
  {
  }

  /** Signing never returns an empty post-quantum part. */
  ghost predicate PqSigPositive(pq: Pq) {
    forall sk, m, c, r :: pq.sign(sk, m, c, r) != Some([])
  }

  /** The bound the verifier puts on a hybrid signature before it looks for the post-quantum part. */
  predicate LeavesRoom(a: Alg, sig: Bytes) {
    a.keytype.HybSig? ==> |sig| > 4 && |sig| > 4 + DecodeUint32(sig)
  }

  /**
   * Verification accepts what signing produced, for every message, context
   * string and pair of signature lengths. The only signatures it refuses are the
   * hybrid ones that end with their classical part, and those it always refuses.
   */
  lemma SignThenVerify(a: Alg, cl: Classical, pq: Pq, g: ClassicalPair, p: PqPair, verifier: Pkey,
                       s: Operation, v: Operation, api: bool, context: Bytes, tbs: Bytes, r1: nat, r2: nat)
    requires a.Valid() && (a.keytype.HybSig? || a.keytype.Sig?)
    requires PqPairFits(a.qs, p) && (a.keytype.HybSig? ==> PairFits(a.evp, g)) && Laid(a, Generated(a, g, p))
    requires (a.keytype.HybSig? ==> ClassicalSigLaw(cl, g.pkey, verifier)) && PqSigLaw(pq, p) && PqSigLengths(a.qs, pq)
    requires (s == OpSign && v == OpVerify) || (s == OpSignMsg && v == OpVerifyMsg)
    ensures var kv := Generated(a, g, p);
      var sig := Signature(a, cl, pq, kv.privkey.value, kv.classical, SignHashes(s, api), context, tbs, r1, r2);
      sig.Some? ==>
        && (Accepted(a, cl, pq, kv.pubkey.value, Some(verifier), VerifyHashes(v, api), context, sig.value, tbs) <==>
            LeavesRoom(a, sig.value))
        && (PqSigPositive(pq) ==> LeavesRoom(a, sig.value))
  {
    var kv := Generated(a, g, p);
    GeneratedShares(a, g, p);
    hide EncodeUint32, DecodeUint32;
    var hash := SignHashes(s, api);
    var sig := Signature(a, cl, pq, kv.privkey.value, kv.classical, hash, context, tbs, r1, r2);
    if sig.Some? && a.keytype.HybSig? {
      var classic := ClassicalSignature(a, cl, kv.classical, hash, tbs, r1).value;
      var quantum := pq.sign(p.sk, tbs, context, r2).value;
      SplitIsUnique(sig.value, classic, quantum);
      if quantum != [] {
        assert Parts(a, cl, pq, kv.pubkey.value, verifier, hash, context, sig.value, tbs, classic, quantum);
      } else {
        forall x, y ensures !Parts(a, cl, pq, kv.pubkey.value, verifier, hash, context, sig.value, tbs, x, y) {
          if sig.value == EncodeUint32(|x|) + x + y && |x| <= a.evp.lengthSignature {
            SplitIsUnique(sig.value, x, y);
          }
        }
      }
    }
  }

  /** That law cannot be dropped: with a primitive that returns no bytes signing succeeds and verifying does not. */
  lemma EmptyPartExample(g: ClassicalPair, p: PqPair)
    requires g == ClassicalPair(0, [7], [9]) && p == PqPair([5], [3])
    ensures var a := Alg("p256_example", HybSig, false, EvpInfo(false, 1, 1, 1, 1), QsInfo(1, 1, 1, 1, 1, 1));
      var cl := Classical(b => Some(0), b => Some(0), k => [7], (x, y) => None, (k, m, d, r) => Some([1]),
                          (k, m, d, s) => true, (m, d) => []);
      var pq := Pq((k, r) => None, (k, c) => None, (k, m, c, r) => Some([]), (k, m, s, c) => true);
      && Laid(a, Generated(a, g, p))
      && var kv := Generated(a, g, p);
      var sig := Signature(a, cl, pq, kv.privkey.value, kv.classical, false, [], [], 0, 0);
      && sig.Some?
      && !Accepted(a, cl, pq, kv.pubkey.value, Some(0), false, [], sig.value, [])
  {
    var a := Alg("p256_example", HybSig, false, EvpInfo(false, 1, 1, 1, 1), QsInfo(1, 1, 1, 1, 1, 1));
    var cl := Classical(b => Some(0), b => Some(0), k => [7], (x, y) => None, (k, m, d, r) => Some([1]),
                        (k, m, d, s) => true, (m, d) => []);
    var pq := Pq((k, r) => None, (k, c) => None, (k, m, c, r) => Some([]), (k, m, s, c) => true);
    GeneratedOnZeros(a, g, p);
    GeneratedLaid(a, Zeros(a.PrivLen() + 4), Zeros(a.PubLen()), g, p);
    SignThenVerify(a, cl, pq, g, p, 0, OpSign, OpVerify, true, [], [], 0, 0);
  }

  /** The post-quantum shares of a generated key are found where the signature operations look. */
  lemma GeneratedShares(a: Alg, g: ClassicalPair, p: PqPair)
    requires a.Valid() && (a.keytype.HybSig? || a.keytype.Sig?)
    requires PqPairFits(a.qs, p) && (a.keytype.HybSig? ==> PairFits(a.evp, g)) && Laid(a, Generated(a, g, p))
    ensures var kv := Generated(a, g, p);
      SecretShare(a, kv.privkey.value) == p.sk && PublicShare(a, kv.pubkey.value) == p.pk
  {
    if a.keytype.HybSig? {
      var lay := Lay(a.Order(), a.evp.lengthPrivateKey, g.priv, p.sk);
      LaySlices(a.Order(), a.evp.lengthPrivateKey, g.priv, p.sk);
      LaySlices(a.Order(), a.evp.lengthPublicKey, g.pub, p.pk);
      var priv := Generated(a, g, p).privkey.value;
      assert priv[..|lay|] == lay && priv[..4] == priv[..|lay|][..4];
      SliceInPrefix(priv, lay, |lay|, PqOffset(a.Order(), a.evp.lengthPrivateKey, |g.priv|), |p.sk|);
    }
  }
}
