/**
 * The hybrid KEM: a Diffie-Hellman half and a post-quantum half write their
 * shares of one ciphertext and one secret through sub-pointers, in either
 * order.
 */
module HybridKem {
  import opened Bytes
  import opened Primitives
  import opened Layout
  import opened KeyValues
  import opened Keys

  // ------------------------------------------------- what a call computes

  function Join(reversed: bool, classic: Bytes, quantum: Bytes): Bytes {
    if reversed then quantum + classic else classic + quantum
  }

  /** The two halves written at the offsets the provider computes for them. */
  function Place(s: Bytes, reversed: bool, classic: Bytes, quantum: Bytes): (t: Bytes)
    requires |classic| + |quantum| <= |s|
    ensures |t| == |s|
  {
    Splice(Splice(s, if reversed then |quantum| else 0, classic), if reversed then 0 else |classic|, quantum)
  }

  /** Placing the two halves writes their concatenation in share order and nothing else. */
  lemma PlacedIsJoined(s: Bytes, reversed: bool, classic: Bytes, quantum: Bytes)
    requires |classic| + |quantum| <= |s|
    ensures var n := |classic| + |quantum|;
      var t := Place(s, reversed, classic, quantum);
      t[..n] == Join(reversed, classic, quantum) && t[n..] == s[n..]
  {
  }

  function CiphertextLen(a: Alg): nat {
    a.evp.lengthPublicKey + a.qs.lengthCiphertext
  }

  function SecretLen(a: Alg): nat {
    a.evp.kexLengthSecret + a.qs.lengthSharedSecret
  }

  /** The classical half of encapsulation: ephemeral public key and shared secret. */
  function EncapsClassic(a: Alg, cl: Classical, pub: Bytes, eph: Option<Pkey>): Option<(Bytes, Bytes)>
    requires a.IsHybridKem() && |pub| >= a.PubLen()
  {
    var peer := cl.parsePublic(Slice(pub, ClassicOffset(a.Order(), a.qs.lengthPublicKey), a.evp.lengthPublicKey));
    if peer.None? || eph.None? || cl.derive(eph.value, peer.value).None? then None
    else if |cl.encodePublic(eph.value)| != a.evp.lengthPublicKey then None
    else Some((cl.encodePublic(eph.value), cl.derive(eph.value, peer.value).value))
  }

  function EncapsPq(a: Alg, pq: Pq, pub: Bytes, coins: nat): Option<(Bytes, Bytes)>
    requires a.IsHybridKem() && |pub| >= a.PubLen()
  {
    pq.encaps(Slice(pub, PqOffset(a.Order(), a.evp.lengthPublicKey, a.evp.lengthPublicKey), a.qs.lengthPublicKey), coins)
  }

  /** Ciphertext and secret of the hybrid, present only if both halves succeed. */
  function Encaps(a: Alg, cl: Classical, pq: Pq, pub: Bytes, eph: Option<Pkey>, coins: nat): Option<(Bytes, Bytes)>
    requires a.IsHybridKem() && |pub| >= a.PubLen()
  {
    var c, q := EncapsClassic(a, cl, pub, eph), EncapsPq(a, pq, pub, coins);
    if c.None? || q.None? then None
    else Some((Join(a.Reversed(), c.value.0, q.value.0), Join(a.Reversed(), c.value.1, q.value.1)))
  }

  /** The classical half of decapsulation parses the whole private slot, slack included. */
  function DecapsClassic(a: Alg, cl: Classical, priv: Bytes, ct: Bytes): Option<Bytes>
    requires a.IsHybridKem() && |priv| >= a.PrivLen()
  {
    var k := cl.parsePrivate(Slice(priv, ClassicOffset(a.Order(), a.qs.lengthSecretKey), a.evp.lengthPrivateKey));
    var peer := cl.parsePublic(ct);
    if k.None? || peer.None? then None else cl.derive(k.value, peer.value)
  }

  function DecapsPq(a: Alg, pq: Pq, priv: Bytes, ct: Bytes): Option<Bytes>
    requires a.IsHybridKem() && |priv| >= a.PrivLen()
  {
    pq.decaps(Slice(priv, PqOffset(a.Order(), a.evp.lengthPrivateKey, a.evp.lengthPrivateKey), a.qs.lengthSecretKey), ct)
  }

  function ClassicPart(a: Alg, ct: Bytes): Bytes
    requires |ct| == CiphertextLen(a)
  {
    Slice(ct, if a.Reversed() then a.qs.lengthCiphertext else 0, a.evp.lengthPublicKey)
  }

  function PqPart(a: Alg, ct: Bytes): Bytes
    requires |ct| == CiphertextLen(a)
  {
    Slice(ct, if a.Reversed() then 0 else a.evp.lengthPublicKey, a.qs.lengthCiphertext)
  }

  function Decaps(a: Alg, cl: Classical, pq: Pq, priv: Bytes, ct: Bytes): Option<Bytes>
    requires a.IsHybridKem() && |priv| >= a.PrivLen()
  {
    if |ct| != CiphertextLen(a) then None
    else
      var c, q := DecapsClassic(a, cl, priv, ClassicPart(a, ct)), DecapsPq(a, pq, priv, PqPart(a, ct));
      if c.None? || q.None? then None else Some(Join(a.Reversed(), c.value, q.value))
  }

  /**
   * The order on the wire, written out: the classical half first, and on a
   * reversed algorithm the post-quantum half first, in the ciphertext and in the
   * secret alike.
   */
  lemma EncapsWrittenOut(a: Alg, cl: Classical, pq: Pq, pub: Bytes, eph: Option<Pkey>, coins: nat)
    requires a.IsHybridKem() && |pub| >= a.PubLen()
    ensures var pqOff := if a.reverse then 4 else 4 + a.evp.lengthPublicKey;
      var classicOff := if a.reverse then 4 + a.qs.lengthPublicKey else 4;
      var peer := cl.parsePublic(pub[classicOff..classicOff + a.evp.lengthPublicKey]);
      var sent := pq.encaps(pub[pqOff..pqOff + a.qs.lengthPublicKey], coins);
      var r := Encaps(a, cl, pq, pub, eph, coins);
      && (r.Some? <==>
          && eph.Some? && peer.Some? && cl.derive(eph.value, peer.value).Some?
          && |cl.encodePublic(eph.value)| == a.evp.lengthPublicKey && sent.Some?)
      && (r.Some? && !a.reverse ==>
          && r.value.0 == cl.encodePublic(eph.value) + sent.value.0
          && r.value.1 == cl.derive(eph.value, peer.value).value + sent.value.1)
      && (r.Some? && a.reverse ==>
          && r.value.0 == sent.value.0 + cl.encodePublic(eph.value)
          && r.value.1 == sent.value.1 + cl.derive(eph.value, peer.value).value)
  {
  }

  lemma PartsWrittenOut(a: Alg, ct: Bytes)
    requires a.IsHybridKem() && |ct| == CiphertextLen(a)
    ensures ClassicPart(a, ct) == if a.reverse then ct[a.qs.lengthCiphertext..] else ct[..a.evp.lengthPublicKey]
    ensures PqPart(a, ct) == if a.reverse then ct[..a.qs.lengthCiphertext] else ct[a.evp.lengthPublicKey..]
  {
  }

  /** The same for decapsulation: which part of the ciphertext goes to which half, and the order of the secret. */
  lemma DecapsWrittenOut(a: Alg, cl: Classical, pq: Pq, priv: Bytes, ct: Bytes)
    requires a.IsHybridKem() && |priv| >= a.PrivLen()
    ensures var n, m := a.evp.lengthPublicKey, a.qs.lengthCiphertext;
      |ct| != n + m ==> Decaps(a, cl, pq, priv, ct).None?
    ensures var n, m := a.evp.lengthPublicKey, a.qs.lengthCiphertext;
      |ct| == n + m ==>
        var pqOff := if a.reverse then 4 else 4 + a.evp.lengthPrivateKey;
        var classicOff := if a.reverse then 4 + a.qs.lengthSecretKey else 4;
        var k := cl.parsePrivate(priv[classicOff..classicOff + a.evp.lengthPrivateKey]);
        var peer := cl.parsePublic(if a.reverse then ct[m..] else ct[..n]);
        var got := pq.decaps(priv[pqOff..pqOff + a.qs.lengthSecretKey], if a.reverse then ct[..m] else ct[n..]);
        var r := Decaps(a, cl, pq, priv, ct);
        && (r.Some? <==> k.Some? && peer.Some? && cl.derive(k.value, peer.value).Some? && got.Some?)
        && (r.Some? && !a.reverse ==> r.value == cl.derive(k.value, peer.value).value + got.value)
        && (r.Some? && a.reverse ==> r.value == got.value + cl.derive(k.value, peer.value).value)
  {
    if |ct| == CiphertextLen(a) {
      PartsWrittenOut(a, ct);
    }
  }

  /** The halves have exactly the lengths their sub-ranges are given. */
  lemma EncapsHalfLengths(a: Alg, cl: Classical, pq: Pq, pub: Bytes, eph: Option<Pkey>, coins: nat)
    requires a.IsHybridKem() && |pub| >= a.PubLen() && DeriveLengths(a.evp, cl) && EncapsLengths(a.qs, pq)
    ensures var c := EncapsClassic(a, cl, pub, eph);
      c.Some? ==> |c.value.0| == a.evp.lengthPublicKey && |c.value.1| == a.evp.kexLengthSecret
    ensures var q := EncapsPq(a, pq, pub, coins);
      q.Some? ==> |q.value.0| == a.qs.lengthCiphertext && |q.value.1| == a.qs.lengthSharedSecret
  {
  }

  lemma DecapsHalfLengths(a: Alg, cl: Classical, pq: Pq, priv: Bytes, ct: Bytes)
    requires a.IsHybridKem() && |priv| >= a.PrivLen() && |ct| == CiphertextLen(a)
    requires DeriveLengths(a.evp, cl) && DecapsLengths(a.qs, pq)
    ensures var c := DecapsClassic(a, cl, priv, ClassicPart(a, ct)); c.Some? ==> |c.value| == a.evp.kexLengthSecret
    ensures var q := DecapsPq(a, pq, priv, PqPart(a, ct)); q.Some? ==> |q.value| == a.qs.lengthSharedSecret
  {
  }

  // -------------------------------------------------------------- keyslots

  /** The two strings differ at most in `n` bytes from `off` on. */
  ghost predicate Within(s: Bytes, t: Bytes, off: nat, n: nat) {
    |s| == |t| && forall i :: 0 <= i < |s| && !(off <= i < off + n) ==> s[i] == t[i]
  }

  /** oqs_evp_kem_encaps_keyslot with output buffers; the sub-pointers are a buffer and an offset. */
  method EvpEncapsKeyslot(key: OqsxKey, cl: Classical, eph: Option<Pkey>, ct: array<byte>, ctOff: nat,
                          secret: array<byte>, secretOff: nat, keyslot: nat)
    returns (ret: int)
    requires key.Valid() && key.alg.IsHybridKem() && PubLaid(key.alg, key.Val()) && key.pubkey != null
    requires keyslot == IdxClassic(key.alg) && DeriveLengths(key.alg.evp, cl)
    requires ctOff + key.alg.evp.lengthPublicKey <= ct.Length && secretOff + key.alg.evp.kexLengthSecret <= secret.Length
    requires ct != secret && ct != key.pubkey && secret != key.pubkey
    modifies ct, secret
    ensures ret == if EncapsClassic(key.alg, cl, key.pubkey[..], eph).Some? then 1 else -1
    ensures ret == 1 ==> var r := EncapsClassic(key.alg, cl, key.pubkey[..], eph).value;
      ct[..] == Splice(old(ct[..]), ctOff, r.0) && secret[..] == Splice(old(secret[..]), secretOff, r.1)
    ensures Within(old(ct[..]), ct[..], ctOff, key.alg.evp.lengthPublicKey)
    ensures Within(old(secret[..]), secret[..], secretOff, key.alg.evp.kexLengthSecret)
  {
    var off := key.compPub[keyslot].off;
    var peer := cl.parsePublic(Slice(key.pubkey[..], off, key.alg.evp.lengthPublicKey));
    if peer.None? || eph.None? {
      return -1;
    }
    var derived := cl.derive(eph.value, peer.value);
    if derived.None? {
      return -1;
    }
    Copy(secret, secretOff, derived.value);
    var encoded := cl.encodePublic(eph.value);
    if |encoded| != key.alg.evp.lengthPublicKey {
      return -1;
    }
    Copy(ct, ctOff, encoded);
    return 1;
  }

  /** oqs_qs_kem_encaps_keyslot without output buffers: the availability check of the length query. */
  method QsEncapsQuery(key: OqsxKey, keyslot: nat) returns (ret: int)
    requires key.Valid() && PubLaid(key.alg, key.Val()) && keyslot < key.alg.NumKeys()
    ensures ret == if key.pubkey != null then 1 else -1
  {
    ret := if key.compPub[keyslot] == Null then -1 else 1;
  }

  /** oqs_qs_kem_encaps_keyslot with output buffers of which `ctLen` and `secretLen` bytes may be used. */
  method QsEncapsKeyslot(key: OqsxKey, pq: Pq, coins: nat, ct: array<byte>, ctOff: nat, ctLen: nat,
                         secret: array<byte>, secretOff: nat, secretLen: nat, keyslot: nat)
    returns (ret: int)
    requires key.Valid() && key.alg.IsHybridKem() && PubLaid(key.alg, key.Val()) && key.pubkey != null
    requires keyslot == IdxPq(key.alg) && EncapsLengths(key.alg.qs, pq)
    requires ctOff + ctLen <= ct.Length && secretOff + secretLen <= secret.Length
    requires ct != secret && ct != key.pubkey && secret != key.pubkey
    modifies ct, secret
    ensures ctLen < key.alg.qs.lengthCiphertext || secretLen < key.alg.qs.lengthSharedSecret ==>
      ret == -1 && ct[..] == old(ct[..]) && secret[..] == old(secret[..])
    ensures ctLen >= key.alg.qs.lengthCiphertext && secretLen >= key.alg.qs.lengthSharedSecret ==>
      var r := EncapsPq(key.alg, pq, key.pubkey[..], coins);
      && ret == (if r.Some? then 1 else 0)
      && ct[..] == (if r.Some? then Splice(old(ct[..]), ctOff, r.value.0) else old(ct[..]))
      && secret[..] == (if r.Some? then Splice(old(secret[..]), secretOff, r.value.1) else old(secret[..]))
  {
    if ctLen < key.alg.qs.lengthCiphertext {
      return -1;
    }
    if secretLen < key.alg.qs.lengthSharedSecret {
      return -1;
    }
    var off := key.compPub[keyslot].off;
    var r := pq.encaps(Slice(key.pubkey[..], off, key.alg.qs.lengthPublicKey), coins);
    if r.None? {
      return 0;
    }
    Copy(ct, ctOff, r.value.0);
    Copy(secret, secretOff, r.value.1);
    return 1;
  }

  /**
   * oqs_hyb_kem_encaps: lengths always, the two halves into their own sub-ranges
   * if both buffers are given. The lengths the caller passes in, `ctCap` and
   * `secretCap`, are overwritten without being compared with anything; `overrun`
   * says that the call goes on to write into buffers that are too small, after
   * which nothing is promised.
   */
  method HybKemEncaps(key: OqsxKey, cl: Classical, pq: Pq, eph: Option<Pkey>, coins: nat,
                      ct: array?<byte>, ctCap: nat, secret: array?<byte>, secretCap: nat)
    returns (ret: int, ctLen: nat, secretLen: nat, overrun: bool)
    requires key.Valid() && key.alg.IsHybridKem() && PubLaid(key.alg, key.Val())
    requires DeriveLengths(key.alg.evp, cl) && EncapsLengths(key.alg.qs, pq)
    requires ct != null && secret != null ==> ct != secret && ct != key.pubkey && secret != key.pubkey
    modifies ct, secret
    ensures overrun <==>
      key.pubkey != null && ct != null && secret != null && (ct.Length < CiphertextLen(key.alg) || secret.Length < SecretLen(key.alg))
    ensures key.pubkey == null ==> ret == -1 && ctLen == ctCap && secretLen == secretCap
    ensures key.pubkey != null ==> ctLen == CiphertextLen(key.alg) && secretLen == SecretLen(key.alg)
    ensures key.pubkey == null || ct == null || secret == null ==>
      (ct != null ==> ct[..] == old(ct[..])) && (secret != null ==> secret[..] == old(secret[..]))
    ensures key.pubkey != null && (ct == null || secret == null) ==> ret == 1
    ensures key.pubkey != null && ct != null && secret != null && !overrun ==>
      var r := Encaps(key.alg, cl, pq, key.pubkey[..], eph, coins);
      && ret == (if r.Some? then 1 else -1)
      && (r.Some? ==> ct[..ctLen] == r.value.0 && secret[..secretLen] == r.value.1)
      && ct[ctLen..] == old(ct[..])[CiphertextLen(key.alg)..] && secret[secretLen..] == old(secret[..])[SecretLen(key.alg)..]
    ensures key.pubkey != null ==>
      ctLen == key.alg.evp.lengthPublicKey + key.alg.qs.lengthCiphertext &&
      secretLen == key.alg.evp.kexLengthSecret + key.alg.qs.lengthSharedSecret
    ensures key.pubkey != null && ct != null && secret != null && !overrun && ret == 1 ==>
      var c, q := EncapsClassic(key.alg, cl, key.pubkey[..], eph), EncapsPq(key.alg, pq, key.pubkey[..], coins);
      && c.Some? && q.Some?
      && (if key.alg.reverse then ct[..ctLen] == q.value.0 + c.value.0 && secret[..secretLen] == q.value.1 + c.value.1
          else ct[..ctLen] == c.value.0 + q.value.0 && secret[..secretLen] == c.value.1 + q.value.1)
  {
    hide DecodeUint32, Splice, EncapsClassic, EncapsPq, Place, DeriveLengths, EncapsLengths, Slots;
    ctLen, secretLen, overrun := ctCap, secretCap, false;
    var ctLenClassical, secretLenClassical := key.alg.evp.lengthPublicKey, key.alg.evp.kexLengthSecret;
    ret := QsEncapsQuery(key, if key.reverseShare then 0 else 1);
    if ret <= 0 {
      return -1, ctLen, secretLen, overrun;
    }
    var ctLenPq, secretLenPq := key.alg.qs.lengthCiphertext, key.alg.qs.lengthSharedSecret;
    ctLen := ctLenClassical + ctLenPq;
    secretLen := secretLenClassical + secretLenPq;
    if ct == null || secret == null {
      return 1, ctLen, secretLen, overrun;
    }
    if ct.Length < ctLen || secret.Length < secretLen {
      return -1, ctLen, secretLen, true;
    }
    ghost var ct0, secret0 := ct[..], secret[..];
    ghost var c, q := EncapsClassic(key.alg, cl, key.pubkey[..], eph), EncapsPq(key.alg, pq, key.pubkey[..], coins);
    ret := EncapsHalves(key, cl, pq, eph, coins, ct, secret);
    assert ct[ctLen..] == ct0[ctLen..] && secret[secretLen..] == secret0[secretLen..];
    if ret == 1 {
      PlacedIsJoined(ct0, key.alg.Reversed(), c.value.0, q.value.0);
      PlacedIsJoined(secret0, key.alg.Reversed(), c.value.1, q.value.1);
    }
  }

  /** The two halves of oqs_hyb_kem_encaps, each into its own sub-range of both buffers. */
  method EncapsHalves(key: OqsxKey, cl: Classical, pq: Pq, eph: Option<Pkey>, coins: nat,
                      ct: array<byte>, secret: array<byte>)
    returns (ret: int)
    requires key.Valid() && key.alg.IsHybridKem() && PubLaid(key.alg, key.Val()) && key.pubkey != null
    requires DeriveLengths(key.alg.evp, cl) && EncapsLengths(key.alg.qs, pq)
    requires ct.Length >= CiphertextLen(key.alg) && secret.Length >= SecretLen(key.alg)
    requires ct != secret && ct != key.pubkey && secret != key.pubkey
    modifies ct, secret
    ensures var c, q := EncapsClassic(key.alg, cl, key.pubkey[..], eph), EncapsPq(key.alg, pq, key.pubkey[..], coins);
      && ret == (if c.Some? && q.Some? then 1 else -1)
      && (c.Some? ==> |c.value.0| == key.alg.evp.lengthPublicKey && |c.value.1| == key.alg.evp.kexLengthSecret)
      && (q.Some? ==> |q.value.0| == key.alg.qs.lengthCiphertext && |q.value.1| == key.alg.qs.lengthSharedSecret)
      && (c.Some? && q.Some? ==>
          && ct[..] == Place(old(ct[..]), key.alg.Reversed(), c.value.0, q.value.0)
          && secret[..] == Place(old(secret[..]), key.alg.Reversed(), c.value.1, q.value.1))
    ensures Within(old(ct[..]), ct[..], 0, CiphertextLen(key.alg))
    ensures Within(old(secret[..]), secret[..], 0, SecretLen(key.alg))
  {
    hide DecodeUint32, Splice, EncapsClassic, EncapsPq, DeriveLengths, EncapsLengths, Slots, Join;
    EncapsHalfLengths(key.alg, cl, pq, key.pubkey[..], eph, coins);
    var ctLenClassical, secretLenClassical := key.alg.evp.lengthPublicKey, key.alg.evp.kexLengthSecret;
    var ctLenPq, secretLenPq := key.alg.qs.lengthCiphertext, key.alg.qs.lengthSharedSecret;
    var ctClassical, ctPq, secretClassical, secretPq := 0, ctLenClassical, 0, secretLenClassical;
    if key.reverseShare {
      ctPq, ctClassical := 0, ctLenPq;
      secretPq, secretClassical := 0, secretLenPq;
    }
    ret := EvpEncapsKeyslot(key, cl, eph, ct, ctClassical, secret, secretClassical, if key.reverseShare then 1 else 0);
    if ret <= 0 {
      return -1;
    }
    ret := QsEncapsKeyslot(key, pq, coins, ct, ctPq, ctLenPq, secret, secretPq, secretLenPq,
                           if key.reverseShare then 0 else 1);
    if ret <= 0 {
      return -1;
    }
  }

  /** oqs_evp_kem_decaps_keyslot with an output buffer. */
  method EvpDecapsKeyslot(key: OqsxKey, cl: Classical, secret: array<byte>, secretOff: nat, ct: Bytes, keyslot: nat)
    returns (ret: int)
    requires key.Valid() && key.alg.IsHybridKem() && PrivLaid(key.alg, key.Val()) && key.privkey != null
    requires keyslot == IdxClassic(key.alg) && DeriveLengths(key.alg.evp, cl)
    requires secretOff + key.alg.evp.kexLengthSecret <= secret.Length && secret != key.privkey
    modifies secret
    ensures var r := DecapsClassic(key.alg, cl, key.privkey[..], ct);
      && ret == (if r.Some? then 1 else -1)
      && secret[..] == (if r.Some? then Splice(old(secret[..]), secretOff, r.value) else old(secret[..]))
    ensures Within(old(secret[..]), secret[..], secretOff, key.alg.evp.kexLengthSecret)
  {
    var off := key.compPriv[keyslot].off;
    var pkey := cl.parsePrivate(Slice(key.privkey[..], off, key.alg.evp.lengthPrivateKey));
    if pkey.None? {
      return -1;
    }
    var peer := cl.parsePublic(ct);
    if peer.None? {
      return -1;
    }
    var derived := cl.derive(pkey.value, peer.value);
    if derived.None? {
      return -1;
    }
    Copy(secret, secretOff, derived.value);
    return 1;
  }

  /** oqs_qs_kem_decaps_keyslot with an output buffer of which `secretLen` bytes may be used. */
  method QsDecapsKeyslot(key: OqsxKey, pq: Pq, secret: array<byte>, secretOff: nat, secretLen: nat, ct: Bytes, keyslot: nat)
    returns (ret: int)
    requires key.Valid() && key.alg.IsHybridKem() && PrivLaid(key.alg, key.Val()) && key.privkey != null
    requires keyslot == IdxPq(key.alg) && DecapsLengths(key.alg.qs, pq)
    requires secretOff + secretLen <= secret.Length && secret != key.privkey
    modifies secret
    ensures |ct| != key.alg.qs.lengthCiphertext ==> ret == 0 && secret[..] == old(secret[..])
    ensures |ct| == key.alg.qs.lengthCiphertext && secretLen < key.alg.qs.lengthSharedSecret ==>
      ret == -1 && secret[..] == old(secret[..])
    ensures |ct| == key.alg.qs.lengthCiphertext && secretLen >= key.alg.qs.lengthSharedSecret ==>
      var r := DecapsPq(key.alg, pq, key.privkey[..], ct);
      && ret == (if r.Some? then 1 else 0)
      && secret[..] == (if r.Some? then Splice(old(secret[..]), secretOff, r.value) else old(secret[..]))
  {
    if |ct| != key.alg.qs.lengthCiphertext {
      return 0;
    }
    if secretLen < key.alg.qs.lengthSharedSecret {
      return -1;
    }
    var off := key.compPriv[keyslot].off;
    var r := pq.decaps(Slice(key.privkey[..], off, key.alg.qs.lengthSecretKey), ct);
    if r.None? {
      return 0;
    }
    Copy(secret, secretOff, r.value);
    return 1;
  }

  /** oqs_hyb_kem_decaps */
  method HybKemDecaps(key: OqsxKey, cl: Classical, pq: Pq, secret: array?<byte>, ct: Bytes)
    returns (ret: int, secretLen: nat)
    requires key.Valid() && key.alg.IsHybridKem() && PrivLaid(key.alg, key.Val())
    requires DeriveLengths(key.alg.evp, cl) && DecapsLengths(key.alg.qs, pq)
    requires secret != null ==> secret.Length >= SecretLen(key.alg) && secret != key.privkey
    modifies secret
    ensures key.privkey == null ==> ret == -1
    ensures key.privkey != null ==> secretLen == SecretLen(key.alg)
    ensures key.privkey != null && secret == null ==> ret == 1
    ensures key.privkey == null && secret != null ==> secret[..] == old(secret[..])
    ensures key.privkey != null && secret != null ==>
      var r := Decaps(key.alg, cl, pq, key.privkey[..], ct);
      && ret == (if r.Some? then 1 else -1)
      && (r.Some? ==> secret[..secretLen] == r.value)
      && secret[secretLen..] == old(secret[SecretLen(key.alg)..])
    ensures key.privkey != null && secret != null && ret == 1 ==>
      |ct| == CiphertextLen(key.alg) &&
      var c := DecapsClassic(key.alg, cl, key.privkey[..], if key.alg.reverse then ct[key.alg.qs.lengthCiphertext..] else ct[..key.alg.evp.lengthPublicKey]);
      var q := DecapsPq(key.alg, pq, key.privkey[..], if key.alg.reverse then ct[..key.alg.qs.lengthCiphertext] else ct[key.alg.evp.lengthPublicKey..]);
      && c.Some? && q.Some?
      && secret[..secretLen] == (if key.alg.reverse then q.value + c.value else c.value + q.value)
  {
    secretLen := 0;
    var keyslot := if key.reverseShare then 0 else 1;
    if key.compPriv[keyslot] == Null {
      return -1, secretLen;
    }
    var secretLenClassical, secretLenPq := key.alg.evp.kexLengthSecret, key.alg.qs.lengthSharedSecret;
    secretLen := secretLenClassical + secretLenPq;
    if secret == null {
      return 1, secretLen;
    }
    var ctLenClassical, ctLenPq := key.alg.evp.lengthPublicKey, key.alg.qs.lengthCiphertext;
    if ctLenClassical + ctLenPq != |ct| {
      return -1, secretLen;
    }
    ghost var secret0 := secret[..];
    ghost var c := DecapsClassic(key.alg, cl, key.privkey[..], ClassicPart(key.alg, ct));
    ghost var q := DecapsPq(key.alg, pq, key.privkey[..], PqPart(key.alg, ct));
    PartsWrittenOut(key.alg, ct);
    ret := DecapsHalves(key, cl, pq, secret, ct);
    assert secret[secretLen..] == secret0[secretLen..];
    if ret == 1 {
      PlacedIsJoined(secret0, key.alg.Reversed(), c.value, q.value);
    }
  }

  /** The two halves of oqs_hyb_kem_decaps. */
  method DecapsHalves(key: OqsxKey, cl: Classical, pq: Pq, secret: array<byte>, ct: Bytes) returns (ret: int)
    requires key.Valid() && key.alg.IsHybridKem() && PrivLaid(key.alg, key.Val()) && key.privkey != null
    requires DeriveLengths(key.alg.evp, cl) && DecapsLengths(key.alg.qs, pq)
    requires |ct| == CiphertextLen(key.alg) && secret.Length >= SecretLen(key.alg) && secret != key.privkey
    modifies secret
    ensures var c := DecapsClassic(key.alg, cl, key.privkey[..], ClassicPart(key.alg, ct));
      var q := DecapsPq(key.alg, pq, key.privkey[..], PqPart(key.alg, ct));
      && ret == (if c.Some? && q.Some? then 1 else -1)
      && (c.Some? ==> |c.value| == key.alg.evp.kexLengthSecret)
      && (q.Some? ==> |q.value| == key.alg.qs.lengthSharedSecret)
      && (c.Some? && q.Some? ==> secret[..] == Place(old(secret[..]), key.alg.Reversed(), c.value, q.value))
    ensures Within(old(secret[..]), secret[..], 0, SecretLen(key.alg))
  {
    hide DecodeUint32, Splice, DecapsClassic, DecapsPq, DeriveLengths, DecapsLengths, Slots, Join;
    DecapsHalfLengths(key.alg, cl, pq, key.privkey[..], ct);
    var ctLenClassical, ctLenPq := key.alg.evp.lengthPublicKey, key.alg.qs.lengthCiphertext;
    var secretLenClassical, secretLenPq := key.alg.evp.kexLengthSecret, key.alg.qs.lengthSharedSecret;
    var ctClassical, ctPq, secretClassical, secretPq := 0, ctLenClassical, 0, secretLenClassical;
    if key.reverseShare {
      ctPq, ctClassical := 0, ctLenPq;
      secretPq, secretClassical := 0, secretLenPq;
    }
    ret := EvpDecapsKeyslot(key, cl, secret, secretClassical, Slice(ct, ctClassical, ctLenClassical),
                            if key.reverseShare then 1 else 0);
    if ret <= 0 {
      return -1;
    }
    ret := QsDecapsKeyslot(key, pq, secret, secretPq, secretLenPq, Slice(ct, ctPq, ctLenPq),
                           if key.reverseShare then 0 else 1);
    if ret <= 0 {
      return -1;
    }
  }

  // ------------------------------------------------------------- agreement

  /** Joining and splitting a ciphertext. */
  lemma PartsOfJoin(a: Alg, classic: Bytes, quantum: Bytes)
    requires |classic| == a.evp.lengthPublicKey && |quantum| == a.qs.lengthCiphertext
    ensures var ct := Join(a.Reversed(), classic, quantum);
      |ct| == CiphertextLen(a) && ClassicPart(a, ct) == classic && PqPart(a, ct) == quantum
  {
  }

  /** The slot of a slotted buffer is the classical share followed by the slack. */
  lemma SlotOfLay(o: Order, max: nat, c: Bytes, q: Bytes, extra: Bytes)
    requires |c| <= max && !o.Packed?
    ensures Slice(Lay(o, max, c, q) + extra, ClassicOffset(o, |q|), max) == c + Zeros(max - |c|)
    ensures Slice(Lay(o, max, c, q) + extra, PqOffset(o, max, max), |q|) == q
  {
    hide EncodeUint32;
    var e, z := EncodeUint32(|c|), Zeros(max - |c|);
    if o.PqFirst? {
      FourPieces(e, q, c + z, extra);
      assert Lay(o, max, c, q) + extra == e + q + (c + z) + extra;
    } else {
      FourPieces(e, c + z, q, extra);
      assert Lay(o, max, c, q) + extra == e + (c + z) + q + extra;
    }
  }

  /** After A's share is installed, B's public slots hold exactly A's public shares, the classical one with its slack. */
  lemma InstalledShares(a: Alg, g: ClassicalPair, p: PqPair, peer: KeyVal)
    requires a.Valid() && a.IsHybridKem() && PqPairFits(a.qs, p) && PairFits(a.evp, g)
    requires PubLaid(a, peer) && peer.pubkey.Some? && PubLaid(a, Generated(a, g, p))
    ensures var r := Install(a, peer, Share(a, Generated(a, g, p)));
      var max := a.evp.lengthPublicKey;
      && r.Some? && r.value.pubkey.Some? && PubLaid(a, r.value)
      && Slice(r.value.pubkey.value, ClassicOffset(a.Order(), a.qs.lengthPublicKey), max) == g.pub + Zeros(max - |g.pub|)
      && Slice(r.value.pubkey.value, PqOffset(a.Order(), max, max), |p.pk|) == p.pk
  {
    hide EncodeUint32, DecodeUint32, Zeros;
    var o, mine, max := a.Order(), Generated(a, g, p).pubkey.value, a.evp.lengthPublicKey;
    var r := Install(a, peer, Share(a, Generated(a, g, p))).value.pubkey.value;
    SlotOfLay(o, max, g.pub, p.pk, []);
    assert mine == mine + [];
    assert r[4..a.PubLen()] == mine[4..a.PubLen()];
    SliceBehindHeader(r, mine, a.PubLen(), ClassicOffset(o, |p.pk|), max);
    SliceBehindHeader(r, mine, a.PubLen(), PqOffset(o, max, max), |p.pk|);
  }

  /** A public share that fills its slot parses as it does alone. */
  lemma FullSlotParses(a: Alg, cl: Classical, g: ClassicalPair)
    requires |g.pub| == a.evp.lengthPublicKey
    ensures PaddedShareParses(a.evp, cl, g)
  {
    assert g.pub + Zeros(0) == g.pub;
  }

  /** What the holder of a generated key finds in its private slots. */
  lemma OwnShares(a: Alg, cl: Classical, g: ClassicalPair, p: PqPair)
    requires a.Valid() && a.IsHybridKem() && PqPairFits(a.qs, p) && PairFits(a.evp, g) && PairLaw(a.evp, cl, g)
    ensures var priv := Generated(a, g, p).privkey.value;
      var max := a.evp.lengthPrivateKey;
      && cl.parsePrivate(Slice(priv, ClassicOffset(a.Order(), |p.sk|), max)) == Some(g.pkey)
      && Slice(priv, PqOffset(a.Order(), max, max), |p.sk|) == p.sk
  {
    var max := a.evp.lengthPrivateKey;
    SlotOfLay(a.Order(), max, g.priv, p.sk, Zeros(4));
    assert g.priv + Zeros(0) == g.priv;
  }

  /**
   * End-to-end agreement, in either share order and for any lengths. A generates
   * a key; B, holding a key of the same algorithm with components set, installs
   * A's encoded public share and encapsulates; A decapsulates. B succeeds exactly
   * when the post-quantum half does, the ciphertext and the secret are the two
   * halves side by side, and A recovers B's secret.
   */
  lemma HybridKemAgreement(a: Alg, cl: Classical, pq: Pq, g: ClassicalPair, p: PqPair, peer: KeyVal, y: Pkey, coins: nat)
    requires a.Valid() && a.IsHybridKem()
    requires PqPairFits(a.qs, p) && PairFits(a.evp, g) && PairLaw(a.evp, cl, g)
    requires PaddedShareParses(a.evp, cl, g)
    requires PubLaid(a, peer) && peer.pubkey.Some?
    requires DhLaw(a.evp, cl, g.pkey, y) && |cl.encodePublic(y)| == a.evp.lengthPublicKey
    requires KemLaw(pq, p) && EncapsLengths(a.qs, pq)
    ensures Laid(a, Generated(a, g, p))
    ensures var mine := Generated(a, g, p);
      var theirs := Install(a, peer, Share(a, mine));
      && theirs.Some? && theirs.value.pubkey.Some? && theirs.value.privkey.None?
      && var sent := Encaps(a, cl, pq, theirs.value.pubkey.value, Some(y), coins);
      && (sent.Some? <==> pq.encaps(p.pk, coins).Some?)
      && (sent.Some? ==>
          && |sent.value.0| == CiphertextLen(a) && |sent.value.1| == SecretLen(a)
          && (var classic, quantum := cl.encodePublic(y), pq.encaps(p.pk, coins).value.0;
              sent.value.0 == if a.reverse then quantum + classic else classic + quantum)
          && (var classic, quantum := cl.derive(y, cl.parsePublic(g.pub).value).value, pq.encaps(p.pk, coins).value.1;
              sent.value.1 == if a.reverse then quantum + classic else classic + quantum)
          && Decaps(a, cl, pq, mine.privkey.value, sent.value.0) == Some(sent.value.1))
  {
    GeneratedOnZeros(a, g, p);
    GeneratedLaid(a, Zeros(a.PrivLen() + 4), Zeros(a.PubLen()), g, p);
    hide EncodeUint32, DecodeUint32;
    InstalledShares(a, g, p, peer);
    OwnShares(a, cl, g, p);
    var sentPq := pq.encaps(p.pk, coins);
    if sentPq.Some? {
      PartsOfJoin(a, cl.encodePublic(y), sentPq.value.0);
    }
  }
}
