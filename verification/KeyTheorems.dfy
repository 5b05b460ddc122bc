/**
 * What the key container promises across operations: the layout invariant, the
 * private-key round trip and its converse, export and import, and the
 * component views. Each law that the code keeps only on some keys is stated
 * with the exact condition.
 */
module KeyTheorems {
  import opened Bytes
  import opened Primitives
  import opened Layout
  import opened KeyValues

  // -------------------------------------------------------- layout invariant

  /** Two shares of a buffer of `total` bytes: both behind the header, inside the buffer, and disjoint. */
  predicate WellPlaced(co: nat, classic: nat, qo: nat, quantum: nat, total: nat) {
    && 4 <= co && co + classic <= total
    && 4 <= qo && qo + quantum <= total
    && (co + classic <= qo || qo + quantum <= co)
  }

  /** The classical share's room: its actual length when packed, its slot otherwise. */
  function ClassicRoom(a: Alg, max: nat, header: nat): nat {
    if a.IsHybridKem() then max else header
  }

  /** The entries of a component array keep the distance the layout gives them. */
  lemma SlotsApart(a: Alg, max: nat, pq: nat, c: nat)
    requires a.IsHybrid() && (a.IsHybridKem() || c <= max)
    ensures WellPlaced(ClassicOffset(a.Order(), pq), ClassicRoom(a, max, c), PqOffset(a.Order(), max, c), pq, 4 + max + pq)
  {
    SharesApart(a.Order(), max, pq, ClassicRoom(a, max, c));
    PqPlace(a.Order(), max, c, ClassicRoom(a, max, c));
    hide ClassicOffset, PqOffset;
  }

  /** Only in a packed buffer does the post-quantum share move with the header. */
  lemma PqPlace(o: Order, max: nat, c: nat, d: nat)
    ensures PqOffset(o, max, c) == PqOffset(o, max, d) <==> !o.Packed? || c == d
  {
  }

  /** In a laid-out hybrid key the indexed component pointers of each present buffer are well placed. */
  lemma LaidIsWellPlaced(a: Alg, kv: KeyVal)
    requires a.Valid() && a.IsHybrid() && Laid(a, kv)
    ensures kv.privkey.Some? ==>
      && kv.compPriv[IdxClassic(a)].At? && kv.compPriv[IdxPq(a)].At?
      && WellPlaced(kv.compPriv[IdxClassic(a)].off,
           ClassicRoom(a, a.evp.lengthPrivateKey, Header(a, kv.privkey.value)),
           kv.compPriv[IdxPq(a)].off, a.qs.lengthSecretKey, a.PrivLen())
    ensures kv.pubkey.Some? ==>
      && kv.compPub[IdxClassic(a)].At? && kv.compPub[IdxPq(a)].At?
      && WellPlaced(kv.compPub[IdxClassic(a)].off,
           ClassicRoom(a, a.evp.lengthPublicKey, Header(a, kv.pubkey.value)),
           kv.compPub[IdxPq(a)].off, a.qs.lengthPublicKey, a.PubLen())
    ensures (kv.privkey.None? ==> kv.compPriv[IdxClassic(a)] == kv.compPriv[IdxPq(a)] == Null)
         && (kv.pubkey.None? ==> kv.compPub[IdxClassic(a)] == kv.compPub[IdxPq(a)] == Null)
  {
    hide DecodeUint32, ClassicOffset, PqOffset;
    if kv.privkey.Some? {
      SlotsApart(a, a.evp.lengthPrivateKey, a.qs.lengthSecretKey, Header(a, kv.privkey.value));
    }
    if kv.pubkey.Some? {
      SlotsApart(a, a.evp.lengthPublicKey, a.qs.lengthPublicKey, Header(a, kv.pubkey.value));
    }
  }

  /** Both decoders establish the layout invariant, with stored lengths in range. */
  lemma DecodedIsLaid(a: Alg, cl: Classical, p: Bytes)
    requires a.Valid()
    ensures var r := DecodePublic(a, cl, p);
      r.Some? ==> Laid(a, r.value) && PrivHeaderOk(a, r.value) && PubHeaderOk(a, r.value)
    ensures var r := DecodePrivate(a, cl, p);
      r.Some? ==> Laid(a, r.value) && PrivHeaderOk(a, r.value) && PubHeaderOk(a, r.value)
  {
    var r := DecodePrivate(a, cl, p);
    if r.Some? && a.IsHybrid() {
      var c, used := DecodeUint32(p), |p| - a.qs.lengthPublicKey;
      assert r.value.privkey.value[..4] == p[..4];
      LaySlices(a.Order(), a.evp.lengthPublicKey, cl.encodePublic(r.value.classical.value), p[used..]);
    }
  }

  /**
   * Import establishes the layout invariant and a private header in range. The
   * public header is in range exactly when the imported one was; only for a
   * hybrid KEM key imported together with a private key is it not looked at.
   */
  lemma ImportedIsLaid(a: Alg, cl: Classical, kv: KeyVal, priv: Option<Bytes>, pub: Option<Bytes>, includePrivate: bool)
    requires a.Valid()
    requires kv.privkey.Some? ==> |kv.privkey.value| >= a.PrivLen()
    requires kv.pubkey.Some? ==> |kv.pubkey.value| >= a.PubLen()
    requires FromData(a, cl, kv, priv, pub, includePrivate).Some?
    ensures var r := FromData(a, cl, kv, priv, pub, includePrivate).value;
      var p, q := Chosen(priv, includePrivate, kv.privkey), Chosen(pub, true, kv.pubkey);
      && Laid(a, r) && PrivHeaderOk(a, r)
      && (PubHeaderOk(a, r) <==> (a.IsHybridKem() && p.Some? && q.Some? ==> Header(a, q.value) <= a.evp.lengthPublicKey))
  {
    var r := FromData(a, cl, kv, priv, pub, includePrivate).value;
    var p, q := Chosen(priv, includePrivate, kv.privkey), Chosen(pub, true, kv.pubkey);
    if a.IsHybrid() && p.Some? && q.Some? {
      HeaderKept(q.value, ClassicOffset(a.Order(), a.qs.lengthPublicKey), cl.encodePublic(r.classical.value));
    }
  }

  /**
   * The import reads a null buffer exactly when none of the parameters is refused
   * and the key ends up with no buffer to rebuild its classical key from.
   */
  lemma NullReadExactly(a: Alg, kv: KeyVal, priv: Option<Bytes>, pub: Option<Bytes>, includePrivate: bool)
    ensures ReadsNull(a, kv, priv, pub, includePrivate) <==>
      && a.IsHybrid() && (priv.Some? || pub.Some?)
      && (priv.Some? && includePrivate ==> |priv.value| == a.PrivLen()) && (pub.Some? ==> |pub.value| == a.PubLen())
      && Chosen(priv, includePrivate, kv.privkey).None? && Chosen(pub, true, kv.pubkey).None?
  {
  }

  /** Such an import: the public header says 2^32 - 1, and the key is accepted. */
  lemma UncheckedHeaderExample()
    ensures var a := Alg("p256_example", EcpHybKem, false, EvpInfo(false, 1, 1, 1, 1), QsInfo(1, 1, 1, 1, 1, 1));
      var cl := Classical(b => Some(0), b => Some(0), k => [7], (x, y) => None, (k, m, d, r) => None,
                          (k, m, d, s) => false, (m, d) => []);
      var priv, pub := Some([0, 0, 0, 1, 9, 3]), Some([255, 255, 255, 255, 7, 5]);
      var r := FromData(a, cl, KeyVal(None, None, Nulls(2), Nulls(2), None), priv, pub, true);
      a.Valid() && r.Some? && Laid(a, r.value) && !PubHeaderOk(a, r.value)
  {
    var a := Alg("p256_example", EcpHybKem, false, EvpInfo(false, 1, 1, 1, 1), QsInfo(1, 1, 1, 1, 1, 1));
    var cl := Classical(b => Some(0), b => Some(0), k => [7], (x, y) => None, (k, m, d, r) => None,
                        (k, m, d, s) => false, (m, d) => []);
    var priv, pub := Some([0, 0, 0, 1, 9, 3]), Some([255, 255, 255, 255, 7, 5]);
    var empty := KeyVal(None, None, Nulls(2), Nulls(2), None);
    assert DecodeUint32(priv.value) == 1 && DecodeUint32(pub.value) == TWO_TO_THE_32 - 1;
    ImportedIsLaid(a, cl, empty, priv, pub, true);
  }

  /**
   * What an import that succeeds was given, and what it leaves: each parameter it
   * uses has exactly its nominal length and is stored as it came, but for the
   * classical public share, which is derived again from a private key.
   */
  lemma ImportedBuffers(a: Alg, cl: Classical, kv: KeyVal, priv: Option<Bytes>, pub: Option<Bytes>, includePrivate: bool)
    requires kv.privkey.Some? ==> |kv.privkey.value| >= a.PrivLen()
    requires kv.pubkey.Some? ==> |kv.pubkey.value| >= a.PubLen()
    requires FromData(a, cl, kv, priv, pub, includePrivate).Some?
    ensures (priv.Some? || pub.Some?) && (pub.Some? ==> |pub.value| == a.PubLen())
    ensures priv.Some? && includePrivate ==> |priv.value| == a.PrivLen()
    ensures var r := FromData(a, cl, kv, priv, pub, includePrivate).value;
      var before := if pub.Some? then pub else kv.pubkey;
      && r.privkey == (if priv.Some? && includePrivate then priv else kv.privkey)
      && (!a.IsHybrid() || r.privkey.None? ==> r.pubkey == before)
      && (a.IsHybrid() && r.privkey.Some? && before.Some? ==>
          var off := if a.Reversed() then 4 + a.qs.lengthPublicKey else 4;
          && r.classical.Some? && r.pubkey.Some? && |r.pubkey.value| == |before.value|
          && r.pubkey.value[off..off + a.evp.lengthPublicKey] == cl.encodePublic(r.classical.value)
          && forall i :: 0 <= i < |before.value| && !(off <= i < off + a.evp.lengthPublicKey) ==> r.pubkey.value[i] == before.value[i])
  {
    hide DecodeUint32, Slots, ParsedShare;
  }

  /**
   * Where the classical key of an import comes from: from the private buffer if
   * there is one, else from the public one, as many bytes as its header says.
   */
  lemma ImportedClassicalKey(a: Alg, cl: Classical, kv: KeyVal, priv: Option<Bytes>, pub: Option<Bytes>, includePrivate: bool)
    requires kv.privkey.Some? ==> |kv.privkey.value| >= a.PrivLen()
    requires kv.pubkey.Some? ==> |kv.pubkey.value| >= a.PubLen()
    requires FromData(a, cl, kv, priv, pub, includePrivate).Some?
    ensures var r := FromData(a, cl, kv, priv, pub, includePrivate).value;
      if !a.IsHybrid() then r.classical == kv.classical
      else if r.privkey.Some? then
        var b, off := r.privkey.value, if a.Reversed() then 4 + a.qs.lengthSecretKey else 4;
        && 4 <= |b| && DecodeUint32(b) <= a.evp.lengthPrivateKey && off + DecodeUint32(b) <= |b|
        && r.classical.Some? && r.classical == cl.parsePrivate(b[off..off + DecodeUint32(b)])
        && |cl.encodePublic(r.classical.value)| == a.evp.lengthPublicKey
      else
        r.pubkey.Some? &&
        var b, off := r.pubkey.value, if a.Reversed() then 4 + a.qs.lengthPublicKey else 4;
        && 4 <= |b| && DecodeUint32(b) <= a.evp.lengthPublicKey && off + DecodeUint32(b) <= |b|
        && r.classical.Some? && r.classical == cl.parsePublic(b[off..off + DecodeUint32(b)])
  {
    hide DecodeUint32, Slots;
  }

  /**
   * What a rebuild from a private buffer leaves when it is refused: with a header
   * out of range everything stays; a share that does not parse clears the
   * classical key; a key whose public part does not fill its slot is kept, and
   * that part is written over the start of the slot unless it is raw.
   */
  lemma RefusedRebuild(a: Alg, cl: Classical, priv: Bytes, pub: Bytes, previous: Option<Pkey>)
    requires a.IsHybrid() && |priv| >= a.PrivLen() && |pub| >= a.PubLen() && Rebuilt(a, cl, priv, true).None?
    ensures var off, pubOff := if a.Reversed() then 4 + a.qs.lengthSecretKey else 4, if a.Reversed() then 4 + a.qs.lengthPublicKey else 4;
      var n := DecodeUint32(priv);
      if n > a.evp.lengthPrivateKey then
        KeyAfter(a, cl, priv, true, previous) == previous && PubAfter(a, cl, priv, pub) == Some(pub)
      else
        off + n <= |priv| &&
        var k := cl.parsePrivate(priv[off..off + n]);
        && KeyAfter(a, cl, priv, true, previous) == k
        && (k.None? ==> PubAfter(a, cl, priv, pub) == Some(pub))
        && (k.Some? ==>
            var d := cl.encodePublic(k.value);
            && |d| != a.evp.lengthPublicKey
            && (a.evp.rawKeySupport ==> PubAfter(a, cl, priv, pub) == Some(pub))
            && (!a.evp.rawKeySupport && pubOff + |d| <= |pub| ==>
                PubAfter(a, cl, priv, pub) == Some(pub[..pubOff] + d + pub[pubOff + |d|..])))
  {
    hide DecodeUint32;
  }

  // ------------------------------------------------------- classical output

  /** The classical generator's output is accepted exactly if it fits the algorithm and, unless it is raw, parses. */
  lemma AcceptableExactly(a: Alg, cl: Classical, g: ClassicalPair)
    ensures Acceptable(a, cl, g) <==> PairFits(a.evp, g) && (a.evp.rawKeySupport || cl.parsePrivate(g.priv).Some?)
  {
  }

  /** A refused output that was written into the buffers is written into the two places it was meant for, and nowhere else. */
  lemma RefusalStaysInPlace(a: Alg, cl: Classical, g: ClassicalPair, pub: Bytes, priv: Bytes, pubOff: nat, privOff: nat, i: nat)
    requires |pub| >= 4 && |priv| >= 4 && pubOff >= 4 && privOff >= 4
    requires !Acceptable(a, cl, g)
    ensures var r := AfterClassic(a, cl, Some(g), pub, priv, pubOff, privOff);
      && (r.pub.Some? ==>
          && |r.pub.value| == |pub|
          && (i < |pub| && !(pubOff <= i < pubOff + |g.pub|) ==> r.pub.value[i] == pub[i]))
      && (r.priv.Some? ==>
          && |r.priv.value| == |priv|
          && (i < |priv| && !(privOff <= i < privOff + |g.priv|) ==> r.priv.value[i] == priv[i]))
      && (a.evp.rawKeySupport && |g.pub| != a.evp.lengthPublicKey ==> r.pub == Some(pub) && r.priv == Some(priv))
      && (|g.pub| > a.evp.lengthPublicKey ==> r.priv == Some(priv))
      && (!a.evp.rawKeySupport && pubOff + |g.pub| <= |pub| ==> r.pub.Some? && r.pub.value[pubOff..pubOff + |g.pub|] == g.pub)
  {
  }

  // ---------------------------------------------------- private round trip

  /** The bytes of the stored private key that the encoder leaves out are all zero. */
  predicate TailIsZero(a: Alg, kv: KeyVal)
    requires a.IsHybrid() && PrivLaid(a, kv) && kv.privkey.Some? && PrivHeaderOk(a, kv)
  {
    var used := 4 + a.qs.lengthSecretKey + Header(a, kv.privkey.value);
    forall i :: used <= i < |kv.privkey.value| ==> kv.privkey.value[i] == 0
  }

  /** What generation and the classical codec guarantee of a key about to be stored. */
  ghost predicate Storable(a: Alg, cl: Classical, g: ClassicalPair, p: PqPair) {
    && a.Valid() && PqPairFits(a.qs, p)
    && (a.IsHybrid() ==> PairFits(a.evp, g) && 0 < |g.priv| && PairLaw(a.evp, cl, g) && |g.pub| == a.evp.lengthPublicKey)
  }

  lemma GeneratedIsLaid(a: Alg, g: ClassicalPair, p: PqPair)
    requires a.Valid() && PqPairFits(a.qs, p) && (a.IsHybrid() ==> PairFits(a.evp, g))
    ensures var kv := Generated(a, g, p);
      && Laid(a, kv)
      && (a.IsHybrid() ==> Header(a, kv.privkey.value) == |g.priv| && Header(a, kv.pubkey.value) == |g.pub|)
  {
    GeneratedOnZeros(a, g, p);
    GeneratedLaid(a, Zeros(a.PrivLen() + 4), Zeros(a.PubLen()), g, p);
  }

  /**
   * The buffers and the component pointers of a generated hybrid key, written out
   * for each of the three families.
   */
  lemma GeneratedBytes(a: Alg, g: ClassicalPair, p: PqPair)
    requires a.IsHybrid() && PqPairFits(a.qs, p) && PairFits(a.evp, g)
    ensures var kv := Generated(a, g, p);
      var m, n := |g.priv|, |g.pub|;
      var privSlack, pubSlack := Zeros(a.evp.lengthPrivateKey - m), Zeros(a.evp.lengthPublicKey - n);
      match a.keytype
      case HybSig =>
        && kv.privkey == Some(EncodeUint32(m) + g.priv + p.sk + privSlack + Zeros(4))
        && kv.pubkey == Some(EncodeUint32(n) + g.pub + p.pk + pubSlack)
        && kv.compPriv == [At(4), At(4 + m)] && kv.compPub == [At(4), At(4 + n)]
      case _ =>
        if a.reverse then
          && kv.privkey == Some(EncodeUint32(m) + p.sk + g.priv + privSlack + Zeros(4))
          && kv.pubkey == Some(EncodeUint32(n) + p.pk + g.pub + pubSlack)
          && kv.compPriv == [At(4), At(4 + |p.sk|)] && kv.compPub == [At(4), At(4 + |p.pk|)]
        else
          && kv.privkey == Some(EncodeUint32(m) + g.priv + privSlack + p.sk + Zeros(4))
          && kv.pubkey == Some(EncodeUint32(n) + g.pub + pubSlack + p.pk)
          && kv.compPriv == [At(4), At(4 + a.evp.lengthPrivateKey)] && kv.compPub == [At(4), At(4 + a.evp.lengthPublicKey)]
  {
    hide EncodeUint32, Zeros;
    var e, d := EncodeUint32(|g.priv|), EncodeUint32(|g.pub|);
    var x, y := Zeros(a.evp.lengthPrivateKey - |g.priv|), Zeros(a.evp.lengthPublicKey - |g.pub|);
    if a.keytype.HybSig? {
      Regroup(e, g.priv, p.sk, x);
      Regroup(d, g.pub, p.pk, y);
    } else if a.reverse {
      Regroup(e, p.sk, g.priv, x);
      Regroup(d, p.pk, g.pub, y);
    } else {
      Regroup(e, g.priv, x, p.sk);
      Regroup(d, g.pub, y, p.pk);
    }
  }

  lemma Regroup(e: Bytes, x: Bytes, y: Bytes, z: Bytes)
    ensures e + (x + y + z) == e + x + y + z
  {
  }

  /** A plain key is its two liboqs keys; it is stored as the secret one followed by the public one. */
  lemma PlainBytes(a: Alg, g: ClassicalPair, p: PqPair)
    requires a.Valid() && !a.IsHybrid() && PqPairFits(a.qs, p)
    ensures var kv := Generated(a, g, p);
      && kv.privkey == Some(p.sk + Zeros(4)) && kv.pubkey == Some(p.pk) && kv.compPriv == kv.compPub == [At(0)]
      && Laid(a, kv) && EncodePrivate(a, kv) == Some(p.sk + p.pk) && EncodePublic(a, kv) == Some(p.pk)
  {
    GeneratedIsLaid(a, g, p);
    var kv := Generated(a, g, p);
    assert kv.privkey.value[..a.PrivLen()] == p.sk && kv.pubkey.value[..a.PubLen()] == p.pk;
  }

  /** The octets a generated hybrid key is stored as. */
  lemma EncodedGenerated(a: Alg, g: ClassicalPair, p: PqPair)
    requires a.Valid() && a.IsHybrid() && PqPairFits(a.qs, p) && PairFits(a.evp, g)
    ensures Laid(a, Generated(a, g, p))
    ensures var priv := Generated(a, g, p).privkey.value;
      EncodePrivate(a, Generated(a, g, p)) == Some(priv[..4 + a.qs.lengthSecretKey + |g.priv|] + p.pk)
  {
    hide DecodeUint32, EncodeUint32;
    GeneratedIsLaid(a, g, p);
    LaySlices(a.Order(), a.evp.lengthPublicKey, g.pub, p.pk);
  }

  /** In the stored octets the classical private share is whole, whatever is cut off behind it. */
  lemma StoredClassicalShare(a: Alg, g: ClassicalPair, p: PqPair, octets: Bytes)
    requires a.Valid() && a.IsHybrid() && PqPairFits(a.qs, p) && PairFits(a.evp, g) && 0 < |g.priv|
    requires octets == Generated(a, g, p).privkey.value[..4 + a.qs.lengthSecretKey + |g.priv|] + p.pk
    ensures PrivateShape(a, octets) && DecodeUint32(octets) == |g.priv| && ClassicalOf(a, octets) == g.priv
  {
    var priv := Generated(a, g, p).privkey.value;
    var lay := Lay(a.Order(), a.evp.lengthPrivateKey, g.priv, p.sk);
    var used, co := 4 + a.qs.lengthSecretKey + |g.priv|, ClassicOffset(a.Order(), a.qs.lengthSecretKey);
    LaySlices(a.Order(), a.evp.lengthPrivateKey, g.priv, p.sk);
    assert lay == priv[..|lay|];
    assert octets[..used] == priv[..used] == lay[..used];
    assert octets[..4] == octets[..used][..4] == lay[..used][..4] == lay[..4];
    SliceInPrefix(octets, lay, used, co, |g.priv|);
  }

  /**
   * Storing and loading a generated key succeeds, and gives back exactly the
   * same buffers, components and classical key if and only if the bytes cut
   * off by the encoder are zero.
   */
  lemma PrivateRoundTrip(a: Alg, cl: Classical, g: ClassicalPair, p: PqPair)
    requires Storable(a, cl, g, p)
    ensures Laid(a, Generated(a, g, p))
    ensures var kv := Generated(a, g, p);
      var octets := EncodePrivate(a, kv);
      && octets.Some? && DecodePrivate(a, cl, octets.value).Some?
      && (DecodePrivate(a, cl, octets.value) == Some(kv) <==> (a.IsHybrid() ==> TailIsZero(a, kv)))
  {
    GeneratedIsLaid(a, g, p);
    var kv := Generated(a, g, p);
    if a.IsHybrid() {
      EncodedGenerated(a, g, p);
      var octets := EncodePrivate(a, kv).value;
      StoredClassicalShare(a, g, p, octets);
      var used := 4 + a.qs.lengthSecretKey + |g.priv|;
      var r := DecodePrivate(a, cl, octets).value;
      assert octets[..used] == kv.privkey.value[..used] && octets[used..] == p.pk;
      assert r.privkey.value == kv.privkey.value[..used] + Zeros(a.evp.lengthPrivateKey - |g.priv| + 4);
      TailSplit(kv.privkey.value, used);
    } else {
      var octets := EncodePrivate(a, kv).value;
      assert octets[..a.PrivLen()] == p.sk && octets[a.PrivLen()..] == p.pk;
    }
  }

  /** A byte string equals its prefix followed by zeros exactly when the rest of it is zero. */
  lemma TailSplit(b: Bytes, used: nat)
    requires used <= |b|
    ensures b == b[..used] + Zeros(|b| - used) <==> forall i :: used <= i < |b| ==> b[i] == 0
  {
    var z := b[..used] + Zeros(|b| - used);
    if b == z {
      forall i | used <= i < |b| ensures b[i] == 0 { assert b[i] == z[i]; }
    }
  }

  /**
   * The four families on which nothing is lost: plain keys, packed keys,
   * reversed keys, and classic-first keys whose private share fills its slot.
   */
  lemma RoundTripIsExact(a: Alg, cl: Classical, g: ClassicalPair, p: PqPair)
    requires Storable(a, cl, g, p)
    requires a.IsHybrid() && a.Order().ClassicFirst? ==> |g.priv| == a.evp.lengthPrivateKey
    ensures Laid(a, Generated(a, g, p))
    ensures var kv := Generated(a, g, p);
      && EncodePrivate(a, kv).Some?
      && DecodePrivate(a, cl, EncodePrivate(a, kv).value) == Some(kv)
      && forall private_, public_, domain :: Matches(a, a, kv, kv, private_, public_, domain)
  {
    GeneratedIsLaid(a, g, p);
    PrivateRoundTrip(a, cl, g, p);
    var kv := Generated(a, g, p);
    if a.IsHybrid() {
      var lay := Lay(a.Order(), a.evp.lengthPrivateKey, g.priv, p.sk);
      assert TailIsZero(a, kv);
    }
  }

  /**
   * On the remaining family, classic-first keys with a short private share, the
   * round trip loses the end of the post-quantum secret key unless it was zero.
   */
  lemma ShortClassicFirstRoundTrip(a: Alg, cl: Classical, g: ClassicalPair, p: PqPair)
    requires Storable(a, cl, g, p) && a.IsHybrid() && a.Order().ClassicFirst?
    requires |g.priv| < a.evp.lengthPrivateKey
    ensures Laid(a, Generated(a, g, p))
    ensures var kv := Generated(a, g, p);
      var lost := a.evp.lengthPrivateKey - |g.priv|;
      && EncodePrivate(a, kv).Some?
      && (DecodePrivate(a, cl, EncodePrivate(a, kv).value) == Some(kv) <==>
          forall i :: 0 <= i < |p.sk| && |p.sk| - lost <= i ==> p.sk[i] == 0)
  {
    GeneratedIsLaid(a, g, p);
    PrivateRoundTrip(a, cl, g, p);
    var kv := Generated(a, g, p);
    var priv, max, lost := kv.privkey.value, a.evp.lengthPrivateKey, a.evp.lengthPrivateKey - |g.priv|;
    assert forall i :: 0 <= i < |p.sk| ==> priv[4 + max + i] == p.sk[i];
    if TailIsZero(a, kv) {
      forall i | 0 <= i < |p.sk| && |p.sk| - lost <= i ensures p.sk[i] == 0 {
        assert priv[4 + max + i] == 0;
      }
    }
  }

  /** A one-byte-per-share instance of that family on which a secret byte is lost. */
  lemma ShortShareExample()
    ensures var a := Alg("p256_example", EcpHybKem, false, EvpInfo(false, 1, 2, 1, 1), QsInfo(1, 1, 1, 1, 1, 1));
      var cl := Classical(b => Some(0), b => Some(0), k => [7], (x, y) => None, (k, m, d, r) => None,
                          (k, m, d, s) => false, (m, d) => []);
      var g, p := ClassicalPair(0, [7], [9]), PqPair([5], [3]);
      && Storable(a, cl, g, p)
      && Laid(a, Generated(a, g, p))
      && EncodePrivate(a, Generated(a, g, p)).Some?
      && DecodePrivate(a, cl, EncodePrivate(a, Generated(a, g, p)).value).Some?
      && DecodePrivate(a, cl, EncodePrivate(a, Generated(a, g, p)).value) != Some(Generated(a, g, p))
  {
    var a := Alg("p256_example", EcpHybKem, false, EvpInfo(false, 1, 2, 1, 1), QsInfo(1, 1, 1, 1, 1, 1));
    var cl := Classical(b => Some(0), b => Some(0), k => [7], (x, y) => None, (k, m, d, r) => None,
                        (k, m, d, s) => false, (m, d) => []);
    var g, p := ClassicalPair(0, [7], [9]), PqPair([5], [3]);
    GeneratedIsLaid(a, g, p);
    PrivateRoundTrip(a, cl, g, p);
    ShortClassicFirstRoundTrip(a, cl, g, p);
    assert p.sk[0] != 0;
  }

  // ------------------------------------------------------ canonical encoding

  /** The converse: every octet string the private decoder accepts is what the decoded key encodes to. */
  lemma PrivateEncodingIsCanonical(a: Alg, cl: Classical, p: Bytes)
    requires a.Valid() && DecodePrivate(a, cl, p).Some?
    ensures Laid(a, DecodePrivate(a, cl, p).value)
    ensures EncodePrivate(a, DecodePrivate(a, cl, p).value) == Some(p)
  {
    DecodedIsLaid(a, cl, p);
    var kv := DecodePrivate(a, cl, p).value;
    if a.IsHybrid() {
      var used := |p| - a.qs.lengthPublicKey;
      assert kv.privkey.value[..4] == p[..4];
      assert kv.privkey.value[..used] == p[..used];
      LaySlices(a.Order(), a.evp.lengthPublicKey, cl.encodePublic(kv.classical.value), p[used..]);
      assert p == p[..used] + p[used..];
    } else {
      var n := a.qs.lengthSecretKey;
      assert kv.privkey.value[..n] == p[..n] && p[n..][..a.PubLen()] == p[n..];
      assert p == p[..n] + p[n..];
    }
  }

  /** Two octet strings that decode to the same key are the same. */
  lemma PrivateDecodingIsInjective(a: Alg, cl: Classical, p: Bytes, q: Bytes)
    requires a.Valid() && DecodePrivate(a, cl, p).Some? && DecodePrivate(a, cl, p) == DecodePrivate(a, cl, q)
    ensures p == q
  {
    PrivateEncodingIsCanonical(a, cl, p);
    PrivateEncodingIsCanonical(a, cl, q);
  }

  /**
   * The octets are a length header, |c| bytes and as many bytes as a post-quantum
   * secret key has, in share order, and the post-quantum public key. Of a
   * classic-first key with a short classical share the second piece is not the
   * secret key: it starts with the slack.
   */
  predicate Composes(a: Alg, cl: Classical, p: Bytes, c: Bytes, q: Bytes, pk: Bytes) {
    && 0 < |c| <= a.evp.lengthPrivateKey && |q| == a.qs.lengthSecretKey && |pk| == a.qs.lengthPublicKey
    && p == EncodeUint32(|c|) + (if a.Reversed() then q else c) + (if a.Reversed() then c else q) + pk
    && cl.parsePrivate(c).Some? && |cl.encodePublic(cl.parsePrivate(c).value)| == a.evp.lengthPublicKey
  }

  /** Octets of the right shape, taken apart. */
  lemma ShapeComposes(a: Alg, cl: Classical, p: Bytes) returns (c: Bytes, q: Bytes, pk: Bytes)
    requires a.Valid() && a.IsHybrid() && DecodePrivate(a, cl, p).Some?
    ensures Composes(a, cl, p, c, q, pk)
  {
    EncodeDecode(p);
    hide DecodeUint32, EncodeUint32;
    var n, sk := DecodeUint32(p), a.qs.lengthSecretKey;
    var first := if a.Reversed() then sk else n;
    CutInFour(p, 4, 4 + first, 4 + n + sk);
    c, pk := ClassicalOf(a, p), p[4 + n + sk..];
    q := if a.Reversed() then Slice(p, 4, sk) else Slice(p, 4 + n, sk);
  }

  /** Octets put together from such parts have the right shape, and the decoder finds the classical share. */
  lemma ComposedShape(a: Alg, cl: Classical, p: Bytes, c: Bytes, q: Bytes, pk: Bytes)
    requires a.Valid() && a.IsHybrid() && Composes(a, cl, p, c, q, pk)
    ensures PrivateShape(a, p) && ClassicalOf(a, p) == c
  {
    hide DecodeUint32, EncodeUint32;
    var x, y := if a.Reversed() then q else c, if a.Reversed() then c else q;
    DecodeEncode(|c|, x + y + pk);
    FourPieces(EncodeUint32(|c|), x, y, pk);
  }

  /**
   * When a hybrid octet string is accepted at all: exactly when it is composed
   * of a header, the classical private share and lengthSecretKey further bytes in
   * share order, and the post-quantum public key, and the classical share parses
   * to a key whose public part fills its slot.
   */
  lemma HybridAcceptance(a: Alg, cl: Classical, p: Bytes)
    requires a.Valid() && a.IsHybrid()
    ensures DecodePrivate(a, cl, p).Some? <==>
      exists c: Bytes, q: Bytes, pk: Bytes :: Composes(a, cl, p, c, q, pk)
  {
    hide DecodeUint32, EncodeUint32;
    if DecodePrivate(a, cl, p).Some? {
      var c, q, pk := ShapeComposes(a, cl, p);
    }
    if c: Bytes, q: Bytes, pk: Bytes :| Composes(a, cl, p, c, q, pk) {
      ComposedShape(a, cl, p, c, q, pk);
    }
  }

  /** Public keys: decoding then encoding is the identity on every accepted string, and a generated key comes back. */
  lemma PublicRoundTrip(a: Alg, cl: Classical, p: Bytes)
    requires a.Valid() && DecodePublic(a, cl, p).Some?
    ensures PubLaid(a, DecodePublic(a, cl, p).value)
    ensures EncodePublic(a, DecodePublic(a, cl, p).value) == Some(p)
  {
    DecodedIsLaid(a, cl, p);
    assert p[..a.PubLen()] == p;
  }

  /**
   * Public octets that carry these parts: a header, the classical share, the
   * post-quantum share and the slack, where the layout of the family has them.
   */
  predicate PublicComposes(a: Alg, cl: Classical, p: Bytes, c: Bytes, q: Bytes, slack: Bytes) {
    && |q| == a.qs.lengthPublicKey && |c| + |slack| == a.evp.lengthPublicKey && cl.parsePublic(c).Some?
    && p == EncodeUint32(|c|) +
      (if a.keytype.HybSig? then c + q + slack else if a.reverse then q + c + slack else c + slack + q)
  }

  /** Which hybrid public octets are accepted, with which classical key: those composed of such parts. */
  lemma PublicAcceptance(a: Alg, cl: Classical, p: Bytes)
    requires a.Valid() && a.IsHybrid()
    ensures DecodePublic(a, cl, p).Some? <==>
      exists c: Bytes, q: Bytes, slack: Bytes :: PublicComposes(a, cl, p, c, q, slack)
    ensures forall c: Bytes, q: Bytes, slack: Bytes :: PublicComposes(a, cl, p, c, q, slack) ==>
      DecodePublic(a, cl, p).Some? && DecodePublic(a, cl, p).value.classical == cl.parsePublic(c)
  {
    hide DecodeUint32, EncodeUint32;
    if DecodePublic(a, cl, p).Some? {
      var c, q, slack := PublicParts(a, cl, p);
    }
    forall c: Bytes, q: Bytes, slack: Bytes | PublicComposes(a, cl, p, c, q, slack)
      ensures DecodePublic(a, cl, p).Some? && DecodePublic(a, cl, p).value.classical == cl.parsePublic(c)
    {
      PublicShareFound(a, cl, p, c, q, slack);
    }
  }

  lemma PublicParts(a: Alg, cl: Classical, p: Bytes) returns (c: Bytes, q: Bytes, slack: Bytes)
    requires a.Valid() && a.IsHybrid() && DecodePublic(a, cl, p).Some?
    ensures PublicComposes(a, cl, p, c, q, slack)
  {
    EncodeDecode(p);
    hide DecodeUint32, EncodeUint32, Slots, Nulls;
    var n, pk, m := DecodeUint32(p), a.qs.lengthPublicKey, a.evp.lengthPublicKey;
    if a.keytype.HybSig? {
      c, q, slack := Slice(p, 4, n), Slice(p, 4 + n, pk), p[4 + n + pk..];
      BehindHeader(p, n, pk);
    } else if a.reverse {
      c, q, slack := Slice(p, 4 + pk, n), Slice(p, 4, pk), p[4 + pk + n..];
      BehindHeader(p, pk, n);
    } else {
      c, slack, q := Slice(p, 4, n), Slice(p, 4 + n, m - n), p[4 + m..];
      BehindHeader(p, n, m - n);
    }
  }

  /** A string of a header and three consecutive pieces. */
  lemma BehindHeader(p: Bytes, n: nat, m: nat)
    requires 4 + n + m <= |p|
    ensures p == p[..4] + (Slice(p, 4, n) + Slice(p, 4 + n, m) + p[4 + n + m..])
  {
    CutInFour(p, 4, 4 + n, 4 + n + m);
    Regroup(p[..4], Slice(p, 4, n), Slice(p, 4 + n, m), p[4 + n + m..]);
  }

  lemma PublicShareFound(a: Alg, cl: Classical, p: Bytes, c: Bytes, q: Bytes, slack: Bytes)
    requires a.Valid() && a.IsHybrid() && PublicComposes(a, cl, p, c, q, slack)
    ensures |p| == a.PubLen() && DecodeUint32(p) == |c|
    ensures Slice(p, ClassicOffset(a.Order(), a.qs.lengthPublicKey), |c|) == c
  {
    hide DecodeUint32, EncodeUint32;
    var e := EncodeUint32(|c|);
    if a.keytype.HybSig? {
      DecodeEncode(|c|, c + q + slack);
      Regroup(e, c, q, slack);
      FourPieces(e, c, q, slack);
    } else if a.reverse {
      DecodeEncode(|c|, q + c + slack);
      Regroup(e, q, c, slack);
      FourPieces(e, q, c, slack);
    } else {
      DecodeEncode(|c|, c + slack + q);
      Regroup(e, c, slack, q);
      FourPieces(e, c, slack, q);
    }
  }

  /** Plain keys: octets of the right length are accepted and taken for the liboqs keys. */
  lemma PlainAcceptance(a: Alg, cl: Classical, p: Bytes)
    requires !a.IsHybrid()
    ensures DecodePublic(a, cl, p).Some? <==> |p| == a.qs.lengthPublicKey
    ensures DecodePrivate(a, cl, p).Some? <==> |p| == a.qs.lengthSecretKey + a.qs.lengthPublicKey
    ensures DecodePublic(a, cl, p).Some? ==> DecodePublic(a, cl, p).value == KeyVal(None, Some(p), [Null], [At(0)], None)
    ensures DecodePrivate(a, cl, p).Some? ==> var n := a.qs.lengthSecretKey;
      DecodePrivate(a, cl, p).value == KeyVal(Some(p[..n] + [0, 0, 0, 0]), Some(p[n..]), [At(0)], [At(0)], None)
  {
    assert Zeros(4) == [0, 0, 0, 0] && Nulls(1) == [Null];
  }

  lemma GeneratedPublicRoundTrip(a: Alg, cl: Classical, g: ClassicalPair, p: PqPair)
    requires a.Valid() && PqPairFits(a.qs, p) && (a.IsHybrid() ==> PairFits(a.evp, g) && cl.parsePublic(g.pub).Some?)
    ensures Laid(a, Generated(a, g, p))
    ensures var kv := Generated(a, g, p);
      var octets := EncodePublic(a, kv).value;
      var r := DecodePublic(a, cl, octets);
      && r.Some? && r.value.pubkey == kv.pubkey && r.value.compPub == kv.compPub && r.value.privkey.None?
      && (a.IsHybrid() ==> r.value.classical == cl.parsePublic(g.pub))
  {
    GeneratedIsLaid(a, g, p);
    if a.IsHybrid() {
      LaySlices(a.Order(), a.evp.lengthPublicKey, g.pub, p.pk);
    }
    var pub := Generated(a, g, p).pubkey.value;
    assert pub[..a.PubLen()] == pub;
  }

  // ------------------------------------------------------- export and import

  /** A key pair whose classical key and classical public share are the ones its private share determines. */
  predicate ConsistentPair(a: Alg, cl: Classical, kv: KeyVal) {
    && Laid(a, kv) && kv.privkey.Some? && kv.pubkey.Some?
    && (a.IsHybrid() ==>
      && PubHeaderOk(a, kv)
      && Rebuilt(a, cl, kv.privkey.value, true).Some?
      && kv.classical == Rebuilt(a, cl, kv.privkey.value, true)
      && Rederived(a, cl, kv.pubkey.value, kv.classical.value) == kv.pubkey.value)
  }

  /** A buffer cut to its nominal length has the same header and the same classical key. */
  lemma RebuiltFromPrefix(a: Alg, cl: Classical, buf: Bytes, private_: bool)
    requires a.Valid() && a.IsHybrid()
    requires var n := if private_ then a.PrivLen() else a.PubLen(); |buf| >= n
    ensures var n := if private_ then a.PrivLen() else a.PubLen();
      && Header(a, buf[..n]) == Header(a, buf)
      && Rebuilt(a, cl, buf[..n], private_) == Rebuilt(a, cl, buf, private_)
  {
    var n := if private_ then a.PrivLen() else a.PubLen();
    var max := if private_ then a.evp.lengthPrivateKey else a.evp.lengthPublicKey;
    var pq := if private_ then a.qs.lengthSecretKey else a.qs.lengthPublicKey;
    assert Header(a, buf[..n]) == Header(a, buf);
    if Header(a, buf) <= max {
      SliceInPrefix(buf[..n], buf, n, ClassicOffset(a.Order(), pq), Header(a, buf));
    }
  }

  /**
   * Importing an exported key pair rebuilds the same buffers (without the
   * allocation slack), components and classical key, whatever the target held,
   * and the two keys match for every selection.
   */
  lemma ExportThenImport(a: Alg, cl: Classical, kv: KeyVal, target: KeyVal)
    requires a.Valid() && ConsistentPair(a, cl, kv)
    requires target.privkey.Some? ==> |target.privkey.value| >= a.PrivLen()
    requires target.pubkey.Some? ==> |target.pubkey.value| >= a.PubLen()
    ensures var r := FromData(a, cl, target, ExportPriv(a, kv, true), ExportPub(a, kv), true);
      && r.Some?
      && r.value.privkey == Some(kv.privkey.value[..a.PrivLen()]) && r.value.pubkey == Some(kv.pubkey.value[..a.PubLen()])
      && r.value.compPriv == kv.compPriv && r.value.compPub == kv.compPub
      && (a.IsHybrid() ==> r.value.classical == kv.classical)
      && forall private_, public_, domain :: Matches(a, a, kv, r.value, private_, public_, domain)
  {
    var priv, pub := kv.privkey.value, kv.pubkey.value;
    if a.IsHybrid() {
      RebuiltFromPrefix(a, cl, priv, true);
      RebuiltFromPrefix(a, cl, pub, false);
      var n, k := a.PubLen(), kv.classical.value;
      assert Rederived(a, cl, pub[..n], k) == Rederived(a, cl, pub, k)[..n];
    }
    assert priv[..a.PrivLen()][..a.PrivLen()] == priv[..a.PrivLen()];
    assert pub[..a.PubLen()][..a.PubLen()] == pub[..a.PubLen()];
  }

  /** The same for a public-only export, provided the classical public share parses. */
  lemma ExportThenImportPublic(a: Alg, cl: Classical, kv: KeyVal, fresh_: KeyVal)
    requires a.Valid() && Laid(a, kv) && kv.pubkey.Some? && fresh_.privkey.None? && fresh_.pubkey.None?
    requires a.IsHybrid() ==> PubHeaderOk(a, kv) && Rebuilt(a, cl, kv.pubkey.value, false).Some?
    ensures var r := FromData(a, cl, fresh_, ExportPriv(a, kv, false), ExportPub(a, kv), false);
      && r.Some?
      && r.value.privkey.None? && r.value.pubkey == Some(kv.pubkey.value[..a.PubLen()]) && r.value.compPub == kv.compPub
      && forall private_, domain :: Matches(a, a, kv, r.value, private_, true, domain)
  {
    var pub := kv.pubkey.value;
    if a.IsHybrid() {
      RebuiltFromPrefix(a, cl, pub, false);
    }
    assert pub[..a.PubLen()][..a.PubLen()] == pub[..a.PubLen()];
  }

  /** Generated keys whose classical public share fills its slot are consistent. */
  lemma GeneratedIsConsistent(a: Alg, cl: Classical, g: ClassicalPair, p: PqPair)
    requires Storable(a, cl, g, p)
    ensures ConsistentPair(a, cl, Generated(a, g, p))
  {
    GeneratedIsLaid(a, g, p);
    if a.IsHybrid() {
      var kv := Generated(a, g, p);
      var o := a.Order();
      LaySlices(o, a.evp.lengthPrivateKey, g.priv, p.sk);
      LaySlices(o, a.evp.lengthPublicKey, g.pub, p.pk);
      var lay := Lay(o, a.evp.lengthPrivateKey, g.priv, p.sk);
      assert kv.privkey.value[..|lay|] == lay;
      SliceInPrefix(kv.privkey.value, lay, |lay|, ClassicOffset(o, |p.sk|), |g.priv|);
      var pub, co := kv.pubkey.value, ClassicOffset(o, |p.pk|);
      assert Slice(pub, co, |g.pub|) == g.pub;
      assert Splice(pub, co, g.pub) == pub;
    }
  }

  // --------------------------------------------------------------- matching

  /**
   * What a match decides. With the public bit, two keys of one name match exactly
   * if both public buffers are missing or both are there and agree on every byte;
   * only if one of them is missing, and the domain bit is set, two private buffers
   * that agree will do as well. With the private bit alone the private buffers
   * decide in the same way.
   */
  lemma MatchExactly(a: Alg, k: KeyVal, l: KeyVal, private_: bool, domain: bool)
    requires k.privkey.Some? ==> |k.privkey.value| >= a.PrivLen()
    requires l.privkey.Some? ==> |l.privkey.value| >= a.PrivLen()
    requires k.pubkey.Some? ==> |k.pubkey.value| >= a.PubLen()
    requires l.pubkey.Some? ==> |l.pubkey.value| >= a.PubLen()
    ensures Matches(a, a, k, l, private_, true, domain) <==>
      || (k.pubkey.None? && l.pubkey.None?)
      || (k.pubkey.Some? && l.pubkey.Some? && forall i :: 0 <= i < a.PubLen() ==> k.pubkey.value[i] == l.pubkey.value[i])
      || (k.pubkey.Some? != l.pubkey.Some? && domain && k.privkey.Some? && l.privkey.Some? &&
          forall i :: 0 <= i < a.PrivLen() ==> k.privkey.value[i] == l.privkey.value[i])
    ensures Matches(a, a, k, l, true, false, domain) <==>
      || (k.privkey.None? && l.privkey.None?)
      || (k.privkey.Some? && l.privkey.Some? && forall i :: 0 <= i < a.PrivLen() ==> k.privkey.value[i] == l.privkey.value[i])
    ensures Matches(a, a, k, l, false, false, domain)
  {
    if k.pubkey.Some? && l.pubkey.Some? {
      SamePrefix(k.pubkey.value, l.pubkey.value, a.PubLen());
    }
    if k.privkey.Some? && l.privkey.Some? {
      SamePrefix(k.privkey.value, l.privkey.value, a.PrivLen());
    }
  }

  lemma SamePrefix(x: Bytes, y: Bytes, n: nat)
    requires n <= |x| && n <= |y|
    ensures x[..n] == y[..n] <==> forall i :: 0 <= i < n ==> x[i] == y[i]
  {
    if x[..n] == y[..n] {
      forall i | 0 <= i < n ensures x[i] == y[i] {
        assert x[..n][i] == y[..n][i];
      }
    }
  }

  /** Keys of different names never match by a public or a private bit alone. */
  lemma DifferentNamesDiffer(a: Alg, b: Alg, k: KeyVal, l: KeyVal, private_: bool)
    requires a.name != b.name
    requires k.privkey.Some? ==> |k.privkey.value| >= a.PrivLen()
    requires l.privkey.Some? ==> |l.privkey.value| >= b.PrivLen()
    requires k.pubkey.Some? ==> |k.pubkey.value| >= a.PubLen()
    requires l.pubkey.Some? ==> |l.pubkey.value| >= b.PubLen()
    ensures !Matches(a, b, k, l, private_, true, false) && !Matches(a, b, k, l, true, false, false)
  {
  }

  /** Two generated keys match exactly if they were generated from the same public parts, or private parts. */
  lemma GeneratedMatchExactly(a: Alg, g: ClassicalPair, p: PqPair, h: ClassicalPair, q: PqPair, private_: bool, domain: bool)
    requires a.Valid() && PqPairFits(a.qs, p) && PqPairFits(a.qs, q)
    requires a.IsHybrid() ==> PairFits(a.evp, g) && PairFits(a.evp, h)
    ensures Matches(a, a, Generated(a, g, p), Generated(a, h, q), private_, true, domain) <==>
      p.pk == q.pk && (a.IsHybrid() ==> g.pub == h.pub)
    ensures Matches(a, a, Generated(a, g, p), Generated(a, h, q), true, false, domain) <==>
      p.sk == q.sk && (a.IsHybrid() ==> g.priv == h.priv)
  {
    var k, l := Generated(a, g, p), Generated(a, h, q);
    assert k.pubkey.value[..a.PubLen()] == k.pubkey.value && l.pubkey.value[..a.PubLen()] == l.pubkey.value;
    if a.IsHybrid() {
      var o, m := a.Order(), a.evp.lengthPrivateKey;
      LayIsInjective(o, a.evp.lengthPublicKey, g.pub, p.pk, h.pub, q.pk);
      LayIsInjective(o, m, g.priv, p.sk, h.priv, q.sk);
      hide Lay, Zeros;
      assert k.privkey.value[..a.PrivLen()] == Lay(o, m, g.priv, p.sk);
      assert l.privkey.value[..a.PrivLen()] == Lay(o, m, h.priv, q.sk);
    } else {
      assert k.privkey.value[..a.PrivLen()] == p.sk && l.privkey.value[..a.PrivLen()] == q.sk;
    }
  }

  /** A laid-out buffer determines its two shares. */
  lemma LayIsInjective(o: Order, max: nat, c: Bytes, q: Bytes, d: Bytes, r: Bytes)
    requires |c| <= max < TWO_TO_THE_32 && |d| <= max && |q| == |r|
    ensures Lay(o, max, c, q) == Lay(o, max, d, r) <==> c == d && q == r
  {
    LaySlices(o, max, c, q);
    LaySlices(o, max, d, r);
    hide Lay, DecodeUint32;
  }

  // ------------------------------------------------------------ set params

  /**
   * Installing a share keeps the public layout exactly on keys that have a public
   * buffer, except for a hybrid signature whose new header differs from the old
   * one. The private components are not reset, so the private layout holds
   * afterwards exactly if there was no private key before.
   */
  lemma InstallAndLayout(a: Alg, kv: KeyVal, share: Bytes)
    requires a.Valid() && Laid(a, kv) && Install(a, kv, share).Some?
    ensures var r := Install(a, kv, share).value;
      && (PubLaid(a, r) <==>
          kv.pubkey.Some? && (a.keytype.HybSig? ==> DecodeUint32(share) == Header(a, kv.pubkey.value)))
      && (PrivLaid(a, r) <==> kv.privkey.None?)
  {
    var r := Install(a, kv, share).value;
    if kv.pubkey.None? {
      assert Nulls(a.NumKeys())[0].Null?;
      assert a.IsHybridKem() ==> r.compPub[0].Detached?;
      assert !a.IsHybridKem() ==> PubSlots(a, Header(a, share))[0].At?;
    } else if a.keytype.HybSig? {
      var b := kv.pubkey.value;
      assert r.pubkey.value[..4] == share[..4];
      hide DecodeUint32;
      HeaderOfPrefix(r.pubkey.value, share);
      PqPlace(a.Order(), a.evp.lengthPublicKey, DecodeUint32(share), Header(a, b));
      assert PubSlots(a, DecodeUint32(share))[1] == PubSlots(a, Header(a, b))[1] <==> DecodeUint32(share) == Header(a, b);
    } else if a.IsHybridKem() {
      HeaderKept(kv.pubkey.value, 4, share);
    }
    if kv.privkey.Some? {
      assert kv.compPriv[0].At? && Nulls(a.NumKeys())[0].Null?;
    }
  }

  /**
   * What was installed is what is there afterwards. On a key with a public buffer
   * the share getter hands out the installed share, unless a new header breaks
   * the layout of a hybrid signature key, and then too the buffer holds it.
   */
  lemma InstalledIsThere(a: Alg, kv: KeyVal, share: Bytes)
    requires a.Valid() && PubLaid(a, kv)
    ensures Install(a, kv, share).Some? <==> |share| == a.PubLen() - (if a.IsHybridKem() then 4 else 0)
    ensures var r := Install(a, kv, share);
      r.Some? ==>
        && r.value.privkey.None?
        && (kv.pubkey.Some? ==>
            && r.value.pubkey.Some? && |r.value.pubkey.value| == |kv.pubkey.value|
            && r.value.pubkey.value[a.PubLen() - |share|..a.PubLen()] == share
            && (PubLaid(a, r.value) ==> Share(a, r.value) == share))
        && (kv.pubkey.None? ==>
            if a.IsHybridKem() then r.value.pubkey.None? && r.value.compPub == [Detached(share), Null]
            else r.value.pubkey == Some(share))
  {
    hide DecodeUint32, Slots;
  }

  lemma HeaderOfPrefix(x: Bytes, y: Bytes)
    requires 4 <= |x| && 4 <= |y| && x[..4] == y[..4]
    ensures DecodeUint32(x) == DecodeUint32(y)
  {
    assert x[0] == x[..4][0] && x[1] == x[..4][1] && x[2] == x[..4][2] && x[3] == x[..4][3];
    assert y[0] == y[..4][0] && y[1] == y[..4][1] && y[2] == y[..4][2] && y[3] == y[..4][3];
  }

  // -------------------------------------------------------- component views

  /**
   * The getter hands out a length without a pointer for the post-quantum private
   * share exactly of keys without a private buffer; it is the length of both shares.
   */
  lemma NullViewOfPublicKeys(a: Alg, kv: KeyVal)
    requires a.Valid() && a.IsHybrid() && Laid(a, kv) && kv.classical.Some?
    ensures HybridViews(a, kv).pqPriv.NullRange? <==> kv.privkey.None?
    ensures kv.privkey.None? ==> HybridViews(a, kv).pqPriv.len == a.evp.lengthPrivateKey + a.qs.lengthSecretKey > 0
  {
    SmallInt(a.evp.lengthPrivateKey + a.qs.lengthSecretKey);
    hide DecodeUint32, ToInt32, Wrap64;
  }

  /** A small length survives the conversions to 64 bits and to `int`. */
  lemma SmallInt(n: nat)
    requires n < 0x8000_0000
    ensures ToInt32(Wrap64(n)) == n
  {
  }

  /** The two exposed views of a buffer follow each other behind the header and end where the buffer does. */
  predicate Tiles(a: Alg, v: (View, View), total: nat) {
    var first, second := if a.Reversed() then v.1 else v.0, if a.Reversed() then v.0 else v.1;
    first.Range? && second.Range? && 0 <= first.len && 0 <= second.len
    && first.off == 4 && first.off + first.len == second.off && second.off + second.len == total
  }

  /**
   * The exposed component views partition a buffer exactly when it is packed or
   * its classical share fills its slot.
   */
  lemma ViewsTile(a: Alg, b: Bytes, max: nat, pq: nat)
    requires a.IsHybrid() && |b| >= 4 + max + pq && 4 + max + pq < 0x8000_0000 && Header(a, b) <= max
    ensures Tiles(a, BufferViews(a, b, max, pq), 4 + max + pq) <==> a.keytype.HybSig? || Header(a, b) == max
  {
    SmallInt(max + pq - Header(a, b));
    hide DecodeUint32, ToInt32, Wrap64;
  }

  /** Then header and views, joined in share order, are the stored buffer. */
  lemma ViewsJoin(a: Alg, b: Bytes, max: nat, pq: nat)
    requires a.IsHybrid() && |b| >= 4 + max + pq
    requires Tiles(a, BufferViews(a, b, max, pq), 4 + max + pq)
    ensures var v := BufferViews(a, b, max, pq);
      var classic, quantum := Slice(b, v.0.off, v.0.len), Slice(b, v.1.off, v.1.len);
      b[..4 + max + pq] ==
        EncodeUint32(Header(a, b)) + (if a.Reversed() then quantum else classic) + (if a.Reversed() then classic else quantum)
  {
    EncodeDecode(b);
    hide EncodeUint32, DecodeUint32, BufferViews;
    var v := BufferViews(a, b, max, pq);
    var n, m := 4 + max + pq, if a.Reversed() then v.0.off else v.1.off;
    CutInFour(b, 4, m, n);
    assert b[..n] == b[..4] + Slice(b, 4, m - 4) + Slice(b, m, n - m);
  }

  /**
   * Which share is handed out under which name: the two classical views of a
   * generated key are exactly its two classical shares, and the post-quantum views
   * start at the two post-quantum shares. They are longer than those by the slack,
   * so exact where the classical share fills its slot.
   */
  lemma NamedViews(a: Alg, g: ClassicalPair, p: PqPair)
    requires a.Valid() && a.IsHybrid() && PqPairFits(a.qs, p) && PairFits(a.evp, g)
    ensures Laid(a, Generated(a, g, p))
    ensures var kv := Generated(a, g, p);
      var v, pub, priv := HybridViews(a, kv), kv.pubkey.value, kv.privkey.value;
      && v.classicalPub.Range? && v.classicalPriv.Range? && v.pqPub.Range? && v.pqPriv.Range?
      && v.classicalPub.len == |g.pub| && v.classicalPub.off + |g.pub| <= |pub|
      && v.classicalPriv.len == |g.priv| && v.classicalPriv.off + |g.priv| <= |priv|
      && v.pqPub.off + |p.pk| <= |pub| && v.pqPriv.off + |p.sk| <= |priv|
      && Slice(pub, v.classicalPub.off, |g.pub|) == g.pub && Slice(priv, v.classicalPriv.off, |g.priv|) == g.priv
      && Slice(pub, v.pqPub.off, |p.pk|) == p.pk && Slice(priv, v.pqPriv.off, |p.sk|) == p.sk
      && v.pqPub.len == |p.pk| + (a.evp.lengthPublicKey - |g.pub|)
      && v.pqPriv.len == |p.sk| + (a.evp.lengthPrivateKey - |g.priv|)
  {
    GeneratedIsLaid(a, g, p);
    GeneratedSlices(a, g, p);
    SmallInt(a.evp.lengthPublicKey + |p.pk| - |g.pub|);
    SmallInt(a.evp.lengthPrivateKey + |p.sk| - |g.priv|);
    hide DecodeUint32, ToInt32, Wrap64, Lay, Zeros;
  }

  /** The four shares of a generated hybrid key are found at the offsets of the layout. */
  lemma GeneratedSlices(a: Alg, g: ClassicalPair, p: PqPair)
    requires a.Valid() && a.IsHybrid() && PqPairFits(a.qs, p) && PairFits(a.evp, g)
    ensures var priv, pub := Generated(a, g, p).privkey.value, Generated(a, g, p).pubkey.value;
      var o, m, n := a.Order(), a.evp.lengthPrivateKey, a.evp.lengthPublicKey;
      && Slice(priv, ClassicOffset(o, |p.sk|), |g.priv|) == g.priv && Slice(priv, PqOffset(o, m, |g.priv|), |p.sk|) == p.sk
      && Slice(pub, ClassicOffset(o, |p.pk|), |g.pub|) == g.pub && Slice(pub, PqOffset(o, n, |g.pub|), |p.pk|) == p.pk
  {
    var o, m := a.Order(), a.evp.lengthPrivateKey;
    LaySlices(o, a.evp.lengthPublicKey, g.pub, p.pk);
    LaySlices(o, m, g.priv, p.sk);
    hide Lay, Zeros;
    var priv, lay := Generated(a, g, p).privkey.value, Lay(o, m, g.priv, p.sk);
    assert priv[..|lay|] == lay == lay[..|lay|];
    SliceInPrefix(priv, lay, |lay|, ClassicOffset(o, |p.sk|), |g.priv|);
    SliceInPrefix(priv, lay, |lay|, PqOffset(o, m, |g.priv|), |p.sk|);
  }

  /** The bytes of a view. */
  function Viewed(b: Bytes, v: View): (s: Bytes)
    requires v.Range? && 0 <= v.len && v.off + v.len <= |b|
  {
    Slice(b, v.off, v.len)
  }

  /**
   * On every laid-out key that is a hybrid signature or whose classical shares
   * fill their slots, the header and the two named views of a buffer, joined in
   * share order, are the buffer.
   */
  lemma NamedViewsJoin(a: Alg, kv: KeyVal)
    requires a.Valid() && a.IsHybrid() && Laid(a, kv) && kv.classical.Some?
    ensures kv.pubkey.Some? && (a.keytype.HybSig? || Header(a, kv.pubkey.value) == a.evp.lengthPublicKey) ==>
      var b, classic, quantum := kv.pubkey.value, HybridViews(a, kv).classicalPub, HybridViews(a, kv).pqPub;
      && classic.Range? && 0 <= classic.len && classic.off + classic.len <= |b|
      && quantum.Range? && 0 <= quantum.len && quantum.off + quantum.len <= |b|
      && b[..a.PubLen()] == if a.Reversed() then EncodeUint32(classic.len) + Viewed(b, quantum) + Viewed(b, classic)
                            else EncodeUint32(classic.len) + Viewed(b, classic) + Viewed(b, quantum)
    ensures kv.privkey.Some? && (a.keytype.HybSig? || Header(a, kv.privkey.value) == a.evp.lengthPrivateKey) ==>
      var b, classic, quantum := kv.privkey.value, HybridViews(a, kv).classicalPriv, HybridViews(a, kv).pqPriv;
      && classic.Range? && 0 <= classic.len && classic.off + classic.len <= |b|
      && quantum.Range? && 0 <= quantum.len && quantum.off + quantum.len <= |b|
      && b[..a.PrivLen()] == if a.Reversed() then EncodeUint32(classic.len) + Viewed(b, quantum) + Viewed(b, classic)
                             else EncodeUint32(classic.len) + Viewed(b, classic) + Viewed(b, quantum)
  {
    hide EncodeUint32, DecodeUint32, ToInt32, Wrap64;
    if kv.pubkey.Some? && (a.keytype.HybSig? || Header(a, kv.pubkey.value) == a.evp.lengthPublicKey) {
      ViewsTile(a, kv.pubkey.value, a.evp.lengthPublicKey, a.qs.lengthPublicKey);
      ViewsJoin(a, kv.pubkey.value, a.evp.lengthPublicKey, a.qs.lengthPublicKey);
    }
    if kv.privkey.Some? && (a.keytype.HybSig? || Header(a, kv.privkey.value) == a.evp.lengthPrivateKey) {
      ViewsTile(a, kv.privkey.value, a.evp.lengthPrivateKey, a.qs.lengthSecretKey);
      ViewsJoin(a, kv.privkey.value, a.evp.lengthPrivateKey, a.qs.lengthSecretKey);
    }
  }
}
