/**
 * Algorithm descriptions, and the OpenSSL and liboqs primitives as abstract
 * functions. What the protocols need of a primitive is stated as a predicate
 * and taken as a hypothesis by the theorems that need it.
 */
module Primitives {
  import opened Bytes

  datatype KeyType = Sig | Kem | EcpHybKem | EcbpHybKem | EcxHybKem | HybSig

  /** The classical half of a hybrid algorithm: OQSX_EVP_INFO. */
  datatype EvpInfo = EvpInfo(
    rawKeySupport: bool, lengthPublicKey: nat, lengthPrivateKey: nat, kexLengthSecret: nat, lengthSignature: nat)

  /** The post-quantum half: the lengths of OQS_KEM or OQS_SIG. */
  datatype QsInfo = QsInfo(
    lengthPublicKey: nat, lengthSecretKey: nat, lengthCiphertext: nat, lengthSharedSecret: nat,
    lengthSignature: nat, claimedNistLevel: nat)

  /** The three ways two key shares are laid out behind the length header. */
  datatype Order = Packed | ClassicFirst | PqFirst

  /** What oqsx_key_new is given; `reverse` is its reverse_share argument. */
  datatype Alg = Alg(name: string, keytype: KeyType, reverse: bool, evp: EvpInfo, qs: QsInfo) {
    predicate IsHybridKem() {
      keytype == EcpHybKem || keytype == EcbpHybKem || keytype == EcxHybKem
    }

    predicate IsHybrid() {
      IsHybridKem() || keytype == HybSig
    }

    /** The stored flag: reverse_share is assigned only for hybrid KEMs. */
    predicate Reversed() {
      IsHybridKem() && reverse
    }

    function Order(): Order {
      if !IsHybridKem() then Packed else if reverse then PqFirst else ClassicFirst
    }

    function NumKeys(): nat {
      if IsHybrid() then 2 else 1
    }

    /** key->privkeylen */
    function PrivLen(): nat {
      if IsHybrid() then 4 + qs.lengthSecretKey + evp.lengthPrivateKey else qs.lengthSecretKey
    }

    /** key->pubkeylen */
    function PubLen(): nat {
      if IsHybrid() then 4 + qs.lengthPublicKey + evp.lengthPublicKey else qs.lengthPublicKey
    }

    /** Every length is positive and whole encodings fit the C `int` that carries their length. */
    predicate Valid() {
      && 0 < evp.lengthPublicKey && 0 < evp.lengthPrivateKey && 0 < evp.kexLengthSecret && 0 < evp.lengthSignature
      && 0 < qs.lengthPublicKey && 0 < qs.lengthSecretKey && 0 < qs.lengthCiphertext && 0 < qs.lengthSharedSecret
      && 0 < qs.lengthSignature
      && 8 + evp.lengthPublicKey + evp.lengthPrivateKey + qs.lengthPublicKey + qs.lengthSecretKey < 0x8000_0000
      && 4 + evp.lengthSignature + qs.lengthSignature < 0x8000_0000
    }
  }

  /** An EVP_PKEY is identified by a number; what it does is given by the functions below. */
  type Pkey = nat

  datatype Md = NoMd | Sha256 | Sha384 | Sha512

  /** The classical primitives. A trailing `nat` is the randomness a call draws. */
  datatype Classical = Classical(
    parsePrivate: Bytes -> Option<Pkey>,
    parsePublic: Bytes -> Option<Pkey>,
    encodePublic: Pkey -> Bytes,
    derive: (Pkey, Pkey) -> Option<Bytes>,
    sign: (Pkey, Md, Bytes, nat) -> Option<Bytes>,
    verify: (Pkey, Md, Bytes, Bytes) -> bool,
    digest: (Md, Bytes) -> Bytes)

  /** The post-quantum primitives, on encoded keys. */
  datatype Pq = Pq(
    encaps: (Bytes, nat) -> Option<(Bytes, Bytes)>,
    decaps: (Bytes, Bytes) -> Option<Bytes>,
    sign: (Bytes, Bytes, Bytes, nat) -> Option<Bytes>,
    verify: (Bytes, Bytes, Bytes, Bytes) -> bool)

  /** A generated classical key with the two encodings key generation writes. */
  datatype ClassicalPair = ClassicalPair(pkey: Pkey, pub: Bytes, priv: Bytes)

  /** A generated post-quantum key pair, as liboqs writes it. */
  datatype PqPair = PqPair(pk: Bytes, sk: Bytes)

  // ------------------------------------------------------------------ laws

  /** Parsing returns what was encoded; the private encoding is self-delimiting unless it is raw. */
  ghost predicate PairLaw(evp: EvpInfo, cl: Classical, g: ClassicalPair) {
    && cl.parsePrivate(g.priv) == Some(g.pkey)
    && cl.encodePublic(g.pkey) == g.pub
    && (!evp.rawKeySupport ==> forall n: nat :: cl.parsePrivate(g.priv + Zeros(n)) == Some(g.pkey))
  }

  /** A public share parses the same with the slack of its slot behind it; there is none if the share fills the slot. */
  predicate PaddedShareParses(evp: EvpInfo, cl: Classical, g: ClassicalPair) {
    |g.pub| <= evp.lengthPublicKey &&
    cl.parsePublic(g.pub + Zeros(evp.lengthPublicKey - |g.pub|)) == cl.parsePublic(g.pub)
  }

  /** The pair fits the lengths the algorithm allots to it. */
  predicate PairFits(evp: EvpInfo, g: ClassicalPair) {
    && |g.pub| <= evp.lengthPublicKey
    && |g.priv| <= evp.lengthPrivateKey
    && (evp.rawKeySupport ==> |g.pub| == evp.lengthPublicKey && |g.priv| == evp.lengthPrivateKey)
  }

  predicate PqPairFits(qs: QsInfo, p: PqPair) {
    |p.pk| == qs.lengthPublicKey && |p.sk| == qs.lengthSecretKey
  }

  /** Diffie-Hellman commutes between the private key `x` and the private key `y`. */
  ghost predicate DhLaw(evp: EvpInfo, cl: Classical, x: Pkey, y: Pkey) {
    var px, py := cl.parsePublic(cl.encodePublic(x)), cl.parsePublic(cl.encodePublic(y));
    && px.Some? && py.Some?
    && cl.derive(x, py.value).Some?
    && cl.derive(x, py.value) == cl.derive(y, px.value)
    && |cl.derive(x, py.value).value| == evp.kexLengthSecret
  }

  /** Every derived classical secret has the advertised length. */
  ghost predicate DeriveLengths(evp: EvpInfo, cl: Classical) {
    forall x, y :: cl.derive(x, y).Some? ==> |cl.derive(x, y).value| == evp.kexLengthSecret
  }

  /** Decapsulated secrets have the advertised length. */
  ghost predicate DecapsLengths(qs: QsInfo, pq: Pq) {
    forall sk, c :: pq.decaps(sk, c).Some? ==> |pq.decaps(sk, c).value| == qs.lengthSharedSecret
  }

  /** Encapsulation produces values of the advertised lengths. */
  ghost predicate EncapsLengths(qs: QsInfo, pq: Pq) {
    forall pk, r :: pq.encaps(pk, r).Some? ==>
      |pq.encaps(pk, r).value.0| == qs.lengthCiphertext && |pq.encaps(pk, r).value.1| == qs.lengthSharedSecret
  }

  /** Decapsulation inverts encapsulation for the pair `p`. */
  ghost predicate KemLaw(pq: Pq, p: PqPair) {
    forall r :: pq.encaps(p.pk, r).Some? ==>
      pq.decaps(p.sk, pq.encaps(p.pk, r).value.0) == Some(pq.encaps(p.pk, r).value.1)
  }

  /** Verification accepts what the matching private key signed. */
  ghost predicate ClassicalSigLaw(cl: Classical, signer: Pkey, verifier: Pkey) {
    forall md, d, r :: cl.sign(signer, md, d, r).Some? ==> cl.verify(verifier, md, d, cl.sign(signer, md, d, r).value)
  }

  ghost predicate PqSigLaw(pq: Pq, p: PqPair) {
    forall m, c, r :: pq.sign(p.sk, m, c, r).Some? ==> pq.verify(p.pk, m, pq.sign(p.sk, m, c, r).value, c)
  }

  /** liboqs never writes more signature bytes than it advertises. */
  ghost predicate PqSigLengths(qs: QsInfo, pq: Pq) {
    forall sk, m, c, r :: pq.sign(sk, m, c, r).Some? ==> |pq.sign(sk, m, c, r).value| <= qs.lengthSignature
  }
}
