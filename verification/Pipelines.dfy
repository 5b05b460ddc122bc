/**
 * Whole pipelines through the container and the protocols on top of it, as a
 * client runs them: each step computes its own offsets into the same buffers.
 */
module Pipelines {
  import opened Bytes
  import opened Primitives
  import opened Layout
  import opened KeyValues
  import opened Keys
  import opened KeyTheorems
  import opened HybridKem
  import opened HybridSig
  import opened SigContext

  /** A new key, generated from pairs that fit the algorithm. */
  method Generate(a: Alg, cl: Classical, g: ClassicalPair, p: PqPair) returns (key: OqsxKey)
    requires a.Valid() && PqPairFits(a.qs, p) && (a.IsHybrid() ==> PairFits(a.evp, g) && PairLaw(a.evp, cl, g))
    ensures fresh(key) && key.Valid() && key.alg == a && key.references == 1 && key.destroyed == 0
    ensures key.privkey != null && key.pubkey != null && fresh(key.privkey) && fresh(key.pubkey)
    ensures key.Val() == Generated(a, g, p) && Laid(a, key.Val())
  {
    hide Overwrite, Lay, PairFits, Splice, Zeros, Slots, DecodeUint32;
    key := new OqsxKey(a);
    PairAccepted(key, cl, g);
    GeneratedOnZeros(a, g, p);
    GeneratedIsLaid(a, g, p);
    var ret := key.KeyGen(cl, Some(g), Some(p));
  }

  lemma PairAccepted(key: OqsxKey, cl: Classical, g: ClassicalPair)
    ensures PairFits(key.alg.evp, g) && PairLaw(key.alg.evp, cl, g) ==> key.Accepts(cl, Some(g))
  {
  }

  /**
   * A generation that fails and is reported as a success: without a classical
   * pair a hybrid signature key comes back with its components never set.
   */
  method FailedGeneration(a: Alg, cl: Classical, p: PqPair) returns (key: OqsxKey, ret: int)
    requires a.Valid() && a.keytype.HybSig? && PqPairFits(a.qs, p)
    ensures fresh(key) && key.alg == a && ret == 0 && key.classicalPkey == None
    ensures key.compPriv == [Unset, Unset] && key.compPub == [Unset, Unset] && !Laid(a, key.Val())
  {
    hide GeneratedOver, DecodeUint32;
    key := new OqsxKey(a);
    ret := key.KeyGen(cl, None, Some(p));
  }

  lemma OctetsAreShort(a: Alg, kv: KeyVal)
    requires a.Valid() && Laid(a, kv) && EncodePrivate(a, kv).Some?
    ensures |EncodePrivate(a, kv).value| < 0x8000_0000
  {
    hide DecodeUint32;
  }

  /**
   * Generate, store as PKCS#8 octets, load. Wherever the encoding drops nothing
   * the loaded key has the same two buffers, slack included, the same components
   * and the same classical key, and the two match for every selection.
   */
  method StoreAndLoad(a: Alg, cl: Classical, g: ClassicalPair, p: PqPair, private_: bool, public_: bool, domain: bool)
    returns (key: OqsxKey, loaded: OqsxKey?, same: bool)
    requires Storable(a, cl, g, p)
    requires a.IsHybrid() && a.Order().ClassicFirst? ==> |g.priv| == a.evp.lengthPrivateKey
    ensures loaded != null && loaded != key && loaded.Val() == key.Val() && same
  {
    RoundTripIsExact(a, cl, g, p);
    hide Generated, EncodePrivate, DecodePrivate, Matches, Laid, PairLaw, DecodeUint32;
    key := Generate(a, cl, g, p);
    var octets := key.PkiPrivToDer();
    OctetsAreShort(a, key.Val());
    loaded := OqsxKey.FromPrivateOctets(a, cl, octets.value);
    var overrun;
    same, overrun := OqsxKey.Match(key, loaded, private_, public_, domain);
  }

  /**
   * Generate, export the parameters, import them into a new key. The new key has
   * the same buffers without the allocation slack, the same components and the
   * same classical key, and the two match for every selection.
   */
  method ExportAndImport(a: Alg, cl: Classical, g: ClassicalPair, p: PqPair, private_: bool, public_: bool, domain: bool)
    returns (key: OqsxKey, target: OqsxKey, ok: bool, same: bool)
    requires Storable(a, cl, g, p)
    ensures ok && same && target != key && target.Valid() && key.Valid() && key.Val() == Generated(a, g, p)
    ensures target.Priv() == Some(key.Priv().value[..a.PrivLen()]) && target.Pub() == Some(key.Pub().value[..a.PubLen()])
    ensures target.compPriv == key.compPriv && target.compPub == key.compPub && target.classicalPkey == key.classicalPkey
  {
    GeneratedIsConsistent(a, cl, g, p);
    hide Generated, ExportPriv, ExportPub, Matches, Laid, PairLaw, DecodeUint32, Zeros, ConsistentPair;
    key := Generate(a, cl, g, p);
    var priv, pub := key.ToParams(true);
    target := new OqsxKey(a);
    ExportThenImport(a, cl, key.Val(), target.Val());
    var fault, overrun;
    ok, fault := target.FromData(cl, priv, pub, true);
    same, overrun := OqsxKey.Match(key, target, private_, public_, domain);
  }

  /**
   * Generate two keys and match them: they match exactly if they were generated
   * from the same public parts, and by the private bit alone exactly if they were
   * generated from the same private parts.
   */
  method MatchGenerated(a: Alg, cl: Classical, g: ClassicalPair, p: PqPair, h: ClassicalPair, q: PqPair)
    returns (public_: bool, private_: bool)
    requires a.Valid() && PqPairFits(a.qs, p) && PqPairFits(a.qs, q)
    requires a.IsHybrid() ==> PairFits(a.evp, g) && PairLaw(a.evp, cl, g) && PairFits(a.evp, h) && PairLaw(a.evp, cl, h)
    ensures public_ <==> p.pk == q.pk && (a.IsHybrid() ==> g.pub == h.pub)
    ensures private_ <==> p.sk == q.sk && (a.IsHybrid() ==> g.priv == h.priv)
  {
    GeneratedMatchExactly(a, g, p, h, q, false, false);
    hide Generated, Matches, Laid, PairLaw, PairFits, DecodeUint32, Slots;
    var key := Generate(a, cl, g, p);
    var other := Generate(a, cl, h, q);
    var overrun;
    public_, overrun := OqsxKey.Match(key, other, false, true, false);
    private_, overrun := OqsxKey.Match(key, other, true, false, false);
  }

  /** Generate a hybrid key and ask for its four shares by name: each name hands out the share of that name. */
  method NamedShares(a: Alg, cl: Classical, g: ClassicalPair, p: PqPair) returns (key: OqsxKey, v: Views)
    requires a.Valid() && a.IsHybrid() && PqPairFits(a.qs, p) && PairFits(a.evp, g) && PairLaw(a.evp, cl, g)
    ensures key.privkey != null && key.pubkey != null
    ensures v.classicalPub.Range? && v.classicalPriv.Range? && v.pqPub.Range? && v.pqPriv.Range?
    ensures v.classicalPub.len == |g.pub| && v.classicalPub.off + |g.pub| <= key.pubkey.Length
    ensures Slice(key.pubkey[..], v.classicalPub.off, |g.pub|) == g.pub
    ensures v.classicalPriv.len == |g.priv| && v.classicalPriv.off + |g.priv| <= key.privkey.Length
    ensures Slice(key.privkey[..], v.classicalPriv.off, |g.priv|) == g.priv
    ensures v.pqPub.len == |p.pk| + (a.evp.lengthPublicKey - |g.pub|) && v.pqPub.off + |p.pk| <= key.pubkey.Length
    ensures Slice(key.pubkey[..], v.pqPub.off, |p.pk|) == p.pk
    ensures v.pqPriv.len == |p.sk| + (a.evp.lengthPrivateKey - |g.priv|) && v.pqPriv.off + |p.sk| <= key.privkey.Length
    ensures Slice(key.privkey[..], v.pqPriv.off, |p.sk|) == p.sk
  {
    NamedViews(a, g, p);
    hide Generated, HybridViews, Laid, PairLaw, PairFits, DecodeUint32, Slots, Slice;
    key := Generate(a, cl, g, p);
    v := key.GetHybridParams();
    assert key.Val().pubkey.value == key.pubkey[..] && key.Val().privkey.value == key.privkey[..];
  }

  /**
   * Set the public share of a key that has a public buffer, and get it back. Of
   * a hybrid signature key, whose share carries the header, the header stays.
   */
  method SetThenGet(key: OqsxKey, share: Bytes) returns (ok: bool, back: Bytes)
    requires key.Valid() && key.alg.Valid() && PubLaid(key.alg, key.Val()) && key.pubkey != null
    requires key.alg.keytype.HybSig? && |share| >= 4 ==> DecodeUint32(share) == DecodeUint32(key.pubkey[..])
    modifies key`privkey, key`pubkey, key`compPub, key.pubkey
    ensures ok <==> |share| == key.alg.PubLen() - (if key.alg.IsHybridKem() then 4 else 0)
    ensures ok ==> back == share && key.privkey == null
  {
    ghost var a, kv := key.alg, key.Val();
    InstalledIsThere(a, kv, share);
    if Install(a, kv, share).Some? {
      InstallAndLayout(a, kv.(privkey := None, compPriv := Nulls(a.NumKeys())), share);
    }
    hide Install, Share, Slots, DecodeUint32;
    ok := key.SetEncodedPublic(share);
    back := [];
    if ok {
      back := key.GetEncodedPublic();
    }
  }

  /** One side encapsulates to its peer's share, the other decapsulates, into buffers of the advertised lengths. */
  method EncapsThenDecaps(alice: OqsxKey, bob: OqsxKey, cl: Classical, pq: Pq, y: Pkey, coins: nat)
    returns (sent: int, received: int, ciphertext: array<byte>, bobSecret: array<byte>, aliceSecret: array<byte>)
    requires alice.Valid() && bob.Valid() && alice.alg == bob.alg && bob.alg.IsHybridKem()
    requires PrivLaid(alice.alg, alice.Val()) && PubLaid(bob.alg, bob.Val()) && alice.privkey != null && bob.pubkey != null
    requires EncapsLengths(bob.alg.qs, pq) && DecapsLengths(bob.alg.qs, pq) && DeriveLengths(bob.alg.evp, cl)
    requires var r := Encaps(bob.alg, cl, pq, bob.pubkey[..], Some(y), coins);
      r.Some? ==>
        |r.value.0| == CiphertextLen(bob.alg) && |r.value.1| == SecretLen(bob.alg) &&
        Decaps(alice.alg, cl, pq, alice.privkey[..], r.value.0) == Some(r.value.1)
    ensures sent == if Encaps(bob.alg, cl, pq, bob.pubkey[..], Some(y), coins).Some? then 1 else -1
    ensures sent == 1 ==> received == 1 && aliceSecret[..] == bobSecret[..]
    ensures sent == 1 ==>
      Some((ciphertext[..], bobSecret[..])) == Encaps(bob.alg, cl, pq, bob.pubkey[..], Some(y), coins)
  {
    hide Encaps, Decaps, PubLaid, PrivLaid, EncapsLengths, DecapsLengths, DeriveLengths;
    received := -1;
    ciphertext := ZeroAlloc(bob.alg.evp.lengthPublicKey + bob.alg.qs.lengthCiphertext);
    bobSecret := ZeroAlloc(bob.alg.evp.kexLengthSecret + bob.alg.qs.lengthSharedSecret);
    aliceSecret := ZeroAlloc(bob.alg.evp.kexLengthSecret + bob.alg.qs.lengthSharedSecret);
    var n, m: nat;
    var overrun;
    sent, n, m, overrun := HybKemEncaps(bob, cl, pq, Some(y), coins, ciphertext, 0, bobSecret, 0);
    if sent == 1 {
      assert ciphertext[..n] == ciphertext[..] && bobSecret[..m] == bobSecret[..];
      received, m := HybKemDecaps(alice, cl, pq, aliceSecret, ciphertext[..]);
      assert aliceSecret[..m] == aliceSecret[..];
    }
  }

  /**
   * The TLS exchange: Alice generates a key and sends her share, Bob installs it
   * in his key and encapsulates, Alice decapsulates what he sends. Whenever Bob's
   * post-quantum half succeeds both calls succeed and both hold the same secret.
   */
  method KeyExchange(a: Alg, cl: Classical, pq: Pq, g: ClassicalPair, p: PqPair, bob: OqsxKey, y: Pkey, coins: nat)
    returns (sent: int, received: int, ciphertext: array<byte>, bobSecret: array<byte>, aliceSecret: array<byte>)
    requires a.Valid() && a.IsHybridKem()
    requires PqPairFits(a.qs, p) && PairFits(a.evp, g) && PairLaw(a.evp, cl, g) && PaddedShareParses(a.evp, cl, g)
    requires bob.Valid() && bob.alg == a && PubLaid(a, bob.Val()) && bob.pubkey != null
    requires DhLaw(a.evp, cl, g.pkey, y) && |cl.encodePublic(y)| == a.evp.lengthPublicKey
    requires KemLaw(pq, p) && EncapsLengths(a.qs, pq) && DecapsLengths(a.qs, pq) && DeriveLengths(a.evp, cl)
    modifies bob, bob.pubkey
    ensures sent == if pq.encaps(p.pk, coins).Some? then 1 else -1
    ensures sent == 1 ==> received == 1 && aliceSecret[..] == bobSecret[..]
    ensures sent == 1 ==> |bobSecret[..]| == SecretLen(a) && |ciphertext[..]| == CiphertextLen(a)
    ensures sent == 1 ==>
      var classic, quantum := cl.encodePublic(y), pq.encaps(p.pk, coins).value.0;
      ciphertext[..] == if a.reverse then quantum + classic else classic + quantum
  {
    GeneratedIsLaid(a, g, p);
    HybridKemAgreement(a, cl, pq, g, p, bob.Val(), y, coins);
    InstalledShares(a, g, p, bob.Val());
    hide Generated, Encaps, Decaps, PubLaid, PrivLaid, Slots, DecodeUint32, Splice, Share;
    hide PairLaw, PairFits, KemLaw, DhLaw, EncapsLengths, DecapsLengths, DeriveLengths;
    var alice := Generate(a, cl, g, p);
    var share := alice.GetEncodedPublic();
    var ok := bob.SetEncodedPublic(share);
    sent, received, ciphertext, bobSecret, aliceSecret := EncapsThenDecaps(alice, bob, cl, pq, y, coins);
  }

  predicate SignatureKey(a: Alg) {
    a.keytype.HybSig? || a.keytype.Sig?
  }

  /** Does a run leave out the chunks of no bytes? The first of them would fail where nothing was collected before. */
  predicate NoEmptyChunk(es: seq<Event>) {
    Event.Update([]) !in es
  }

  /** Feed a context chunk by chunk, and ask it for the signature length in between. */
  method FeedAll(ctx: SigCtx, cl: Classical, pq: Pq, api: bool, es: seq<Event>) returns (ok: bool)
    requires ctx.Valid() && ctx.Ready() && PqSigLengths(ctx.key.alg.qs, pq) && (ctx.mdctx != null ==> !ctx.mdctx.finalized)
    modifies ctx`mddata, ctx`mdsize, ctx`flagAllowMd, ctx.mdctx
    ensures ctx.Valid() && (ctx.mdctx != null ==> !ctx.mdctx.finalized)
    ensures ctx.mddata == old(ctx.mddata) || (ctx.mddata != null && fresh(ctx.mddata))
    ensures ctx.Fed() == Run(old(ctx.Fed()), es)
    ensures NoEmptyChunk(es) ==> ok
  {
    hide Step, Run, Slots, DecodeUint32, PqSigLengths;
    ok := true;
    RunNothing(ctx.Fed());
    assert es[..0] == [];
    for i := 0 to |es|
      invariant ctx.Valid() && ctx.Ready() && (ctx.mdctx != null ==> !ctx.mdctx.finalized)
      invariant ctx.mddata == old(ctx.mddata) || (ctx.mddata != null && fresh(ctx.mddata))
      invariant ctx.Fed() == Run(old(ctx.Fed()), es[..i])
      invariant NoEmptyChunk(es) ==> ok
    {
      assert es[..i + 1] == es[..i] + [es[i]];
      RunAppend(old(ctx.Fed()), es[..i], es[i]);
      match es[i] {
        case Update(chunk) =>
          var fed := ctx.DigestUpdate(chunk);
          ok := ok && fed;
        case LengthQuery =>
          var _, _ := ctx.DigestSignFinal(cl, pq, api, null, 0, 0, 0);
          QueryChangesNothing(ctx.Fed());
      }
    }
    assert es[..|es|] == es;
  }

  lemma QueryChangesNothing(f: Feed)
    ensures Step(f, LengthQuery) == f
  {
  }

  lemma RunNothing(f: Feed)
    ensures Run(f, []) == f
  {
  }

  /** The context string that counts: none given is the empty one. */
  function Given(context: Option<Bytes>): Bytes {
    if context.None? then [] else context.value
  }

  /** A context on a key, initialised for one operation with a digest or without, given a context string or none, and fed. */
  method Prepare(key: OqsxKey, cl: Classical, pq: Pq, api: bool, md: Option<Md>, context: Option<Bytes>, op: Operation, es: seq<Event>)
    returns (ctx: SigCtx, ok: bool)
    requires key.references > 0 && key.Valid() && SignatureKey(key.alg) && Laid(key.alg, key.Val()) && PqSigLengths(key.alg.qs, pq)
    requires !(op == OpSign && key.privkey == null) && !(op == OpVerify && key.pubkey == null)
    modifies key
    ensures key.references == old(key.references) + 1 && key.destroyed == old(key.destroyed)
    ensures key.privkey == old(key.privkey) && key.pubkey == old(key.pubkey) && key.compPriv == old(key.compPriv)
    ensures key.compPub == old(key.compPub) && key.classicalPkey == old(key.classicalPkey)
    ensures fresh(ctx) && ctx.Valid() && ctx.key == key && ctx.operation == op && (NoEmptyChunk(es) ==> ok)
    ensures ctx.Context() == Given(context) && ctx.signature == null && (ctx.context != null ==> fresh(ctx.context))
    ensures (ctx.mdctx != null ==> fresh(ctx.mdctx)) && (ctx.mddata != null ==> fresh(ctx.mddata))
    ensures ctx.mdctx != null ==> !ctx.mdctx.finalized
    ensures ctx.Fed().absorbed.Some? <==> md.Some?
    ensures md.Some? ==> ctx.md == md.value
    ensures (if md.Some? then ctx.Fed().absorbed.value else ctx.Fed().collected) == Message(es)
  {
    hide Run, Message, Slots, DecodeUint32, PqSigLengths;
    ctx := new SigCtx();
    var _ := ctx.DigestSignVerifyInit(if md.Some? then Known(md.value) else NoDigest, key, op);
    if context.Some? {
      var _ := ctx.SetContext(context.value);
    }
    ghost var f := ctx.Fed();
    ok := FeedAll(ctx, cl, pq, api, es);
    RunIsConcatenation(f, es);
    assert [] + Message(es) == Message(es);
  }

  /** What a message fed to a context is signed or verified as. */
  function Final(cl: Classical, md: Option<Md>, message: Bytes): Bytes {
    if md.Some? then cl.digest(md.value, message) else message
  }

  /** What a fed context signs, into a buffer of the size its length query answers. */
  method SignFed(ctx: SigCtx, cl: Classical, pq: Pq, api: bool, r1: nat, r2: nat) returns (rv: int, sig: Bytes)
    requires ctx.Valid() && ctx.Ready() && ctx.key.privkey != null && PqSigLengths(ctx.key.alg.qs, pq)
    requires ctx.mdctx != null ==> !ctx.mdctx.finalized
    modifies ctx`flagAllowMd, ctx.mdctx
    ensures var s := Signature(ctx.key.alg, cl, pq, ctx.key.privkey[..], ctx.key.classicalPkey, SignHashes(ctx.operation, api),
                               ctx.Context(), Data(cl, ctx.md, old(ctx.Fed())), r1, r2);
      && rv == (if s.Some? then 1 else 0)
      && (s.Some? ==> sig == s.value && |sig| <= MaxSize(ctx.key.alg))
  {
    hide Signature, Slots, DecodeUint32, PqSigLengths, Data;
    var n: nat;
    rv, n := ctx.DigestSignFinal(cl, pq, api, null, 0, r1, r2);
    var buffer := ZeroAlloc(n);
    rv, n := ctx.DigestSignFinal(cl, pq, api, buffer, n, r1, r2);
    sig := if rv == 1 then buffer[..n] else [];
  }

  /** Is this the operation of a signing side, and is that the one of its verifying side? */
  predicate Matched(s: Operation, v: Operation) {
    (s == OpSign && v == OpVerify) || (s == OpSignMsg && v == OpVerifyMsg)
  }

  /** Sign a streamed message with a key, in a context of its own. */
  method SignStreamed(key: OqsxKey, cl: Classical, pq: Pq, op: Operation, md: Option<Md>, context: Option<Bytes>, api: bool,
                      es: seq<Event>, r1: nat, r2: nat)
    returns (rv: int, sig: Bytes, ok: bool)
    requires key.references > 0 && (op == OpSign || op == OpSignMsg)
    requires key.Valid() && SignatureKey(key.alg) && Laid(key.alg, key.Val()) && key.privkey != null && PqSigLengths(key.alg.qs, pq)
    modifies key
    ensures key.references == old(key.references) && key.destroyed == old(key.destroyed)
    ensures key.privkey == old(key.privkey) && key.pubkey == old(key.pubkey) && key.compPriv == old(key.compPriv)
    ensures key.compPub == old(key.compPub) && key.classicalPkey == old(key.classicalPkey)
    ensures NoEmptyChunk(es) ==> ok
    ensures var s := Signature(key.alg, cl, pq, key.privkey[..], key.classicalPkey, SignHashes(op, api), Given(context),
                               Final(cl, md, Message(es)), r1, r2);
      && rv == (if s.Some? then 1 else 0)
      && (s.Some? ==> sig == s.value && |sig| <= MaxSize(key.alg))
  {
    hide Signature, Slots, DecodeUint32, PqSigLengths, Message;
    var ctx: SigCtx;
    ctx, ok := Prepare(key, cl, pq, api, md, context, op, es);
    assert Data(cl, ctx.md, ctx.Fed()) == Final(cl, md, Message(es));
    rv, sig := SignFed(ctx, cl, pq, api, r1, r2);
    var _ := ctx.FreeCtx();
  }

  /** Verify a streamed message with a key, in a context of its own. */
  method VerifyStreamed(key: OqsxKey, cl: Classical, pq: Pq, op: Operation, md: Option<Md>, context: Option<Bytes>, api: bool,
                        es: seq<Event>, sig: Bytes)
    returns (rv: int, ok: bool)
    requires key.references > 0 && (op == OpVerify || op == OpVerifyMsg)
    requires key.Valid() && SignatureKey(key.alg) && Laid(key.alg, key.Val()) && key.pubkey != null && |sig| < TWO_TO_THE_64
    requires PqSigLengths(key.alg.qs, pq)
    modifies key
    ensures key.references == old(key.references) && key.destroyed == old(key.destroyed)
    ensures key.pubkey == old(key.pubkey) && key.classicalPkey == old(key.classicalPkey)
    ensures NoEmptyChunk(es) ==> ok
    ensures rv == 1 <==>
      Accepted(key.alg, cl, pq, key.pubkey[..], key.classicalPkey, VerifyHashes(op, api), Given(context), sig,
               Final(cl, md, Message(es)))
  {
    hide Accepted, Slots, DecodeUint32, Message, PqSigLengths;
    var ctx: SigCtx;
    ctx, ok := Prepare(key, cl, pq, api, md, context, op, es);
    assert Data(cl, ctx.md, ctx.Fed()) == Final(cl, md, Message(es));
    rv := ctx.DigestVerifyFinal(cl, pq, api, sig);
    var _ := ctx.FreeCtx();
  }

  /** The key a peer gets from the public encoding of a generated key. */
  lemma PeerOfGenerated(a: Alg, cl: Classical, g: ClassicalPair, p: PqPair)
    requires a.Valid() && PqPairFits(a.qs, p)
    requires a.IsHybrid() ==> PairFits(a.evp, g) && cl.parsePublic(g.pub).Some?
    ensures var kv := Generated(a, g, p);
      Laid(a, kv) &&
      var octets := EncodePublic(a, kv);
      octets.Some? && |octets.value| < 0x8000_0000 &&
      var r := DecodePublic(a, cl, octets.value);
      r.Some? && Laid(a, r.value) && r.value.pubkey == kv.pubkey && (a.IsHybrid() ==> r.value.classical == cl.parsePublic(g.pub))
  {
    GeneratedIsLaid(a, g, p);
    GeneratedPublicRoundTrip(a, cl, g, p);
    DecodedIsLaid(a, cl, EncodePublic(a, Generated(a, g, p)).value);
    hide DecodeUint32, DecodePublic, Slots;
  }

  /** A plain signature is accepted or not whatever classical key is beside it. */
  lemma PlainIgnoresClassical(a: Alg, cl: Classical, pq: Pq, pub: Bytes, k: Option<Pkey>, l: Option<Pkey>, hash: bool,
                              context: Bytes, sig: Bytes, tbs: Bytes)
    requires a.keytype.Sig? && |pub| >= a.PubLen()
    ensures Accepted(a, cl, pq, pub, k, hash, context, sig, tbs) == Accepted(a, cl, pq, pub, l, hash, context, sig, tbs)
  {
  }

  /**
   * Sign with a generated key, verify with the public key a peer decoded from
   * its encoding. However the two sides cut the message into chunks and ask for
   * lengths in between, with a running digest or without, for either matched
   * pair of operations, any context string given to both sides, and under either
   * setting of the message API, the peer accepts what was signed, a hybrid
   * signature exactly if it does not end with its classical part, which no
   * signature does if signing never returns an empty post-quantum part.
   */
  method SignHereVerifyThere(a: Alg, cl: Classical, pq: Pq, g: ClassicalPair, p: PqPair, s: Operation, v: Operation,
                             md: Option<Md>, context: Option<Bytes>, api: bool, here: seq<Event>, there: seq<Event>, r1: nat, r2: nat)
    returns (signed: int, sig: Bytes, verified: int)
    requires a.Valid() && SignatureKey(a) && PqPairFits(a.qs, p) && PqSigLaw(pq, p) && PqSigLengths(a.qs, pq)
    requires a.IsHybrid() ==>
      PairFits(a.evp, g) && PairLaw(a.evp, cl, g) && cl.parsePublic(g.pub).Some? &&
      ClassicalSigLaw(cl, g.pkey, cl.parsePublic(g.pub).value)
    requires Matched(s, v) && Message(here) == Message(there)
    ensures signed == 1 ==> (verified == 1 <==> LeavesRoom(a, sig)) && (PqSigPositive(pq) ==> verified == 1)
  {
    PeerOfGenerated(a, cl, g, p);
    ghost var m := Final(cl, md, Message(here));
    ghost var k := if a.IsHybrid() then cl.parsePublic(g.pub).value else 0;
    SignThenVerify(a, cl, pq, g, p, k, s, v, api, Given(context), m, r1, r2);
    hide Generated, Signature, Accepted, EncodePublic, DecodePublic, PairLaw, PairFits, ClassicalSigLaw, PqSigLaw, PqSigLengths;
    hide Slots, DecodeUint32, Message, Run, Zeros, Splice, Lay, Final, LeavesRoom, PqSigPositive;
    var key := Generate(a, cl, g, p);
    var octets := key.SpkiPubToDer();
    var peer := OqsxKey.FromPublicOctets(a, cl, octets.value);
    var ok: bool;
    signed, sig, ok := SignStreamed(key, cl, pq, s, md, context, api, here, r1, r2);
    verified := 0;
    if signed == 1 {
      verified, ok := VerifyStreamed(peer, cl, pq, v, md, context, api, there, sig);
      if a.keytype.Sig? {
        PlainIgnoresClassical(a, cl, pq, peer.pubkey[..], Some(k), peer.classicalPkey, VerifyHashes(v, api), Given(context), sig, m);
      }
    }
  }

  // ------------------------------------------------------ message operations

  /** Feed a context of the message operation, and ask it for the signature length in between. */
  method FeedMessage(ctx: SigCtx, cl: Classical, pq: Pq, api: bool, es: seq<Event>) returns (ok: bool)
    requires ctx.Valid() && ctx.Ready() && PqSigLengths(ctx.key.alg.qs, pq) && ctx.mdctx == null
    modifies ctx`mddata, ctx`mdsize
    ensures ctx.Valid()
    ensures ctx.mddata == old(ctx.mddata) || (ctx.mddata != null && fresh(ctx.mddata))
    ensures ctx.Fed() == Run(old(ctx.Fed()), es)
    ensures NoEmptyChunk(es) ==> ok
  {
    hide Run, Slots, DecodeUint32, PqSigLengths;
    ok := true;
    RunNothing(ctx.Fed());
    assert es[..0] == [];
    for i := 0 to |es|
      invariant ctx.Valid() && ctx.Ready()
      invariant ctx.mddata == old(ctx.mddata) || (ctx.mddata != null && fresh(ctx.mddata))
      invariant ctx.Fed() == Run(old(ctx.Fed()), es[..i])
      invariant NoEmptyChunk(es) ==> ok
    {
      assert es[..i + 1] == es[..i] + [es[i]];
      RunAppend(old(ctx.Fed()), es[..i], es[i]);
      match es[i] {
        case Update(chunk) =>
          var fed := ctx.MessageUpdate(chunk);
          ok := ok && fed;
        case LengthQuery =>
          var _, _ := ctx.SignMessageFinal(cl, pq, api, null, 0, 0, 0);
      }
    }
    assert es[..|es|] == es;
  }

  /** A context of a message operation on a key. */
  method MessageContext(key: OqsxKey, op: Operation) returns (ctx: SigCtx)
    requires key.references > 0 && (op == OpSignMsg || op == OpVerifyMsg)
    modifies key
    ensures key.references == old(key.references) + 1 && key.destroyed == old(key.destroyed)
    ensures key.privkey == old(key.privkey) && key.pubkey == old(key.pubkey) && key.compPriv == old(key.compPriv)
    ensures key.compPub == old(key.compPub) && key.classicalPkey == old(key.classicalPkey)
    ensures fresh(ctx) && ctx.Valid() && ctx.key == key && ctx.operation == op
    ensures ctx.mdctx == null && ctx.mddata == null && ctx.context == null && ctx.signature == null
  {
    ctx := new SigCtx();
    var _ := ctx.SignVerifyInit(key, op);
  }

  /** Query and final call after the updates. */
  method FinishPieces(ctx: SigCtx, cl: Classical, pq: Pq, api: bool, r1: nat, r2: nat) returns (rv: int, sig: Bytes)
    requires ctx.Valid() && ctx.Ready() && ctx.key.privkey != null && PqSigLengths(ctx.key.alg.qs, pq)
    ensures var s := Signature(ctx.key.alg, cl, pq, ctx.key.privkey[..], ctx.key.classicalPkey, SignHashes(ctx.operation, api),
                               ctx.Context(), ctx.Fed().collected, r1, r2);
      rv == (if s.Some? then 1 else 0) && sig == (if s.Some? then s.value else [])
  {
    hide Signature, Slots, DecodeUint32, PqSigLengths;
    var n: nat;
    rv, n := ctx.SignMessageFinal(cl, pq, api, null, 0, r1, r2);
    var buffer := ZeroAlloc(n);
    rv, n := ctx.SignMessageFinal(cl, pq, api, buffer, n, r1, r2);
    sig := if rv == 1 then buffer[..n] else [];
  }

  /** Query and call with the whole message. */
  method FinishAtOnce(ctx: SigCtx, cl: Classical, pq: Pq, api: bool, whole: Bytes, r1: nat, r2: nat) returns (rv: int, sig: Bytes)
    requires ctx.Valid() && ctx.Ready() && ctx.key.privkey != null && PqSigLengths(ctx.key.alg.qs, pq)
    requires ctx.operation == OpSignMsg && ctx.mddata == null
    modifies ctx`mddata, ctx`mdsize
    ensures ctx.mddata != null ==> fresh(ctx.mddata)
    ensures var s := Signature(ctx.key.alg, cl, pq, ctx.key.privkey[..], ctx.key.classicalPkey, SignHashes(OpSignMsg, api),
                               ctx.Context(), whole, r1, r2);
      if whole == [] then rv == 0
      else rv == (if s.Some? then 1 else 0) && sig == (if s.Some? then s.value else [])
  {
    hide Signature, Slots, DecodeUint32, PqSigLengths;
    var n: nat;
    rv, n := ctx.Sign(cl, pq, api, null, 0, whole, r1, r2);
    var buffer := ZeroAlloc(n);
    assert [] + whole == whole;
    rv, n := ctx.Sign(cl, pq, api, buffer, n, whole, r1, r2);
    sig := if rv == 1 then buffer[..n] else [];
  }

  /** Sign a message piece by piece, in a context of its own. */
  method SignInPieces(key: OqsxKey, cl: Classical, pq: Pq, api: bool, es: seq<Event>, r1: nat, r2: nat)
    returns (rv: int, sig: Bytes)
    requires key.references > 0 && key.Valid() && SignatureKey(key.alg) && Laid(key.alg, key.Val()) && key.privkey != null
    requires PqSigLengths(key.alg.qs, pq)
    modifies key
    ensures key.references == old(key.references) && key.destroyed == old(key.destroyed)
    ensures key.privkey == old(key.privkey) && key.pubkey == old(key.pubkey) && key.compPriv == old(key.compPriv)
    ensures key.compPub == old(key.compPub) && key.classicalPkey == old(key.classicalPkey)
    ensures var s := Signature(key.alg, cl, pq, key.privkey[..], key.classicalPkey, SignHashes(OpSignMsg, api), [],
                               Message(es), r1, r2);
      rv == (if s.Some? then 1 else 0) && sig == (if s.Some? then s.value else [])
  {
    hide Signature, Slots, DecodeUint32, PqSigLengths, Message, Run;
    var ctx := MessageContext(key, OpSignMsg);
    ghost var f := ctx.Fed();
    var ok := FeedMessage(ctx, cl, pq, api, es);
    RunIsConcatenation(f, es);
    assert [] + Message(es) == Message(es);
    rv, sig := FinishPieces(ctx, cl, pq, api, r1, r2);
    var _ := ctx.FreeCtx();
  }

  /** Sign a whole message, in a context of its own. */
  method SignAtOnce(key: OqsxKey, cl: Classical, pq: Pq, api: bool, whole: Bytes, r1: nat, r2: nat)
    returns (rv: int, sig: Bytes)
    requires key.references > 0 && key.Valid() && SignatureKey(key.alg) && Laid(key.alg, key.Val()) && key.privkey != null
    requires PqSigLengths(key.alg.qs, pq)
    modifies key
    ensures key.references == old(key.references) && key.destroyed == old(key.destroyed)
    ensures var s := Signature(key.alg, cl, pq, old(key.privkey[..]), old(key.classicalPkey), SignHashes(OpSignMsg, api), [],
                               whole, r1, r2);
      if whole == [] then rv == 0
      else rv == (if s.Some? then 1 else 0) && sig == (if s.Some? then s.value else [])
  {
    hide Signature, Slots, DecodeUint32, PqSigLengths;
    var ctx := MessageContext(key, OpSignMsg);
    rv, sig := FinishAtOnce(ctx, cl, pq, api, whole, r1, r2);
    var _ := ctx.FreeCtx();
  }

  /**
   * Signing a message in pieces is signing it at once: both calls answer alike
   * and leave the same bytes, for every cut of a message that is not empty. The
   * empty message can be signed by the final call alone, but not at once.
   */
  method SignMessageBothWays(key: OqsxKey, cl: Classical, pq: Pq, api: bool, es: seq<Event>, whole: Bytes, r1: nat, r2: nat)
    returns (inPieces: int, sig: Bytes, atOnce: int, sig': Bytes)
    requires key.references > 0 && key.Valid() && SignatureKey(key.alg) && Laid(key.alg, key.Val()) && key.privkey != null
    requires PqSigLengths(key.alg.qs, pq) && Message(es) == whole
    modifies key
    ensures key.references == old(key.references) && key.destroyed == old(key.destroyed)
    ensures inPieces == 1 <==>
      Signature(key.alg, cl, pq, old(key.privkey[..]), old(key.classicalPkey), SignHashes(OpSignMsg, api), [], whole, r1, r2).Some?
    ensures whole != [] ==> inPieces == atOnce && sig == sig'
    ensures whole == [] ==> atOnce == 0
  {
    hide Signature, Slots, DecodeUint32, PqSigLengths, Message;
    inPieces, sig := SignInPieces(key, cl, pq, api, es, r1, r2);
    atOnce, sig' := SignAtOnce(key, cl, pq, api, whole, r1, r2);
  }

  /** Verify a message piece by piece, in a context of its own. */
  method VerifyInPieces(key: OqsxKey, cl: Classical, pq: Pq, api: bool, es: seq<Event>, sig: Bytes) returns (rv: int)
    requires key.references > 0 && key.Valid() && SignatureKey(key.alg) && Laid(key.alg, key.Val()) && key.pubkey != null
    requires PqSigLengths(key.alg.qs, pq) && |sig| < TWO_TO_THE_64
    modifies key
    ensures key.references == old(key.references) && key.destroyed == old(key.destroyed)
    ensures key.privkey == old(key.privkey) && key.pubkey == old(key.pubkey) && key.compPriv == old(key.compPriv)
    ensures key.compPub == old(key.compPub) && key.classicalPkey == old(key.classicalPkey)
    ensures rv == 1 <==>
      Accepted(key.alg, cl, pq, key.pubkey[..], key.classicalPkey, VerifyHashes(OpVerifyMsg, api), [], sig, Message(es))
  {
    hide Accepted, Slots, DecodeUint32, PqSigLengths, Message, Run;
    var ctx := MessageContext(key, OpVerifyMsg);
    ghost var f := ctx.Fed();
    ctx.SetSignature(sig);
    var ok := FeedMessage(ctx, cl, pq, api, es);
    RunIsConcatenation(f, es);
    assert [] + Message(es) == Message(es);
    rv := ctx.VerifyMessageFinal(cl, pq, api);
    var _ := ctx.FreeCtx();
  }

  /** Verify a whole message, in a context of its own. */
  method VerifyAtOnce(key: OqsxKey, cl: Classical, pq: Pq, api: bool, whole: Bytes, sig: Bytes) returns (rv: int)
    requires key.references > 0 && key.Valid() && SignatureKey(key.alg) && Laid(key.alg, key.Val()) && key.pubkey != null
    requires |sig| < TWO_TO_THE_64
    modifies key
    ensures key.references == old(key.references) && key.destroyed == old(key.destroyed)
    ensures rv == 1 <==> (whole != [] &&
      Accepted(key.alg, cl, pq, old(key.pubkey[..]), old(key.classicalPkey), VerifyHashes(OpVerifyMsg, api), [], sig, whole))
  {
    hide Accepted, Slots, DecodeUint32;
    var ctx := MessageContext(key, OpVerifyMsg);
    assert [] + whole == whole;
    rv := ctx.Verify(cl, pq, api, sig, whole);
    var _ := ctx.FreeCtx();
  }

  /**
   * Verifying a message in pieces is verifying it at once, for every cut of a
   * message that is not empty: the signature is stored, the pieces collected, and
   * both ways accept exactly what the specification accepts.
   */
  method VerifyMessageBothWays(key: OqsxKey, cl: Classical, pq: Pq, api: bool, es: seq<Event>, whole: Bytes, sig: Bytes)
    returns (inPieces: int, atOnce: int)
    requires key.references > 0 && key.Valid() && SignatureKey(key.alg) && Laid(key.alg, key.Val()) && key.pubkey != null
    requires PqSigLengths(key.alg.qs, pq) && Message(es) == whole && |sig| < TWO_TO_THE_64
    modifies key
    ensures key.references == old(key.references) && key.destroyed == old(key.destroyed)
    ensures inPieces == 1 <==>
      Accepted(key.alg, cl, pq, old(key.pubkey[..]), old(key.classicalPkey), VerifyHashes(OpVerifyMsg, api), [], sig, whole)
    ensures whole != [] ==> (inPieces == 1 <==> atOnce == 1)
    ensures whole == [] ==> atOnce != 1
  {
    hide Accepted, Slots, DecodeUint32, PqSigLengths, Message;
    inPieces := VerifyInPieces(key, cl, pq, api, es, sig);
    atOnce := VerifyAtOnce(key, cl, pq, api, whole, sig);
  }
}
