/**
 * The value of a key object and what each operation on it computes, described
 * by the layout rather than by the offsets the provider calculates. Class
 * OqsxKey is proved against these functions.
 */
module KeyValues {
  import opened Bytes
  import opened Primitives
  import opened Layout

  /** An entry of comp_privkey or comp_pubkey: never written, NULL, a pointer into the buffer, or one to an allocation of its own. */
  datatype Slot = Unset | Null | At(off: nat) | Detached(data: Bytes)

  datatype KeyVal = KeyVal(
    privkey: Option<Bytes>, pubkey: Option<Bytes>, compPriv: seq<Slot>, compPub: seq<Slot>, classical: Option<Pkey>)

  // --------------------------------------------------------------- indices

  function IdxClassic(a: Alg): nat {
    if a.Reversed() then a.NumKeys() - 1 else 0
  }

  function IdxPq(a: Alg): nat {
    if a.Reversed() then 0 else a.NumKeys() - 1
  }

  /** The component pointers of a buffer whose post-quantum share has `pq` bytes and whose header is `c`. */
  function Slots(a: Alg, max: nat, pq: nat, c: nat): (s: seq<Slot>)
    ensures |s| == a.NumKeys()
  {
    if !a.IsHybrid() then [At(0)]
    else
      var classic, quantum := At(ClassicOffset(a.Order(), pq)), At(PqOffset(a.Order(), max, c));
      if a.Reversed() then [quantum, classic] else [classic, quantum]
  }

  function PrivSlots(a: Alg, c: nat): (s: seq<Slot>) {
    Slots(a, a.evp.lengthPrivateKey, a.qs.lengthSecretKey, c)
  }

  function PubSlots(a: Alg, c: nat): (s: seq<Slot>) {
    Slots(a, a.evp.lengthPublicKey, a.qs.lengthPublicKey, c)
  }

  function Nulls(n: nat): seq<Slot> {
    seq(n, i => Null)
  }

  /** Where the post-quantum share starts; a plain buffer is nothing but that share. */
  function PqAt(a: Alg, max: nat, c: nat): nat {
    if a.IsHybrid() then PqOffset(a.Order(), max, c) else 0
  }

  /** The header of a hybrid buffer; a plain buffer has none. */
  function Header(a: Alg, b: Bytes): nat
    requires a.IsHybrid() ==> |b| >= 4
  {
    if a.IsHybrid() then DecodeUint32(b) else 0
  }

  /** A stored length below 2^32 is read back. */
  lemma HeaderStored(b: Bytes, n: nat)
    requires |b| >= 4 && n < TWO_TO_THE_32
    ensures DecodeUint32(Splice(b, 0, EncodeUint32(n))) == n
  {
    hide EncodeUint32, DecodeUint32;
    DecodeEncode(n, b[4..]);
    assert Splice(b, 0, EncodeUint32(n)) == EncodeUint32(n) + b[4..];
  }

  // ------------------------------------------------------ layout invariant

  /** The private buffer, if present, is long enough and its component pointers are where the layout puts them. */
  predicate PrivLaid(a: Alg, kv: KeyVal) {
    match kv.privkey
    case None => kv.compPriv == Nulls(a.NumKeys())
    case Some(b) =>
      && |b| >= a.PrivLen()
      && (a.keytype.HybSig? ==> Header(a, b) <= a.evp.lengthPrivateKey)
      && kv.compPriv == PrivSlots(a, Header(a, b))
  }

  predicate PubLaid(a: Alg, kv: KeyVal) {
    match kv.pubkey
    case None => kv.compPub == Nulls(a.NumKeys())
    case Some(b) =>
      && |b| >= a.PubLen()
      && (a.keytype.HybSig? ==> Header(a, b) <= a.evp.lengthPublicKey)
      && kv.compPub == PubSlots(a, Header(a, b))
  }

  predicate Laid(a: Alg, kv: KeyVal) {
    PrivLaid(a, kv) && PubLaid(a, kv)
  }

  lemma LaidIgnoresClassical(a: Alg, kv: KeyVal, k: Option<Pkey>)
    ensures Laid(a, kv.(classical := k)) <==> Laid(a, kv)
  {
  }

  /** The stored classical lengths are in range, so the classical share itself, not only its slot, is well placed. */
  predicate PrivHeaderOk(a: Alg, kv: KeyVal) {
    kv.privkey.Some? && a.IsHybrid() ==> |kv.privkey.value| >= 4 && Header(a, kv.privkey.value) <= a.evp.lengthPrivateKey
  }

  predicate PubHeaderOk(a: Alg, kv: KeyVal) {
    kv.pubkey.Some? && a.IsHybrid() ==> |kv.pubkey.value| >= 4 && Header(a, kv.pubkey.value) <= a.evp.lengthPublicKey
  }

  // -------------------------------------------------------- key generation

  /** The three writes of key generation into a buffer. */
  function Overwrite(o: Order, max: nat, base: Bytes, c: Bytes, q: Bytes): (b: Bytes)
    requires |c| <= max && 4 + max + |q| <= |base|
    ensures |b| == |base|
  {
    Splice(Splice(Splice(base, ClassicOffset(o, |q|), c), 0, EncodeUint32(|c|)), PqOffset(o, max, |c|), q)
  }

  /** Does the output of the classical generator pass the checks made before its lengths are stored? */
  predicate Acceptable(a: Alg, cl: Classical, g: ClassicalPair) {
    && |g.pub| <= a.evp.lengthPublicKey
    && |g.priv| <= a.evp.lengthPrivateKey
    && (if a.evp.rawKeySupport then |g.pub| == a.evp.lengthPublicKey && |g.priv| == a.evp.lengthPrivateKey
        else cl.parsePrivate(g.priv).Some?)
  }

  /** The two buffers, and nothing where a write would run over the end of one of them. */
  datatype Buffers = Buffers(pub: Option<Bytes>, priv: Option<Bytes>)

  function Written(b: Bytes, off: nat, data: Bytes): (r: Option<Bytes>) {
    if off + |data| <= |b| then Some(Splice(b, off, data)) else None
  }

  /**
   * What the classical generator leaves in the buffers, accepted or refused. Raw
   * shares are written if they pass, the private one also if it is too short.
   * Encoded shares are written before their length is looked at, the public one
   * first. The headers are written only in the end.
   */
  function AfterClassic(a: Alg, cl: Classical, g: Option<ClassicalPair>, pub: Bytes, priv: Bytes, pubOff: nat, privOff: nat)
    : (r: Buffers)
    requires |pub| >= 4 && |priv| >= 4
  {
    if g.None? then Buffers(Some(pub), Some(priv))
    else
      var pubOk := if a.evp.rawKeySupport then |g.value.pub| == a.evp.lengthPublicKey else |g.value.pub| <= a.evp.lengthPublicKey;
      var p := if a.evp.rawKeySupport && !pubOk then Some(pub) else Written(pub, pubOff, g.value.pub);
      var q := if !pubOk || (a.evp.rawKeySupport && |g.value.priv| > a.evp.lengthPrivateKey) then Some(priv)
               else Written(priv, privOff, g.value.priv);
      if Acceptable(a, cl, g.value) && p.Some? && q.Some? then
        Buffers(Some(Splice(p.value, 0, EncodeUint32(|g.value.pub|))), Some(Splice(q.value, 0, EncodeUint32(|g.value.priv|))))
      else Buffers(p, q)
  }

  /** Is this what the two buffers hold, as far as it has a value? */
  predicate Holds(b: Buffers, pub: Option<Bytes>, priv: Option<Bytes>) {
    (b.pub.Some? ==> pub == b.pub) && (b.priv.Some? ==> priv == b.priv)
  }

  /** The key that generation leaves in the buffers `priv` and `pub`. */
  function GeneratedOver(a: Alg, priv: Bytes, pub: Bytes, g: ClassicalPair, p: PqPair): KeyVal
    requires |priv| >= a.PrivLen() && |pub| >= a.PubLen()
    requires PqPairFits(a.qs, p) && (a.IsHybrid() ==> PairFits(a.evp, g))
  {
    if a.IsHybrid() then
      KeyVal(Some(Overwrite(a.Order(), a.evp.lengthPrivateKey, priv, g.priv, p.sk)),
             Some(Overwrite(a.Order(), a.evp.lengthPublicKey, pub, g.pub, p.pk)),
             PrivSlots(a, |g.priv|), PubSlots(a, |g.pub|), Some(g.pkey))
    else
      KeyVal(Some(Splice(priv, 0, p.sk)), Some(Splice(pub, 0, p.pk)), PrivSlots(a, 0), PubSlots(a, 0), None)
  }

  /** A generated key, by its layout. The private allocation has four bytes more than privkeylen. */
  function Generated(a: Alg, g: ClassicalPair, p: PqPair): KeyVal
    requires PqPairFits(a.qs, p) && (a.IsHybrid() ==> PairFits(a.evp, g))
  {
    if a.IsHybrid() then
      KeyVal(Some(Lay(a.Order(), a.evp.lengthPrivateKey, g.priv, p.sk) + Zeros(4)),
             Some(Lay(a.Order(), a.evp.lengthPublicKey, g.pub, p.pk)),
             PrivSlots(a, |g.priv|), PubSlots(a, |g.pub|), Some(g.pkey))
    else
      KeyVal(Some(p.sk + Zeros(4)), Some(p.pk), PrivSlots(a, 0), PubSlots(a, 0), None)
  }

  lemma HeaderKept(b: Bytes, off: nat, data: Bytes)
    requires 4 <= off && off + |data| <= |b|
    ensures DecodeUint32(Splice(b, off, data)) == DecodeUint32(b)
  {
  }

  /** A generated key satisfies the layout invariant and stores the lengths its generator reported. */
  lemma GeneratedLaid(a: Alg, priv: Bytes, pub: Bytes, g: ClassicalPair, p: PqPair)
    requires a.Valid() && |priv| >= a.PrivLen() && |pub| >= a.PubLen()
    requires PqPairFits(a.qs, p) && (a.IsHybrid() ==> PairFits(a.evp, g))
    ensures var kv := GeneratedOver(a, priv, pub, g, p);
      Laid(a, kv) && (a.IsHybrid() ==> Header(a, kv.privkey.value) == |g.priv| && Header(a, kv.pubkey.value) == |g.pub|)
  {
    if a.IsHybrid() {
      hide EncodeUint32, DecodeUint32, Splice;
      var o := a.Order();
      var s1 := Splice(priv, ClassicOffset(o, |p.sk|), g.priv);
      HeaderStored(s1, |g.priv|);
      HeaderKept(Splice(s1, 0, EncodeUint32(|g.priv|)), PqOffset(o, a.evp.lengthPrivateKey, |g.priv|), p.sk);
      var t1 := Splice(pub, ClassicOffset(o, |p.pk|), g.pub);
      HeaderStored(t1, |g.pub|);
      HeaderKept(Splice(t1, 0, EncodeUint32(|g.pub|)), PqOffset(o, a.evp.lengthPublicKey, |g.pub|), p.pk);
    }
  }

  /** Generating into zeroed buffers gives exactly the laid-out key. */
  lemma GeneratedOnZeros(a: Alg, g: ClassicalPair, p: PqPair)
    requires PqPairFits(a.qs, p) && (a.IsHybrid() ==> PairFits(a.evp, g))
    ensures GeneratedOver(a, Zeros(a.PrivLen() + 4), Zeros(a.PubLen()), g, p) == Generated(a, g, p)
  {
    if a.IsHybrid() {
      LayBySplices(a.Order(), a.evp.lengthPrivateKey, g.priv, p.sk, 4);
      LayBySplices(a.Order(), a.evp.lengthPublicKey, g.pub, p.pk, 0);
      assert Lay(a.Order(), a.evp.lengthPublicKey, g.pub, p.pk) + Zeros(0) == Lay(a.Order(), a.evp.lengthPublicKey, g.pub, p.pk);
    } else {
      assert Splice(Zeros(a.PrivLen() + 4), 0, p.sk) == p.sk + Zeros(4);
      assert Splice(Zeros(a.PubLen()), 0, p.pk) == p.pk;
    }
  }

  // ----------------------------------------------------- PKCS#8 inner data

  /** The private-key octets: the used part of the private buffer, then the post-quantum public key. */
  function EncodePrivate(a: Alg, kv: KeyVal): (r: Option<Bytes>)
    requires Laid(a, kv)
  {
    if kv.privkey.None? || kv.pubkey.None? then None
    else if !a.IsHybrid() then Some(kv.privkey.value[..a.PrivLen()] + kv.pubkey.value[..a.PubLen()])
    else
      var c := Header(a, kv.privkey.value);
      if c > a.evp.lengthPrivateKey then None
      else
        var off := PqOffset(a.Order(), a.evp.lengthPublicKey, Header(a, kv.pubkey.value));
        Some(kv.privkey.value[..4 + a.qs.lengthSecretKey + c] + Slice(kv.pubkey.value, off, a.qs.lengthPublicKey))
  }

  /** The octet strings the private decoder does not reject by length or header. */
  predicate PrivateShape(a: Alg, p: Bytes) {
    if a.IsHybrid() then
      && |p| >= 4
      && 0 < DecodeUint32(p) <= a.evp.lengthPrivateKey
      && |p| == 4 + DecodeUint32(p) + a.qs.lengthSecretKey + a.qs.lengthPublicKey
    else
      |p| == a.qs.lengthSecretKey + a.qs.lengthPublicKey
  }

  /** The classical private share inside an octet string of that shape. */
  function ClassicalOf(a: Alg, p: Bytes): Bytes
    requires a.IsHybrid() && PrivateShape(a, p)
  {
    Slice(p, ClassicOffset(a.Order(), a.qs.lengthSecretKey), DecodeUint32(p))
  }

  /** The key an octet string decodes to: the classical public share is derived again, the slack is zero. */
  function DecodePrivate(a: Alg, cl: Classical, p: Bytes): (r: Option<KeyVal>) {
    if !PrivateShape(a, p) then None
    else if !a.IsHybrid() then
      var n := a.qs.lengthSecretKey;
      Some(KeyVal(Some(p[..n] + Zeros(4)), Some(p[n..]), PrivSlots(a, 0), PubSlots(a, 0), None))
    else
      var c := DecodeUint32(p);
      var k := cl.parsePrivate(ClassicalOf(a, p));
      if k.None? || |cl.encodePublic(k.value)| != a.evp.lengthPublicKey then None
      else
        var n := 4 + c + a.qs.lengthSecretKey;
        Some(KeyVal(Some(p[..n] + Zeros(a.evp.lengthPrivateKey - c + 4)),
                    Some(Lay(a.Order(), a.evp.lengthPublicKey, cl.encodePublic(k.value), p[n..])),
                    PrivSlots(a, c), PubSlots(a, a.evp.lengthPublicKey), k))
  }

  /** The public buffer before the classical share is derived: header and post-quantum share only. */
  function PubSkeleton(a: Alg, q: Bytes): (b: Bytes)
    requires a.IsHybrid() && |q| == a.qs.lengthPublicKey
    ensures |b| == a.PubLen()
  {
    var max := a.evp.lengthPublicKey;
    Splice(Splice(Zeros(a.PubLen()), 0, EncodeUint32(max)), PqOffset(a.Order(), max, max), q)
  }

  /** Filling the classical slot of the skeleton completes the layout. */
  lemma SkeletonCompleted(a: Alg, cpub: Bytes, q: Bytes)
    requires a.Valid() && a.IsHybrid() && |q| == a.qs.lengthPublicKey && |cpub| == a.evp.lengthPublicKey
    ensures Header(a, PubSkeleton(a, q)) == a.evp.lengthPublicKey
    ensures Splice(PubSkeleton(a, q), ClassicOffset(a.Order(), |q|), cpub) == Lay(a.Order(), |cpub|, cpub, q)
  {
    var b := PubSkeleton(a, q);
    HeaderStored(Zeros(a.PubLen()), |cpub|);
    assert b[..4] == Splice(Zeros(a.PubLen()), 0, EncodeUint32(|cpub|))[..4];
    LayUnique(a.Order(), |cpub|, cpub, q, 0, Splice(b, ClassicOffset(a.Order(), |q|), cpub));
    assert Lay(a.Order(), |cpub|, cpub, q) + Zeros(0) == Lay(a.Order(), |cpub|, cpub, q);
  }

  /** What the two fills of the private decoder leave for the classical key to be rebuilt from. */
  lemma PopulatedHybrid(a: Alg, p: Bytes, priv: Bytes, pub: Bytes)
    requires a.Valid() && a.IsHybrid() && PrivateShape(a, p)
    requires var used := |p| - a.qs.lengthPublicKey;
      priv == p[..used] + Zeros(a.PrivLen() + 4 - used) && pub == PubSkeleton(a, p[used..])
    ensures Header(a, priv) == DecodeUint32(p) && Header(a, pub) == a.evp.lengthPublicKey
    ensures Slice(priv, ClassicOffset(a.Order(), a.qs.lengthSecretKey), DecodeUint32(p)) == ClassicalOf(a, p)
  {
    var used := |p| - a.qs.lengthPublicKey;
    var co, c := ClassicOffset(a.Order(), a.qs.lengthSecretKey), DecodeUint32(p);
    assert priv[..4] == p[..4];
    assert priv[..used] == p[..used];
    SliceInPrefix(priv, p, used, co, c);
    SkeletonCompleted(a, Zeros(a.evp.lengthPublicKey), p[used..]);
  }

  /** SubjectPublicKeyInfo carries the public buffer unchanged. */
  function EncodePublic(a: Alg, kv: KeyVal): (r: Option<Bytes>)
    requires PubLaid(a, kv)
  {
    if kv.pubkey.None? then None else Some(kv.pubkey.value[..a.PubLen()])
  }

  function DecodePublic(a: Alg, cl: Classical, p: Bytes): (r: Option<KeyVal>) {
    if |p| != a.PubLen() then None
    else if !a.IsHybrid() then Some(KeyVal(None, Some(p), Nulls(1), PubSlots(a, 0), None))
    else
      var c := DecodeUint32(p);
      if c > a.evp.lengthPublicKey then None
      else
        var k := cl.parsePublic(Slice(p, ClassicOffset(a.Order(), a.qs.lengthPublicKey), c));
        if k.None? then None else Some(KeyVal(None, Some(p), Nulls(2), PubSlots(a, c), k))
  }

  // ----------------------------------------------------------- import data

  /** What the stored classical share parses to. */
  function ParsedShare(a: Alg, cl: Classical, buf: Bytes, private_: bool): (r: Option<Pkey>)
    requires a.IsHybrid() && |buf| >= if private_ then a.PrivLen() else a.PubLen()
    requires Header(a, buf) <= if private_ then a.evp.lengthPrivateKey else a.evp.lengthPublicKey
  {
    var pq := if private_ then a.qs.lengthSecretKey else a.qs.lengthPublicKey;
    var share := Slice(buf, ClassicOffset(a.Order(), pq), Header(a, buf));
    if private_ then cl.parsePrivate(share) else cl.parsePublic(share)
  }

  /**
   * The classical key rebuilt from one of the buffers, or nothing if the stored
   * length is out of range, the bytes do not parse, or the public key derived
   * from a private one does not fill its slot.
   */
  function Rebuilt(a: Alg, cl: Classical, buf: Bytes, private_: bool): (r: Option<Pkey>)
    requires a.IsHybrid() && |buf| >= if private_ then a.PrivLen() else a.PubLen()
  {
    if Header(a, buf) > if private_ then a.evp.lengthPrivateKey else a.evp.lengthPublicKey then None
    else
      var k := ParsedShare(a, cl, buf, private_);
      if private_ && k.Some? && |cl.encodePublic(k.value)| != a.evp.lengthPublicKey then None else k
  }

  /** The classical key field after a rebuild, refused or not: it is stored before the derived length is checked. */
  function KeyAfter(a: Alg, cl: Classical, buf: Bytes, private_: bool, previous: Option<Pkey>): (r: Option<Pkey>)
    requires a.IsHybrid() && |buf| >= if private_ then a.PrivLen() else a.PubLen()
  {
    if Header(a, buf) > if private_ then a.evp.lengthPrivateKey else a.evp.lengthPublicKey then previous
    else ParsedShare(a, cl, buf, private_)
  }

  /**
   * The public buffer after a rebuild from a private one, refused or not. A raw
   * public key is written only at its full length; any other is written before
   * its length is looked at, unless that would run over the end of the buffer,
   * for which there is no value.
   */
  function PubAfter(a: Alg, cl: Classical, priv: Bytes, pub: Bytes): (r: Option<Bytes>)
    requires a.IsHybrid() && |priv| >= a.PrivLen() && |pub| >= a.PubLen()
  {
    if Header(a, priv) > a.evp.lengthPrivateKey || ParsedShare(a, cl, priv, true).None? then Some(pub)
    else
      var d := cl.encodePublic(ParsedShare(a, cl, priv, true).value);
      var off := ClassicOffset(a.Order(), a.qs.lengthPublicKey);
      if a.evp.rawKeySupport && |d| != a.evp.lengthPublicKey then Some(pub)
      else if off + |d| <= |pub| then Some(Splice(pub, off, d))
      else None
  }

  /** The public buffer after the classical public key has been derived again from the private one. */
  function Rederived(a: Alg, cl: Classical, pub: Bytes, k: Pkey): (r: Bytes)
    requires a.IsHybrid() && |pub| >= a.PubLen() && |cl.encodePublic(k)| == a.evp.lengthPublicKey
    ensures |r| == |pub|
  {
    Splice(pub, ClassicOffset(a.Order(), a.qs.lengthPublicKey), cl.encodePublic(k))
  }

  /** What import makes of the two buffers it ends up with. */
  function Finish(a: Alg, cl: Classical, priv: Option<Bytes>, pub: Option<Bytes>, previous: Option<Pkey>)
    : (r: Option<KeyVal>)
    requires priv.Some? ==> |priv.value| >= a.PrivLen()
    requires pub.Some? ==> |pub.value| >= a.PubLen()
    requires a.IsHybrid() ==> priv.Some? || pub.Some?
  {
    var cp := if priv.Some? then PrivSlots(a, Header(a, priv.value)) else Nulls(a.NumKeys());
    var cq := if pub.Some? then PubSlots(a, Header(a, pub.value)) else Nulls(a.NumKeys());
    if !a.IsHybrid() then Some(KeyVal(priv, pub, cp, cq, previous))
    else if a.keytype.HybSig? && pub.Some? && Header(a, pub.value) > a.evp.lengthPublicKey then None
    else
      var k := Rebuilt(a, cl, if priv.Some? then priv.value else pub.value, priv.Some?);
      if k.None? then None
      else if priv.Some? && pub.Some? then
        Some(KeyVal(priv, Some(Rederived(a, cl, pub.value, k.value)), cp, cq, k))
      else Some(KeyVal(priv, pub, cp, cq, k))
  }

  /** Are the components refused? Only a hybrid signature key looks at its headers for them. */
  predicate ComponentsRefused(a: Alg, priv: Option<Bytes>, pub: Option<Bytes>)
    requires priv.Some? ==> |priv.value| >= a.PrivLen()
    requires pub.Some? ==> |pub.value| >= a.PubLen()
  {
    a.keytype.HybSig? &&
    ((priv.Some? && Header(a, priv.value) > a.evp.lengthPrivateKey) || (pub.Some? && Header(a, pub.value) > a.evp.lengthPublicKey))
  }

  /** What an import that is refused at its end leaves in the public buffer and in the classical key field. */
  predicate LeftByRefusal(a: Alg, cl: Classical, priv: Option<Bytes>, pub: Option<Bytes>, previous: Option<Pkey>,
                          pubNow: Option<Bytes>, classicalNow: Option<Pkey>)
    requires a.IsHybrid() && (priv.Some? || pub.Some?)
    requires priv.Some? ==> |priv.value| >= a.PrivLen()
    requires pub.Some? ==> |pub.value| >= a.PubLen()
  {
    if ComponentsRefused(a, priv, pub) then pubNow == pub && classicalNow == previous
    else
      && classicalNow == KeyAfter(a, cl, if priv.Some? then priv.value else pub.value, priv.Some?, previous)
      && (if priv.Some? && pub.Some? then
            PubAfter(a, cl, priv.value, pub.value).Some? ==> pubNow == PubAfter(a, cl, priv.value, pub.value)
          else pubNow == pub)
  }

  /** The private buffer an import works on: the parameter if it is to be used, else the one already there. */
  function Chosen(given: Option<Bytes>, use: bool, present: Option<Bytes>): Option<Bytes> {
    if given.Some? && use then given else present
  }

  /**
   * Does the import get as far as reading the header of a public buffer that is
   * not there? That takes a hybrid key without buffers, a private parameter that
   * is not to be used, and no public one.
   */
  predicate ReadsNull(a: Alg, kv: KeyVal, priv: Option<Bytes>, pub: Option<Bytes>, includePrivate: bool) {
    a.IsHybrid() && priv.Some? && !includePrivate && pub.None? && kv.privkey.None? && kv.pubkey.None?
  }

  /** The key after an import; there is none if a parameter is refused or a null buffer would be read. */
  function FromData(a: Alg, cl: Classical, kv: KeyVal, priv: Option<Bytes>, pub: Option<Bytes>, includePrivate: bool)
    : (r: Option<KeyVal>)
    requires kv.privkey.Some? ==> |kv.privkey.value| >= a.PrivLen()
    requires kv.pubkey.Some? ==> |kv.pubkey.value| >= a.PubLen()
  {
    if (priv.None? && pub.None?) || ReadsNull(a, kv, priv, pub, includePrivate) then None
    else if priv.Some? && includePrivate && |priv.value| != a.PrivLen() then None
    else if pub.Some? && |pub.value| != a.PubLen() then None
    else Finish(a, cl, Chosen(priv, includePrivate, kv.privkey), Chosen(pub, true, kv.pubkey), kv.classical)
  }

  /** The parameters export hands out: privkeylen and pubkeylen bytes, without the allocation slack. */
  function ExportPriv(a: Alg, kv: KeyVal, includePrivate: bool): Option<Bytes>
    requires PrivLaid(a, kv)
  {
    if kv.privkey.Some? && includePrivate then Some(kv.privkey.value[..a.PrivLen()]) else None
  }

  function ExportPub(a: Alg, kv: KeyVal): Option<Bytes>
    requires PubLaid(a, kv)
  {
    if kv.pubkey.Some? then Some(kv.pubkey.value[..a.PubLen()]) else None
  }

  // -------------------------------------------------------- component views

  /** What the parameter getter exposes of one share: where it starts and how many bytes, nothing, or a length without a start. */
  datatype View = NoView | Range(off: nat, len: int) | NullRange(len: int)

  datatype Views = Views(classicalPub: View, classicalPriv: View, pqPub: View, pqPriv: View)

  /** Conversion of a 64-bit value to a C `int`. */
  function ToInt32(n: nat): int {
    if Wrap32(n) < 0x8000_0000 then Wrap32(n) else Wrap32(n) - TWO_TO_THE_32
  }

  /** The two views of one buffer: the header gives the classical length, the rest is taken to be the other share. */
  function BufferViews(a: Alg, b: Bytes, max: nat, pq: nat): (v: (View, View))
    requires a.IsHybrid() && |b| >= 4
  {
    var c := Header(a, b);
    (Range(ClassicOffset(a.Order(), pq), c), Range(PqOffset(a.Order(), max, c), ToInt32(Wrap64(max + pq - c))))
  }

  /**
   * The views of a hybrid key. Where there is no private buffer the post-quantum
   * private view is a null pointer that still comes with a length.
   */
  function HybridViews(a: Alg, kv: KeyVal): Views
    requires a.IsHybrid() && Laid(a, kv)
  {
    if kv.classical.None? then Views(NoView, NoView, NoView, NoView)
    else
      var pub := if kv.pubkey.None? then (NoView, NoView)
        else BufferViews(a, kv.pubkey.value, a.evp.lengthPublicKey, a.qs.lengthPublicKey);
      var priv := if kv.privkey.None? then (NoView, NullRange(ToInt32(Wrap64(a.evp.lengthPrivateKey + a.qs.lengthSecretKey))))
        else BufferViews(a, kv.privkey.value, a.evp.lengthPrivateKey, a.qs.lengthSecretKey);
      Views(pub.0, priv.0, pub.1, priv.1)
  }

  // ------------------------------------------------------------- key shares

  /** The TLS key share: hybrid KEMs do not pass the length header out. */
  function Share(a: Alg, kv: KeyVal): Bytes
    requires PubLaid(a, kv) && kv.pubkey.Some?
  {
    if a.IsHybridKem() then kv.pubkey.value[4..a.PubLen()] else kv.pubkey.value[..a.PubLen()]
  }

  /**
   * Installing a public share drops the private buffer. On a hybrid KEM key it
   * replaces everything behind the header, on any other key the whole public
   * buffer; the component pointers stay as they are. Without a public buffer the
   * share gets an allocation of its own, which on a hybrid KEM key only the first
   * component points to.
   */
  function Install(a: Alg, kv: KeyVal, share: Bytes): (r: Option<KeyVal>)
    requires PubLaid(a, kv)
  {
    var off := if a.IsHybridKem() then 4 else 0;
    if |share| != a.PubLen() - off then None
    else if kv.pubkey.Some? then Some(kv.(privkey := None, pubkey := Some(Splice(kv.pubkey.value, off, share))))
    else if a.IsHybridKem() then Some(kv.(privkey := None, compPub := kv.compPub[0 := Detached(share)]))
    else Some(kv.(privkey := None, pubkey := Some(share)))
  }

  // --------------------------------------------------------------- matching

  /**
   * oqsx_match; the three flags are the selection bits it looks at. Private keys
   * are compared over the length of the first, also when the names differ.
   */
  predicate Matches(a1: Alg, a2: Alg, k1: KeyVal, k2: KeyVal, private_: bool, public_: bool, domain: bool)
    requires a1.name == a2.name ==> a1 == a2
    requires k1.privkey.Some? ==> |k1.privkey.value| >= a1.PrivLen()
    requires k2.privkey.Some? ==> |k2.privkey.value| >= a2.PrivLen()
    requires k1.pubkey.Some? ==> |k1.pubkey.value| >= a1.PubLen()
    requires k2.pubkey.Some? ==> |k2.pubkey.value| >= a2.PubLen()
    requires public_ && domain && k1.privkey.Some? && k2.privkey.Some? ==> |k2.privkey.value| >= a1.PrivLen()
  {
    if !public_ then
      private_ ==>
        a1.name == a2.name && k1.privkey.Some? == k2.privkey.Some? &&
        (k1.privkey.Some? ==> k1.privkey.value[..a1.PrivLen()] == k2.privkey.value[..a1.PrivLen()])
    else if a1.name != a2.name || k1.pubkey.Some? != k2.pubkey.Some? then
      domain && k1.privkey.Some? && k2.privkey.Some? &&
      k1.privkey.value[..a1.PrivLen()] == k2.privkey.value[..a1.PrivLen()]
    else k1.pubkey.Some? ==> k1.pubkey.value[..a1.PubLen()] == k2.pubkey.value[..a1.PubLen()]
  }
}
