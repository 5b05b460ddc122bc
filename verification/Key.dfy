/**
 * OQSX_KEY: the hybrid key container. The methods allocate, fill and read the
 * two flat buffers in place, through offsets computed where they are needed.
 */
module Keys {
  import opened Bytes
  import opened Primitives
  import opened Layout
  import opened KeyValues

  datatype KeyOp = KeyOpPublic | KeyOpPrivate

  class OqsxKey {
    const alg: Alg
    const reverseShare: bool
    var references: int
    ghost var destroyed: nat
    var privkey: array?<byte>
    var pubkey: array?<byte>
    var compPriv: seq<Slot>
    var compPub: seq<Slot>
    var classicalPkey: Option<Pkey>

    ghost predicate Valid()
      reads this
    {
      && alg.Valid()
      && reverseShare == alg.Reversed()
      && |compPriv| == alg.NumKeys() && |compPub| == alg.NumKeys()
      && (privkey != null ==> privkey.Length >= alg.PrivLen())
      && (pubkey != null ==> pubkey.Length >= alg.PubLen())
      && (privkey != null && pubkey != null ==> privkey != pubkey)
    }

    ghost function Priv(): Option<Bytes>
      reads this, privkey
    {
      if privkey == null then None else Some(privkey[..])
    }

    ghost function Pub(): Option<Bytes>
      reads this, pubkey
    {
      if pubkey == null then None else Some(pubkey[..])
    }

    ghost function Val(): KeyVal
      reads this, privkey, pubkey
    {
      KeyVal(Priv(), Pub(), compPriv, compPub, classicalPkey)
    }

    /** oqsx_key_new: only the hybrid KEM cases store the reverse flag. */
    constructor (a: Alg)
      requires a.Valid()
      ensures Valid() && alg == a && references == 1 && destroyed == 0
      ensures reverseShare ==> a.IsHybridKem()
      ensures privkey == null && pubkey == null && classicalPkey == None
      ensures compPriv == seq(a.NumKeys(), i => Unset) && compPub == compPriv
    {
      alg := a;
      match a.keytype {
        case Sig | Kem | HybSig => reverseShare := false;
        case EcxHybKem | EcbpHybKem | EcpHybKem => reverseShare := a.reverse;
      }
      references, destroyed := 1, 0;
      privkey, pubkey := null, null;
      compPriv := seq(a.NumKeys(), i => Unset);
      compPub := seq(a.NumKeys(), i => Unset);
      classicalPkey := None;
    }

    // ------------------------------------------------- reference counting

    /** oqsx_key_free: the last release destroys the key and drops its buffers. */
    method Free()
      modifies this
      ensures references == old(references) - 1
      ensures destroyed == old(destroyed) + (if references <= 0 then 1 else 0)
      ensures references > 0 ==>
        privkey == old(privkey) && pubkey == old(pubkey) && compPriv == old(compPriv) && compPub == old(compPub) &&
        classicalPkey == old(classicalPkey)
      ensures references <= 0 ==> privkey == null && pubkey == null && classicalPkey == None
    {
      references := references - 1;
      if references > 0 {
        return;
      }
      privkey, pubkey := null, null;
      classicalPkey := None;
      destroyed := destroyed + 1;
    }

    /** oqsx_key_up_ref */
    method UpRef() returns (ok: bool)
      modifies this`references
      ensures references == old(references) + 1
      ensures ok <==> old(references) > 0
    {
      references := references + 1;
      ok := references > 1;
    }

    // --------------------------------------------- buffers and components

    /** oqsx_key_allocate_keymaterial; the private allocation is four bytes longer than privkeylen. */
    method AllocateKeymaterial(includePrivate: bool)
      requires Valid()
      modifies this`privkey, this`pubkey
      ensures Valid()
      ensures includePrivate && old(privkey) == null ==>
        privkey != null && fresh(privkey) && privkey[..] == Zeros(alg.PrivLen() + 4)
      ensures !(includePrivate && old(privkey) == null) ==> privkey == old(privkey)
      ensures !includePrivate && old(pubkey) == null ==>
        pubkey != null && fresh(pubkey) && pubkey[..] == Zeros(alg.PubLen())
      ensures !(!includePrivate && old(pubkey) == null) ==> pubkey == old(pubkey)
    {
      if privkey == null && includePrivate {
        privkey := ZeroAlloc(alg.PrivLen() + 4);
      }
      if pubkey == null && !includePrivate {
        pubkey := ZeroAlloc(alg.PubLen());
      }
    }

    /**
     * oqsx_comp_set_idx: in every hybrid component array the two indices pick
     * the entry pointing at the classical and at the post-quantum share.
     */
    method CompSetIdx() returns (idxClassic: nat, idxPq: nat)
      requires Valid()
      ensures idxClassic < alg.NumKeys() && idxPq < alg.NumKeys()
      ensures alg.IsHybrid() ==> idxClassic != idxPq
      ensures forall max: nat, pq: nat, c: nat {:trigger Slots(alg, max, pq, c)} :: alg.IsHybrid() ==>
        Slots(alg, max, pq, c)[idxClassic] == At(ClassicOffset(alg.Order(), pq)) &&
        Slots(alg, max, pq, c)[idxPq] == At(PqOffset(alg.Order(), max, c))
      ensures idxClassic == IdxClassic(alg) && idxPq == IdxPq(alg)
    {
      var guarded := (alg.keytype == EcpHybKem || alg.keytype == EcbpHybKem || alg.keytype == EcxHybKem) && reverseShare;
      if guarded {
        idxClassic, idxPq := alg.NumKeys() - 1, 0;
      } else {
        idxClassic, idxPq := 0, alg.NumKeys() - 1;
      }
    }

    /** oqsx_comp_set_offsets */
    method SetOffsets(setPriv: bool, setPub: bool, fixed: bool) returns (ret: bool)
      requires Valid() && alg.IsHybrid()
      requires setPriv ==> privkey != null
      requires setPub ==> pubkey != null
      modifies this`compPriv, this`compPub
      ensures Valid()
      ensures ret <==> (fixed ||
        ((setPriv ==> Header(alg, privkey[..]) <= alg.evp.lengthPrivateKey) &&
         (setPub ==> Header(alg, pubkey[..]) <= alg.evp.lengthPublicKey)))
      ensures ret && setPriv ==> compPriv == [At(4), At(4 +
        if alg.Reversed() then alg.qs.lengthSecretKey
        else if fixed then alg.evp.lengthPrivateKey else Header(alg, privkey[..]))]
      ensures ret && setPub ==> compPub == [At(4), At(4 +
        if alg.Reversed() then alg.qs.lengthPublicKey
        else if fixed then alg.evp.lengthPublicKey else Header(alg, pubkey[..]))]
      ensures !setPriv ==> compPriv == old(compPriv)
      ensures !setPub ==> compPub == old(compPub)
    {
      hide DecodeUint32;
      var guarded := (alg.keytype == EcpHybKem || alg.keytype == EcbpHybKem || alg.keytype == EcxHybKem) && reverseShare;
      if setPriv {
        compPriv := compPriv[0 := At(4)];
        var classicLen: nat;
        if !fixed {
          classicLen := DecodeUint32(privkey[..]);
          if classicLen > alg.evp.lengthPrivateKey {
            return false;
          }
        } else {
          classicLen := alg.evp.lengthPrivateKey;
        }
        if guarded {
          compPriv := compPriv[1 := At(alg.qs.lengthSecretKey + 4)];
        } else {
          compPriv := compPriv[1 := At(classicLen + 4)];
        }
      }
      if setPub {
        compPub := compPub[0 := At(4)];
        var classicLen: nat;
        if !fixed {
          classicLen := DecodeUint32(pubkey[..]);
          if classicLen > alg.evp.lengthPublicKey {
            return false;
          }
        } else {
          classicLen := alg.evp.lengthPublicKey;
        }
        if guarded {
          compPub := compPub[1 := At(alg.qs.lengthPublicKey + 4)];
        } else {
          compPub := compPub[1 := At(classicLen + 4)];
        }
      }
      return true;
    }

    /** oqsx_key_set_composites; callers pass `fixed` exactly for hybrid KEMs, except for plain keys where it is ignored. */
    method SetComposites(fixed: bool) returns (ret: bool)
      requires Valid()
      requires alg.IsHybrid() ==> fixed == alg.IsHybridKem()
      modifies this`compPriv, this`compPub
      ensures Valid()
      ensures ret <==> (alg.keytype.HybSig? ==>
        (privkey != null ==> Header(alg, privkey[..]) <= alg.evp.lengthPrivateKey) &&
        (pubkey != null ==> Header(alg, pubkey[..]) <= alg.evp.lengthPublicKey))
      ensures ret ==> Laid(alg, Val())
    {
      hide DecodeUint32;
      ret := true;
      if alg.NumKeys() == 1 {
        compPriv := compPriv[0 := if privkey == null then Null else At(0)];
        compPub := compPub[0 := if pubkey == null then Null else At(0)];
      } else {
        ret := SetOffsets(privkey != null, pubkey != null, fixed);
        if !ret {
          return;
        }
        if privkey == null {
          compPriv := compPriv[0 := Null][1 := Null];
        }
        if pubkey == null {
          compPub := compPub[0 := Null][1 := Null];
        }
      }
    }

    /** oqsx_key_recreate_classickey, with the public share rewritten into its slot after a private parse. */
    method RecreateClassicKey(cl: Classical, op: KeyOp) returns (ret: bool)
      requires Valid()
      requires alg.IsHybrid() ==> Laid(alg, Val())
      requires alg.IsHybrid() ==> if op.KeyOpPublic? then pubkey != null else privkey != null
      modifies this`classicalPkey, pubkey
      ensures Valid()
      ensures !alg.IsHybrid() ==> ret && Val() == old(Val())
      ensures alg.IsHybrid() ==>
        (ret <==> old(Rebuilt(alg, cl, if op.KeyOpPublic? then pubkey[..] else privkey[..], op.KeyOpPrivate?)).Some?)
      ensures ret && alg.IsHybrid() ==>
        classicalPkey == old(Rebuilt(alg, cl, if op.KeyOpPublic? then pubkey[..] else privkey[..], op.KeyOpPrivate?))
      ensures ret && alg.IsHybrid() && op.KeyOpPrivate? && pubkey != null ==>
        pubkey[..] == Rederived(alg, cl, old(pubkey[..]), classicalPkey.value)
      ensures op.KeyOpPublic? && pubkey != null ==> pubkey[..] == old(pubkey[..])
      ensures alg.IsHybrid() ==>
        classicalPkey == old(KeyAfter(alg, cl, if op.KeyOpPublic? then pubkey[..] else privkey[..], op.KeyOpPrivate?, classicalPkey))
      ensures alg.IsHybrid() && op.KeyOpPrivate? && pubkey != null ==>
        old(PubAfter(alg, cl, privkey[..], pubkey[..])).Some? ==> Pub() == old(PubAfter(alg, cl, privkey[..], pubkey[..]))
    {
      hide DecodeUint32, Splice;
      if alg.NumKeys() != 2 {
        return true;
      }
      var idxClassic, _ := CompSetIdx();
      if op.KeyOpPublic? {
        var classicLen := DecodeUint32(pubkey[..]);
        if classicLen > alg.evp.lengthPublicKey {
          return false;
        }
        var off := compPub[idxClassic].off;
        classicalPkey := cl.parsePublic(Slice(pubkey[..], off, classicLen));
        return classicalPkey.Some?;
      }
      var classicLen := DecodeUint32(privkey[..]);
      if classicLen > alg.evp.lengthPrivateKey {
        return false;
      }
      var off := compPriv[idxClassic].off;
      var parsed := cl.parsePrivate(Slice(privkey[..], off, classicLen));
      classicalPkey := parsed;
      if parsed.None? {
        return false;
      }
      var derived := cl.encodePublic(parsed.value);
      if alg.evp.rawKeySupport && |derived| != alg.evp.lengthPublicKey {
        return false;
      }
      if pubkey != null && compPub[idxClassic].off + |derived| <= pubkey.Length {
        Copy(pubkey, compPub[idxClassic].off, derived);
      }
      return |derived| == alg.evp.lengthPublicKey;
    }

    // ------------------------------------------------------ key generation

    /** Is there classical output that passes the checks made before its lengths are stored? */
    predicate Accepts(cl: Classical, g: Option<ClassicalPair>) {
      g.Some? && Acceptable(alg, cl, g.value)
    }

    /** A write into a buffer, where it fits. */
    static method Write(b: array<byte>, off: nat, data: Bytes)
      modifies b
      ensures Written(old(b[..]), off, data).Some? ==> Some(b[..]) == Written(old(b[..]), off, data)
    {
      if off + |data| <= b.Length {
        Copy(b, off, data);
      }
    }

    /** oqsx_key_gen_evp_key_sig and oqsx_key_gen_evp_key_kem: write both encodings, then both headers. */
    method GenClassic(cl: Classical, g: Option<ClassicalPair>, pubOff: nat, privOff: nat) returns (pkey: Option<Pkey>)
      requires Valid() && privkey != null && pubkey != null
      requires pubOff + alg.evp.lengthPublicKey <= pubkey.Length
      requires privOff + alg.evp.lengthPrivateKey <= privkey.Length
      requires 4 <= privkey.Length && 4 <= pubkey.Length
      modifies privkey, pubkey
      ensures pkey == if Accepts(cl, g) then Some(g.value.pkey) else None
      ensures pkey.Some? ==>
        pubkey[..] == Splice(Splice(old(pubkey[..]), pubOff, g.value.pub), 0, EncodeUint32(|g.value.pub|)) &&
        privkey[..] == Splice(Splice(old(privkey[..]), privOff, g.value.priv), 0, EncodeUint32(|g.value.priv|))
      ensures Holds(AfterClassic(alg, cl, g, old(pubkey[..]), old(privkey[..]), pubOff, privOff), Pub(), Priv())
    {
      hide EncodeUint32, Splice;
      if g.None? {
        return None;
      }
      var pubLen, privLen := |g.value.pub|, |g.value.priv|;
      if alg.evp.rawKeySupport {
        if pubLen != alg.evp.lengthPublicKey {
          return None;
        }
        Copy(pubkey, pubOff, g.value.pub);
        if privLen > alg.evp.lengthPrivateKey {
          return None;
        }
        Copy(privkey, privOff, g.value.priv);
        if privLen != alg.evp.lengthPrivateKey {
          return None;
        }
      } else {
        Write(pubkey, pubOff, g.value.pub);
        if pubLen > alg.evp.lengthPublicKey {
          return None;
        }
        Write(privkey, privOff, g.value.priv);
        if privLen > alg.evp.lengthPrivateKey || cl.parsePrivate(g.value.priv).None? {
          return None;
        }
      }
      StoreUint32(pubkey, pubLen);
      StoreUint32(privkey, privLen);
      return Some(g.value.pkey);
    }

    /** oqsx_key_gen_oqs: the liboqs pair goes to the post-quantum components. 0 is success. */
    method GenPq(p: Option<PqPair>) returns (status: int)
      requires Valid() && privkey != null && pubkey != null && Laid(alg, Val())
      requires p.Some? ==> PqPairFits(alg.qs, p.value)
      modifies privkey, pubkey
      ensures status == if p.Some? then 0 else -1
      ensures p.None? ==> Val() == old(Val())
      ensures p.Some? ==>
        pubkey[..] == Splice(old(pubkey[..]), PqAt(alg, alg.evp.lengthPublicKey, old(Header(alg, pubkey[..]))), p.value.pk)
      ensures p.Some? ==>
        privkey[..] == Splice(old(privkey[..]), PqAt(alg, alg.evp.lengthPrivateKey, old(Header(alg, privkey[..]))), p.value.sk)
    {
      var _, idxPq := CompSetIdx();
      if p.None? {
        return -1;
      }
      Copy(pubkey, compPub[idxPq].off, p.value.pk);
      Copy(privkey, compPriv[idxPq].off, p.value.sk);
      return 0;
    }

    /** The buffer generation starts from: the one present, or a zeroed allocation. */
    ghost function PrivBase(): Bytes
      reads this, privkey
    {
      if privkey == null then Zeros(alg.PrivLen() + 4) else privkey[..]
    }

    ghost function PubBase(): Bytes
      reads this, pubkey
    {
      if pubkey == null then Zeros(alg.PubLen()) else pubkey[..]
    }

    /** oqsx_key_gen on a plain key. */
    method GenPlain(p: Option<PqPair>) returns (ret: int)
      requires Valid() && !alg.IsHybrid() && privkey != null && pubkey != null
      requires p.Some? ==> PqPairFits(alg.qs, p.value)
      modifies this`compPriv, this`compPub, privkey, pubkey
      ensures Valid()
      ensures ret == if p.Some? then 0 else -1
      ensures compPriv == PrivSlots(alg, 0) && compPub == PubSlots(alg, 0) && Laid(alg, Val())
      ensures p.Some? ==>
        Priv() == Some(Splice(old(privkey[..]), 0, p.value.sk)) && Pub() == Some(Splice(old(pubkey[..]), 0, p.value.pk))
      ensures p.None? ==> Priv() == old(Priv()) && Pub() == old(Pub())
    {
      var ok := SetComposites(false);
      assert ok;
      ret := GenPq(p);
    }

    /** oqsx_key_gen on a hybrid signature key: the classical pair is written first, its length then places the other. */
    method GenHybridSig(cl: Classical, g: Option<ClassicalPair>, p: Option<PqPair>) returns (ret: int)
      requires Valid() && alg.keytype.HybSig? && privkey != null && pubkey != null
      requires p.Some? ==> PqPairFits(alg.qs, p.value)
      modifies this`compPriv, this`compPub, this`classicalPkey, privkey, pubkey
      ensures Valid()
      ensures ret == if Accepts(cl, g) && p.None? then -1 else 0
      ensures Accepts(cl, g) && p.Some? ==>
        && Priv() == Some(Overwrite(alg.Order(), alg.evp.lengthPrivateKey, old(privkey[..]), g.value.priv, p.value.sk))
        && Pub() == Some(Overwrite(alg.Order(), alg.evp.lengthPublicKey, old(pubkey[..]), g.value.pub, p.value.pk))
        && compPriv == PrivSlots(alg, |g.value.priv|) && compPub == PubSlots(alg, |g.value.pub|)
      ensures Accepts(cl, g) ==> Laid(alg, Val())
      ensures !Accepts(cl, g) && old(compPriv == [Unset, Unset]) ==> !Laid(alg, Val())
      ensures !(Accepts(cl, g) && p.Some?) ==>
        Holds(AfterClassic(alg, cl, g, old(pubkey[..]), old(privkey[..]), 4, 4), Pub(), Priv())
      ensures classicalPkey == if Accepts(cl, g) then Some(g.value.pkey) else old(classicalPkey)
      ensures !Accepts(cl, g) ==> compPriv == old(compPriv) && compPub == old(compPub)
    {
      hide EncodeUint32, DecodeUint32, Splice, Zeros, AfterClassic;
      var pkey := GenClassic(cl, g, 4, 4);
      if pkey.None? {
        return 0;
      }
      HeaderStored(Splice(old(pubkey[..]), 4, g.value.pub), |g.value.pub|);
      HeaderStored(Splice(old(privkey[..]), 4, g.value.priv), |g.value.priv|);
      var ok := SetComposites(false);
      assert ok;
      classicalPkey := pkey;
      ret := GenPq(p);
      if p.Some? {
        GeneratedLaid(alg, old(privkey[..]), old(pubkey[..]), g.value, p.value);
      }
    }

    /** oqsx_key_gen on a hybrid KEM key: the components are placed by the slot sizes before anything is generated. */
    method GenHybridKem(cl: Classical, g: Option<ClassicalPair>, p: Option<PqPair>) returns (ret: int)
      requires Valid() && alg.IsHybridKem() && privkey != null && pubkey != null
      requires p.Some? ==> PqPairFits(alg.qs, p.value)
      modifies this`compPriv, this`compPub, this`classicalPkey, privkey, pubkey
      ensures Valid()
      ensures ret == if Accepts(cl, g) && p.None? then -1 else 0
      ensures Accepts(cl, g) && p.Some? ==>
        && Priv() == Some(Overwrite(alg.Order(), alg.evp.lengthPrivateKey, old(privkey[..]), g.value.priv, p.value.sk))
        && Pub() == Some(Overwrite(alg.Order(), alg.evp.lengthPublicKey, old(pubkey[..]), g.value.pub, p.value.pk))
        && compPriv == PrivSlots(alg, |g.value.priv|) && compPub == PubSlots(alg, |g.value.pub|)
      ensures !(Accepts(cl, g) && p.Some?) ==>
        Holds(AfterClassic(alg, cl, g, old(pubkey[..]), old(privkey[..]),
                           ClassicOffset(alg.Order(), alg.qs.lengthPublicKey), ClassicOffset(alg.Order(), alg.qs.lengthSecretKey)),
              Pub(), Priv())
      ensures classicalPkey == if Accepts(cl, g) then Some(g.value.pkey) else old(classicalPkey)
      ensures Laid(alg, Val())
    {
      hide EncodeUint32, DecodeUint32, Splice, Zeros, AfterClassic;
      var idxClassic, _ := CompSetIdx();
      var ok := SetComposites(true);
      assert ok;
      var pkey := GenClassic(cl, g, compPub[idxClassic].off, compPriv[idxClassic].off);
      if pkey.None? {
        return 0;
      }
      classicalPkey := pkey;
      ret := GenPq(p);
    }

    /**
     * oqsx_key_gen. The result is 0 for success, as in the source. A classical
     * generator that fails leaves the result at 0: the caller is told that the
     * key was generated although neither share was.
     */
    method KeyGen(cl: Classical, g: Option<ClassicalPair>, p: Option<PqPair>) returns (ret: int)
      requires Valid()
      requires p.Some? ==> PqPairFits(alg.qs, p.value)
      modifies this, privkey, pubkey
      ensures Valid() && references == old(references) && destroyed == old(destroyed)
      ensures privkey != null && pubkey != null
      ensures (privkey == old(privkey) || fresh(privkey)) && (pubkey == old(pubkey) || fresh(pubkey))
      ensures ret == if alg.IsHybrid() && !Accepts(cl, g) then 0 else if p.Some? then 0 else -1
      ensures (alg.IsHybrid() ==> Accepts(cl, g)) && p.Some? ==>
        var g' := if alg.IsHybrid() then g.value else ClassicalPair(0, [], []);
        Val() == GeneratedOver(alg, old(PrivBase()), old(PubBase()), g', p.value).(
          classical := if alg.IsHybrid() then Some(g'.pkey) else old(classicalPkey))
      ensures alg.IsHybrid() && !(Accepts(cl, g) && p.Some?) ==>
        Holds(AfterClassic(alg, cl, g, old(PubBase()), old(PrivBase()),
                           ClassicOffset(alg.Order(), alg.qs.lengthPublicKey), ClassicOffset(alg.Order(), alg.qs.lengthSecretKey)),
              Pub(), Priv())
      ensures !alg.IsHybrid() && p.None? ==> Pub() == Some(old(PubBase())) && Priv() == Some(old(PrivBase()))
      ensures alg.IsHybrid() && !Accepts(cl, g) ==> classicalPkey == old(classicalPkey)
      ensures alg.keytype.HybSig? && !Accepts(cl, g) ==> compPriv == old(compPriv) && compPub == old(compPub)
      ensures ret != 0 ==> classicalPkey == None
      ensures old(compPriv == seq(alg.NumKeys(), i => Unset)) ==>
        (Laid(alg, Val()) <==> (alg.keytype.HybSig? ==> Accepts(cl, g)))
    {
      hide EncodeUint32, DecodeUint32, Splice, Overwrite, AfterClassic, Holds, Laid, Slots, Zeros, Acceptable;
      if privkey == null || pubkey == null {
        AllocateKeymaterial(false);
        AllocateKeymaterial(true);
      }
      assert privkey[..] == old(PrivBase()) && pubkey[..] == old(PubBase());
      if alg.keytype == HybSig {
        assert seq(2, i => Unset) == [Unset, Unset];
        ret := GenHybridSig(cl, g, p);
      } else if alg.IsHybridKem() {
        ret := GenHybridKem(cl, g, p);
      } else {
        ret := GenPlain(p);
      }
      if ret != 0 {
        LaidIgnoresClassical(alg, Val(), None);
        classicalPkey := None;
      }
    }

    // ------------------------------------------------------------ decoding

    /** oqsx_key_op for a SubjectPublicKeyInfo bit string. */
    static method FromPublicOctets(a: Alg, cl: Classical, p: Bytes) returns (key: OqsxKey?)
      requires a.Valid() && |p| < 0x8000_0000
      ensures key == null <==> DecodePublic(a, cl, p).None?
      ensures key != null ==> fresh(key) && key.Valid() && key.references == 1 && key.alg == a
      ensures key != null ==> key.privkey == null && key.pubkey != null && fresh(key.pubkey)
      ensures key != null ==> key.Val() == DecodePublic(a, cl, p).value
    {
      hide DecodeUint32;
      key := new OqsxKey(a);
      if a.PubLen() != |p| {
        return null;
      }
      key.AllocateKeymaterial(false);
      Copy(key.pubkey, 0, p);
      assert key.pubkey[..] == p;
      var ok := key.SetComposites(a.IsHybridKem());
      if !ok {
        return null;
      }
      ok := key.RecreateClassicKey(cl, KeyOp.KeyOpPublic);
      if !ok {
        return null;
      }
    }

    /**
     * The length checks of oqsx_key_op on a PKCS#8 octet string, with their
     * 64-bit arithmetic. On success `used` bytes of it are private-key material.
     */
    static method CheckPrivate(a: Alg, p: Bytes) returns (ok: bool, used: nat)
      requires a.Valid() && |p| < 0x8000_0000
      ensures ok <==> PrivateShape(a, p)
      ensures ok ==> used == |p| - a.qs.lengthPublicKey
    {
      used := a.PrivLen();
      if a.NumKeys() == 2 {
        var expected := a.qs.lengthSecretKey + a.qs.lengthPublicKey;
        if |p| <= 4 + expected {
          return false, 0;
        }
        var space := Wrap64(|p| - expected - 4);
        if space > a.evp.lengthPrivateKey {
          return false, 0;
        }
        var classicLen := DecodeUint32(p);
        if classicLen != space {
          return false, 0;
        }
        used := Wrap64(used - (a.evp.lengthPrivateKey - classicLen));
      }
      ok := used + a.qs.lengthPublicKey == |p|;
    }

    /** The two buffer fills of oqsx_key_op: `used` bytes of private material, then the post-quantum public key. */
    method Populate(p: Bytes, used: nat)
      requires Valid() && privkey != null && pubkey != null
      requires privkey[..] == Zeros(alg.PrivLen() + 4) && pubkey[..] == Zeros(alg.PubLen())
      requires PrivateShape(alg, p) && used == |p| - alg.qs.lengthPublicKey
      modifies privkey, pubkey
      ensures privkey[..] == p[..used] + Zeros(alg.PrivLen() + 4 - used)
      ensures pubkey[..] == if alg.IsHybrid() then PubSkeleton(alg, p[used..]) else p[used..]
    {
      Copy(privkey, 0, p[..used]);
      assert privkey[..] == p[..used] + Zeros(alg.PrivLen() + 4 - used);
      if alg.NumKeys() == 2 {
        StoreUint32(pubkey, alg.evp.lengthPublicKey);
        if reverseShare {
          Copy(pubkey, 4, p[used..]);
        } else {
          Copy(pubkey, 4 + alg.evp.lengthPublicKey, p[used..]);
        }
      } else {
        Copy(pubkey, 0, p[used..]);
        assert pubkey[..] == p[used..];
      }
    }

    /** The composites of a freshly populated key, and its classical key: the tail of oqsx_key_op. */
    method Complete(cl: Classical, p: Bytes, used: nat) returns (ok: bool)
      requires Valid() && privkey != null && pubkey != null && classicalPkey == None
      requires PrivateShape(alg, p) && used == |p| - alg.qs.lengthPublicKey
      requires privkey[..] == p[..used] + Zeros(alg.PrivLen() + 4 - used)
      requires pubkey[..] == if alg.IsHybrid() then PubSkeleton(alg, p[used..]) else p[used..]
      modifies this`compPriv, this`compPub, this`classicalPkey, pubkey
      ensures Valid()
      ensures ok <==> DecodePrivate(alg, cl, p).Some?
      ensures ok ==> Val() == DecodePrivate(alg, cl, p).value
    {
      hide EncodeUint32, DecodeUint32, Splice, Zeros;
      if alg.IsHybrid() {
        PopulatedHybrid(alg, p, privkey[..], pubkey[..]);
      }
      ok := SetComposites(alg.IsHybridKem());
      assert ok;
      ghost var before := pubkey[..];
      ok := RecreateClassicKey(cl, KeyOp.KeyOpPrivate);
      if ok && alg.IsHybrid() {
        SkeletonCompleted(alg, cl.encodePublic(classicalPkey.value), p[used..]);
      }
    }

    /** oqsx_key_op for a PKCS#8 private-key octet string. */
    static method FromPrivateOctets(a: Alg, cl: Classical, p: Bytes) returns (key: OqsxKey?)
      requires a.Valid() && |p| < 0x8000_0000
      ensures key == null <==> DecodePrivate(a, cl, p).None?
      ensures key != null ==> fresh(key) && key.Valid() && key.references == 1 && key.alg == a
      ensures key != null ==> key.privkey != null && key.pubkey != null && fresh(key.privkey) && fresh(key.pubkey)
      ensures key != null ==> key.Val() == DecodePrivate(a, cl, p).value
    {
      key := new OqsxKey(a);
      var ok, used := CheckPrivate(a, p);
      if !ok {
        return null;
      }
      key.AllocateKeymaterial(true);
      key.AllocateKeymaterial(false);
      key.Populate(p, used);
      ok := key.Complete(cl, p, used);
      if !ok {
        return null;
      }
    }

    // -------------------------------------------------- import and export

    /**
     * oqsx_key_fromdata; the parameters are copied into buffers of exactly their
     * size. `fault` says that the call goes on to read a null buffer.
     */
    method FromData(cl: Classical, priv: Option<Bytes>, pub: Option<Bytes>, includePrivate: bool) returns (ok: bool, fault: bool)
      requires Valid()
      modifies this, pubkey
      ensures Valid() && references == old(references) && destroyed == old(destroyed)
      ensures privkey == old(privkey) || (privkey != null && fresh(privkey))
      ensures pubkey == old(pubkey) || (pubkey != null && fresh(pubkey))
      ensures fault <==> old(ReadsNull(alg, Val(), priv, pub, includePrivate))
      ensures fault ==> Val() == old(Val()).(compPriv := Nulls(2), compPub := Nulls(2))
      ensures ok <==> old(KeyValues.FromData(alg, cl, Val(), priv, pub, includePrivate)).Some?
      ensures ok ==> Val() == old(KeyValues.FromData(alg, cl, Val(), priv, pub, includePrivate)).value
      ensures (priv.None? && pub.None?) || (priv.Some? && includePrivate && |priv.value| != alg.PrivLen()) ==> Val() == old(Val())
      ensures !(priv.None? && pub.None?) && (priv.Some? && includePrivate ==> |priv.value| == alg.PrivLen()) ==>
        var p, q := Chosen(priv, includePrivate, old(Priv())), Chosen(pub, true, old(Pub()));
        && Priv() == p
        && (pub.Some? && |pub.value| != alg.PubLen() ==> Val() == old(Val()).(privkey := p))
        && (!ok && !fault && (pub.Some? ==> |pub.value| == alg.PubLen()) ==>
            alg.IsHybrid() && LeftByRefusal(alg, cl, p, q, old(classicalPkey), Pub(), classicalPkey))
    {
      hide DecodeUint32, Splice, Zeros, Rebuilt, Rederived, Slots, LeftByRefusal;
      if priv.None? && pub.None? {
        return false, false;
      }
      if priv.Some? && includePrivate {
        if alg.PrivLen() != |priv.value| {
          return false, false;
        }
        privkey := Duplicate(priv.value);
      }
      if pub.Some? {
        if alg.PubLen() != |pub.value| {
          return false, false;
        }
        pubkey := Duplicate(pub.value);
      }
      ok, fault := Adopt(cl);
    }

    /** An allocation of exactly the data's size, filled with it. */
    static method Duplicate(data: Bytes) returns (buf: array<byte>)
      ensures fresh(buf) && buf[..] == data
    {
      buf := ZeroAlloc(|data|);
      Copy(buf, 0, data);
      assert buf[..] == data;
    }

    /** The tail of oqsx_key_fromdata: components, then the classical key from the private buffer if there is one. */
    method Adopt(cl: Classical) returns (ok: bool, fault: bool)
      requires Valid()
      modifies this`compPriv, this`compPub, this`classicalPkey, pubkey
      ensures Valid()
      ensures fault <==> alg.IsHybrid() && privkey == null && pubkey == null
      ensures fault ==> !ok && Val() == old(Val()).(compPriv := Nulls(2), compPub := Nulls(2))
      ensures !fault ==> (ok <==> old(Finish(alg, cl, Priv(), Pub(), classicalPkey)).Some?)
      ensures ok ==> Val() == old(Finish(alg, cl, Priv(), Pub(), classicalPkey)).value
      ensures !ok && !fault ==>
        alg.IsHybrid() && LeftByRefusal(alg, cl, old(Priv()), old(Pub()), old(classicalPkey), Pub(), classicalPkey)
    {
      hide DecodeUint32, Splice;
      fault := false;
      ok := SetComposites(alg.IsHybridKem());
      if !ok {
        return;
      }
      if alg.NumKeys() == 2 && privkey == null && pubkey == null {
        return false, true;
      }
      ok := RecreateClassicKey(cl, if privkey != null then KeyOp.KeyOpPrivate else KeyOp.KeyOpPublic);
    }

    /** oqsx_key_to_params for a full export: the public and, if selected, the private parameter. */
    method ToParams(includePrivate: bool) returns (priv: Option<Bytes>, pub: Option<Bytes>)
      requires Valid() && Laid(alg, Val())
      ensures priv == ExportPriv(alg, Val(), includePrivate) && pub == ExportPub(alg, Val())
      ensures priv == if includePrivate && privkey != null then Some(privkey[..alg.PrivLen()]) else None
      ensures pub == if pubkey != null then Some(pubkey[..alg.PubLen()]) else None
    {
      priv, pub := None, None;
      if pubkey != null {
        pub := Some(pubkey[..alg.PubLen()]);
        assert pubkey[..][..alg.PubLen()] == pubkey[..alg.PubLen()];
      }
      if privkey != null && includePrivate {
        priv := Some(privkey[..alg.PrivLen()]);
        assert privkey[..][..alg.PrivLen()] == privkey[..alg.PrivLen()];
      }
    }

    // ------------------------------------------------------------ encoding

    /** oqsx_spki_pub_to_der */
    method SpkiPubToDer() returns (blob: Option<Bytes>)
      requires Valid() && PubLaid(alg, Val())
      ensures blob == EncodePublic(alg, Val())
    {
      if pubkey == null {
        return None;
      }
      blob := Some(pubkey[..alg.PubLen()]);
      assert pubkey[..][..alg.PubLen()] == pubkey[..alg.PubLen()];
    }

    /** The used length of the private buffer, in 32-bit arithmetic, with the two guards of the encoder. */
    method UsedPrivateLength() returns (ok: bool, used: nat)
      requires Valid() && privkey != null
      ensures ok <==> (alg.IsHybrid() ==> Header(alg, privkey[..]) <= alg.evp.lengthPrivateKey)
      ensures ok && alg.IsHybrid() ==> used == 4 + alg.qs.lengthSecretKey + Header(alg, privkey[..])
      ensures ok && !alg.IsHybrid() ==> used == alg.PrivLen()
    {
      hide DecodeUint32;
      used := Wrap32(alg.PrivLen());
      if alg.NumKeys() > 1 {
        var space := Wrap64(used - 4 - alg.qs.lengthSecretKey);
        var actual := DecodeUint32(privkey[..]);
        if actual > alg.evp.lengthPrivateKey || actual > space {
          return false, 0;
        }
        used := Wrap32(used - (alg.evp.lengthPrivateKey - actual));
      }
      ok := true;
    }

    /** oqsx_pki_priv_to_der, up to the OCTET STRING tagging: two copies, one behind the other. */
    method PkiPrivToDer() returns (octets: Option<Bytes>)
      requires Valid() && Laid(alg, Val())
      ensures octets == EncodePrivate(alg, Val())
    {
      hide DecodeUint32, Splice, Zeros;
      if privkey == null || pubkey == null {
        return None;
      }
      var ok, used := UsedPrivateLength();
      if !ok {
        return None;
      }
      var off := if reverseShare then compPub[0].off else compPub[alg.NumKeys() - 1].off;
      var r := FillTwo(privkey, used, pubkey, off, alg.qs.lengthPublicKey);
      octets := Some(r);
    }

    /** The encoder's output buffer, of 32-bit length, filled from both key buffers. */
    static method FillTwo(priv: array<byte>, used: nat, pub: array<byte>, off: nat, n: nat) returns (r: Bytes)
      requires used <= priv.Length && off + n <= pub.Length && used + n < TWO_TO_THE_32
      ensures r == priv[..used] + Slice(pub[..], off, n)
    {
      var buf := ZeroAlloc(Wrap32(used + n));
      Copy(buf, 0, priv[..used]);
      Copy(buf, used, pub[off..off + n]);
      assert buf[..] == priv[..used] + pub[off..off + n];
      r := buf[..];
    }

    // ---------------------------------------------- component parameters

    /**
     * oqsx_get_hybrid_params: where each exposed share starts and how long it is
     * said to be. For the post-quantum private share the source tests the array
     * twice and its entry not at all.
     */
    method GetHybridParams() returns (v: Views)
      requires Valid() && Laid(alg, Val()) && alg.IsHybrid()
      ensures v == HybridViews(alg, Val())
    {
      v := Views(NoView, NoView, NoView, NoView);
      if classicalPkey.None? {
        return;
      }
      var idxClassic, idxPq := CompSetIdx();
      var classicPub, classicPriv := 0, 0;
      if pubkey != null && compPub[idxClassic] != Null {
        classicPub := DecodeUint32(pubkey[..]);
        v := v.(classicalPub := Range(compPub[idxClassic].off, classicPub));
      }
      if privkey != null && compPriv[idxClassic] != Null {
        classicPriv := DecodeUint32(privkey[..]);
        v := v.(classicalPriv := Range(compPriv[idxClassic].off, classicPriv));
      }
      if compPub[idxPq] != Null {
        v := v.(pqPub := Range(compPub[idxPq].off, ToInt32(Wrap64(alg.PubLen() - classicPub - 4))));
      }
      var n := ToInt32(Wrap64(alg.PrivLen() - classicPriv - 4));
      v := v.(pqPriv := if compPriv[idxPq] == Null then NullRange(n) else Range(compPriv[idxPq].off, n));
    }

    /** The encoded-public-key parameter of oqsx_get_params. */
    method GetEncodedPublic() returns (share: Bytes)
      requires Valid() && PubLaid(alg, Val()) && pubkey != null
      ensures share == Share(alg, Val())
    {
      if alg.IsHybridKem() {
        share := pubkey[4..4 + (alg.PubLen() - 4)];
      } else {
        share := pubkey[..alg.PubLen()];
      }
    }

    /** The encoded-public-key parameter of oqsx_set_params, on a key whose components are set; a null target is allocated. */
    method SetEncodedPublic(share: Bytes) returns (ok: bool)
      requires Valid() && PubLaid(alg, Val())
      modifies this`privkey, this`pubkey, this`compPub, pubkey
      ensures Valid()
      ensures ok <==> old(Install(alg, Val(), share)).Some?
      ensures Val() == if ok then old(Install(alg, Val(), share)).value else old(Val())
      ensures old(pubkey) != null ==> pubkey == old(pubkey)
    {
      if alg.keytype == EcpHybKem || alg.keytype == EcbpHybKem || alg.keytype == EcxHybKem {
        if |share| != alg.PubLen() - 4 {
          return false;
        }
        if compPub[0] == Null {
          compPub := compPub[0 := Detached(share)];
        } else {
          Copy(pubkey, compPub[0].off, share);
        }
      } else {
        if |share| != alg.PubLen() {
          return false;
        }
        if pubkey == null {
          pubkey := Duplicate(share);
        } else {
          Copy(pubkey, 0, share);
        }
      }
      privkey := null;
      return true;
    }

    /**
     * oqsx_match. The private keys are compared over the length of the first;
     * `overrun` says that the second buffer is shorter than that, which only keys
     * of different names can bring about.
     */
    static method Match(k1: OqsxKey, k2: OqsxKey, private_: bool, public_: bool, domain: bool) returns (ok: bool, overrun: bool)
      requires k1.Valid() && k2.Valid() && (k1.alg.name == k2.alg.name ==> k1.alg == k2.alg)
      ensures overrun <==>
        public_ && domain && k1.alg.name != k2.alg.name && k1.privkey != null && k2.privkey != null &&
        k2.privkey.Length < k1.alg.PrivLen()
      ensures !overrun ==> ok == Matches(k1.alg, k2.alg, k1.Val(), k2.Val(), private_, public_, domain)
      ensures k1.alg == k2.alg && public_ && k1.pubkey != null && k2.pubkey != null ==>
        (ok <==> k1.pubkey[..k1.alg.PubLen()] == k2.pubkey[..k1.alg.PubLen()])
      ensures k1.alg == k2.alg && private_ && !public_ && k1.privkey != null && k2.privkey != null ==>
        (ok <==> k1.privkey[..k1.alg.PrivLen()] == k2.privkey[..k1.alg.PrivLen()])
    {
      ok, overrun := true, false;
      var m, n := k1.alg.PrivLen(), k1.alg.PubLen();
      var named := k1.alg.name == k2.alg.name;
      ghost var v1, v2 := k1.Val(), k2.Val();
      assert k1.privkey != null ==> k1.privkey[..m] == v1.privkey.value[..m];
      assert k2.privkey != null && k2.privkey.Length >= m ==> k2.privkey[..m] == v2.privkey.value[..m];
      assert k1.pubkey != null ==> k1.pubkey[..n] == v1.pubkey.value[..n];
      assert k2.pubkey != null && k2.pubkey.Length >= n ==> k2.pubkey[..n] == v2.pubkey.value[..n];
      if private_ && !public_ {
        if (k1.privkey == null && k2.privkey != null) || (k1.privkey != null && k2.privkey == null) || !named {
          ok := false;
        } else {
          ok := (k1.privkey == null && k2.privkey == null) ||
                (k1.privkey != null && k1.privkey[..m] == k2.privkey[..m]);
        }
      }
      if public_ {
        if (k1.pubkey == null && k2.pubkey != null) || (k1.pubkey != null && k2.pubkey == null) || !named {
          ok := domain && k1.privkey != null && k2.privkey != null;
          if ok {
            if k2.privkey.Length < m {
              return false, true;
            }
            ok := k1.privkey[..m] == k2.privkey[..m];
          }
        } else {
          ok := ok && ((k1.pubkey == null && k2.pubkey == null) ||
                       (k1.pubkey != null && k1.pubkey[..n] == k2.pubkey[..n]));
        }
      }
    }
  }
}
