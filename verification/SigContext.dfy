/**
 * The signature context: a counted key, a growing buffer of collected data, an
 * optional running digest, and the calls that feed, finish, duplicate and free
 * it.
 */
module SigContext {
  import opened Bytes
  import opened Primitives
  import opened KeyValues
  import opened Keys
  import opened HybridSig

  // ------------------------------------------------------------- streaming

  /** What a context has been fed: collected bytes, and the bytes absorbed by the running digest if there is one. */
  datatype Feed = Feed(collected: Bytes, absorbed: Option<Bytes>)

  datatype Event = Update(chunk: Bytes) | LengthQuery

  /**
   * An update goes to the running digest if there is one; a length query is to
   * change nothing. The clients that feed contexts perform both kinds of event as
   * calls and are proved against this.
   */
  function Step(f: Feed, e: Event): Feed {
    match e
    case LengthQuery => f
    case Update(c) =>
      if f.absorbed.Some? then f.(absorbed := Some(f.absorbed.value + c)) else f.(collected := f.collected + c)
  }

  function Run(f: Feed, es: seq<Event>): Feed
    decreases es
  {
    if es == [] then f else Run(Step(f, es[0]), es[1..])
  }

  /** The chunks of a run, end to end. */
  function Message(es: seq<Event>): Bytes {
    if es == [] then []
    else (match es[0] case Update(c) => c case LengthQuery => []) + Message(es[1..])
  }

  /** The message of two runs is that of the first followed by that of the second; of one event it is its chunk, or nothing. */
  lemma {:induction false} MessageOfBoth(xs: seq<Event>, ys: seq<Event>, chunk: Bytes)
    ensures Message(xs + ys) == Message(xs) + Message(ys)
    ensures Message([Event.Update(chunk)]) == chunk && Message([LengthQuery]) == []
    decreases xs
  {
    assert Message([]) == [];
    if xs == [] {
      assert xs + ys == ys;
    } else {
      MessageOfBoth(xs[1..], ys, chunk);
      assert (xs + ys)[0] == xs[0] && (xs + ys)[1..] == xs[1..] + ys;
      var c := match xs[0] case Update(c) => c case LengthQuery => [];
      assert c + (Message(xs[1..]) + Message(ys)) == c + Message(xs[1..]) + Message(ys);
    }
  }

  /** What the final call signs or verifies: the digest of the absorbed bytes, or the collected bytes. */
  function Data(cl: Classical, md: Md, f: Feed): Bytes {
    if f.absorbed.Some? then cl.digest(md, f.absorbed.value) else f.collected
  }

  /** However it is cut up, the fed message is the concatenation of the chunks. */
  lemma {:induction false} RunIsConcatenation(f: Feed, es: seq<Event>)
    ensures Run(f, es) ==
      if f.absorbed.Some? then f.(absorbed := Some(f.absorbed.value + Message(es)))
      else f.(collected := f.collected + Message(es))
    decreases es
  {
    var x := if f.absorbed.Some? then f.absorbed.value else f.collected;
    if es == [] {
      assert x + Message(es) == x;
    } else {
      RunIsConcatenation(Step(f, es[0]), es[1..]);
      var c := match es[0] case Update(c) => c case LengthQuery => [];
      assert x + [] == x;
      assert x + Message(es) == x + c + Message(es[1..]);
    }
  }

  /** Streaming equals one-shot: any two runs with the same message leave the same data to sign or verify. */
  lemma StreamingEqualsOneShot(cl: Classical, md: Md, fresh_: Feed, es: seq<Event>, whole: Bytes)
    requires fresh_.collected == [] && (fresh_.absorbed.Some? ==> fresh_.absorbed.value == [])
    requires Message(es) == whole
    ensures Data(cl, md, Run(fresh_, es)) == Data(cl, md, Run(fresh_, [Update(whole)]))
    ensures Data(cl, md, Run(fresh_, es)) == if fresh_.absorbed.Some? then cl.digest(md, whole) else whole
  {
    RunIsConcatenation(fresh_, es);
    RunIsConcatenation(fresh_, [Update(whole)]);
    assert Message([Update(whole)]) == whole;
    assert [] + whole == whole;
  }

  // --------------------------------------------------------------- objects

  /** EVP_MD_CTX: the bytes absorbed so far. */
  class MdCtx {
    var absorbed: Bytes
    var finalized: bool

    constructor ()
      ensures absorbed == [] && !finalized
    {
      absorbed, finalized := [], false;
    }

    /** EVP_MD_CTX_copy_ex into a new context. */
    static method Duplicate(m: MdCtx?) returns (copy: MdCtx?)
      ensures copy == null <==> m == null
      ensures m != null ==> fresh(copy) && copy.absorbed == m.absorbed && copy.finalized == m.finalized
    {
      copy := null;
      if m != null {
        copy := new MdCtx();
        copy.absorbed, copy.finalized := m.absorbed, m.finalized;
      }
    }

    method Update(data: Bytes) returns (ok: bool)
      modifies this
      ensures ok <==> !old(finalized)
      ensures absorbed == old(absorbed) + (if ok then data else []) && finalized == old(finalized)
    {
      ok := !finalized;
      if ok {
        absorbed := absorbed + data;
      }
    }

    method Final(cl: Classical, md: Md) returns (digest: Option<Bytes>)
      modifies this
      ensures digest == (if old(finalized) then None else Some(cl.digest(md, old(absorbed))))
      ensures finalized && absorbed == old(absorbed)
    {
      if finalized {
        return None;
      }
      finalized := true;
      return Some(cl.digest(md, absorbed));
    }
  }

  /** A digest name: none given, one that can be fetched, or one that cannot. */
  datatype DigestName = NoDigest | Known(md: Md) | Unknown

  class SigCtx {
    var key: OqsxKey?
    var flagAllowMd: bool
    var md: Md
    var mdctx: MdCtx?
    var mddata: array?<byte>
    var mdsize: nat
    var signature: array?<byte>
    var context: array?<byte>
    var operation: Operation

    /** Collected data is never empty, and the buffers are separate allocations. */
    ghost predicate Valid()
      reads this
    {
      && (mddata == null ==> mdsize == 0)
      && (mddata != null ==> mddata.Length == mdsize > 0 && mddata != context && mddata != signature)
      && (context != null ==> context != signature)
    }

    ghost function Fed(): Feed
      reads this, mddata, mdctx
    {
      Feed(if mddata == null then [] else mddata[..], if mdctx == null then None else Some(mdctx.absorbed))
    }

    function Context(): Bytes
      reads this, context
    {
      if context == null then [] else context[..]
    }

    /** The memory a duplicate gets its own copy of. */
    ghost function Copied(): set<object>
      reads this
    {
      (if mddata == null then {} else {mddata as object}) + (if mdctx == null then {} else {mdctx as object}) +
      (if context == null then {} else {context as object})
    }

    /** The memory that belongs to the context, and is given back with it. */
    ghost function Buffers(): set<object>
      reads this
    {
      Copied() + if signature == null then {} else {signature as object}
    }

    /** oqs_sig_newctx */
    constructor ()
      ensures Valid() && key == null && mdctx == null && mddata == null && signature == null && context == null
      ensures !flagAllowMd && operation == OpNone && md == NoMd
    {
      key, mdctx, mddata, signature, context := null, null, null, null, null;
      flagAllowMd, mdsize, operation, md := false, 0, OpNone, NoMd;
    }

    /** A context like src but for the memory it is given. */
    constructor Like(src: SigCtx, newMd: MdCtx?, newData: array?<byte>, newContext: array?<byte>)
      ensures key == src.key && flagAllowMd == src.flagAllowMd && md == src.md && operation == src.operation
      ensures mdctx == newMd && mddata == newData && mdsize == src.mdsize
      ensures signature == src.signature && context == newContext
    {
      key, flagAllowMd, md, operation := src.key, src.flagAllowMd, src.md, src.operation;
      mdctx, mddata, mdsize := newMd, newData, src.mdsize;
      signature, context := src.signature, newContext;
    }

    // ---------------------------------------------------- initialisation

    /** oqs_sig_signverify_init: take the new key, release the old one, which may be the same. */
    method SignVerifyInit(newKey: OqsxKey, op: Operation) returns (ok: bool)
      requires Valid() && newKey.references > 0 && (key != null ==> key.references > 0)
      modifies this, newKey, key
      ensures Valid() && key == newKey && operation == op && flagAllowMd
      ensures mdctx == old(mdctx) && mddata == old(mddata) && signature == old(signature) && context == old(context) && md == old(md)
      ensures newKey.references == old(newKey.references) + (if old(key) == newKey then 0 else 1)
      ensures newKey.destroyed == old(newKey.destroyed)
      ensures newKey.privkey == old(newKey.privkey) && newKey.pubkey == old(newKey.pubkey)
      ensures newKey.compPriv == old(newKey.compPriv) && newKey.compPub == old(newKey.compPub)
      ensures newKey.classicalPkey == old(newKey.classicalPkey)
      ensures old(key) != null && old(key) != newKey ==>
        old(key).references == old(key.references) - 1 &&
        old(key).destroyed == old(key.destroyed) + (if old(key.references) == 1 then 1 else 0)
      ensures ok <==> !(op == OpSign && newKey.privkey == null) && !(op == OpVerify && newKey.pubkey == null)
    {
      var up := newKey.UpRef();
      assert up;
      if key != null {
        key.Free();
      }
      key := newKey;
      operation := op;
      flagAllowMd := true;
      ok := !((op == OpSign && key.privkey == null) || (op == OpVerify && key.pubkey == null));
    }

    /** oqs_sig_setup_md: a digest that can be fetched replaces the old one and drops the running digest. */
    method SetupMd(name: DigestName) returns (ok: bool)
      modifies this`md, this`mdctx
      ensures ok <==> !name.Unknown?
      ensures if name.Known? then md == name.md && mdctx == null else md == old(md) && mdctx == old(mdctx)
    {
      if name.Unknown? {
        return false;
      }
      if name.Known? {
        mdctx := null;
        md := name.md;
      }
      return true;
    }

    /** oqs_sig_digest_signverify_init: the key is taken first, also if the digest cannot be fetched. */
    method DigestSignVerifyInit(name: DigestName, newKey: OqsxKey, op: Operation) returns (ok: bool)
      requires Valid() && newKey.references > 0 && (key != null ==> key.references > 0)
      modifies this, newKey, key
      ensures Valid() && key == newKey && operation == op && flagAllowMd
      ensures old(key) != null && old(key) != newKey ==>
        old(key).references == old(key.references) - 1 &&
        old(key).destroyed == old(key.destroyed) + (if old(key.references) == 1 then 1 else 0)
      ensures mddata == old(mddata) && signature == old(signature) && context == old(context)
      ensures newKey.privkey == old(newKey.privkey) && newKey.pubkey == old(newKey.pubkey)
      ensures newKey.compPriv == old(newKey.compPriv) && newKey.compPub == old(newKey.compPub)
      ensures newKey.classicalPkey == old(newKey.classicalPkey) && newKey.destroyed == old(newKey.destroyed)
      ensures newKey.references == old(newKey.references) + (if old(key) == newKey then 0 else 1)
      ensures ok <==> (!name.Unknown? && !(op == OpSign && newKey.privkey == null) && !(op == OpVerify && newKey.pubkey == null))
      ensures ok && name.Known? ==>
        mdctx != null && fresh(mdctx) && mdctx.absorbed == [] && !mdctx.finalized && md == name.md
      ensures !ok || !name.Known? ==> mdctx == old(mdctx) && md == old(md)
    {
      flagAllowMd := true;
      ok := SignVerifyInit(newKey, op);
      if !ok {
        return;
      }
      ok := SetupMd(name);
      if !ok {
        return;
      }
      if name.Known? {
        mdctx := new MdCtx();
      }
    }

    /** The digest parameter of oqs_sig_set_ctx_params: refused between the first update and the final call. */
    method SetDigest(name: DigestName) returns (ok: bool)
      requires !name.NoDigest?
      modifies this`md, this`mdctx
      ensures ok <==> flagAllowMd && name.Known?
      ensures if ok then md == name.md && mdctx == null else md == old(md) && mdctx == old(mdctx)
    {
      if !flagAllowMd {
        return false;
      }
      ok := SetupMd(name);
    }

    // ------------------------------------------------------------ feeding

    /** oqs_sig_collect_data: the buffer is grown by exactly the new data. An empty first allocation fails. */
    method CollectData(data: Bytes) returns (ok: bool)
      requires Valid()
      modifies this`mddata, this`mdsize
      ensures Valid()
      ensures ok <==> old(mddata) != null || data != []
      ensures Fed() == old(Fed()).(collected := old(Fed()).collected + data)
      ensures mddata != null <==> old(mddata) != null || data != []
      ensures mddata != old(mddata) ==> mddata != null && fresh(mddata)
    {
      if mddata != null {
        var newdata := ZeroAlloc(mdsize + |data|);
        Copy(newdata, 0, mddata[..]);
        Copy(newdata, mdsize, data);
        assert newdata[..] == mddata[..] + data;
        mddata := newdata;
        mdsize := mdsize + |data|;
      } else {
        if |data| == 0 {
          assert [] + data == [];
          return false;
        }
        mddata := ZeroAlloc(|data|);
        mdsize := |data|;
        Copy(mddata, 0, data);
        assert mddata[..] == data == [] + data;
      }
      return true;
    }

    /** oqs_sig_digest_signverify_update */
    method DigestUpdate(data: Bytes) returns (ok: bool)
      requires Valid()
      modifies this`mddata, this`mdsize, this`flagAllowMd, mdctx
      ensures Valid() && !flagAllowMd
      ensures ok <==> if mdctx != null then !old(mdctx.finalized) else (old(mddata) != null || data != [])
      ensures mdctx != null ==> mdctx.finalized == old(mdctx.finalized) && mddata == old(mddata)
      ensures ok || mdctx == null ==> Fed() == Step(old(Fed()), Event.Update(data))
      ensures mddata != old(mddata) ==> mddata != null && fresh(mddata)
    {
      flagAllowMd := false;
      if mdctx != null {
        ok := mdctx.Update(data);
      } else {
        ok := CollectData(data);
      }
    }

    /** oqs_sig_signverify_message_update: the data is collected, whether there is a running digest or not. */
    method MessageUpdate(data: Bytes) returns (ok: bool)
      requires Valid()
      modifies this`mddata, this`mdsize
      ensures Valid()
      ensures ok <==> old(mddata) != null || data != []
      ensures Fed() == old(Fed()).(collected := old(Fed()).collected + data)
      ensures mddata != null <==> old(mddata) != null || data != []
      ensures mddata != old(mddata) ==> mddata != null && fresh(mddata)
    {
      ok := CollectData(data);
    }

    // ---------------------------------------------------------- finishing

    /** Can the context's key sign or verify? */
    ghost predicate Ready()
      reads this, key, if key == null then {} else {key.privkey, key.pubkey}
    {
      key != null && key.Valid() && (key.alg.keytype.HybSig? || key.alg.keytype.Sig?) && Laid(key.alg, key.Val())
    }

    /**
     * oqs_sig_digest_sign_final. Without a buffer it answers the length and leaves
     * everything fed in place; with one it signs the digest of what was absorbed,
     * or what was collected.
     */
    method DigestSignFinal(cl: Classical, pq: Pq, api: bool, sig: array?<byte>, sigLen: nat, r1: nat, r2: nat)
      returns (rv: int, outLen: nat)
      requires Valid() && Ready() && PqSigLengths(key.alg.qs, pq)
      requires sig != null ==> sigLen <= sig.Length && sig != key.privkey && sig != mddata
      modifies this`flagAllowMd, mdctx, sig
      ensures Valid() && Fed() == old(Fed())
      ensures flagAllowMd == (if sig != null && mdctx != null && old(mdctx.finalized) then old(flagAllowMd) else true)
      ensures sig != null && mdctx != null ==> mdctx.finalized
      ensures sig == null ==> rv == (if key.privkey == null then 0 else 1) && (rv == 1 ==> outLen == MaxSize(key.alg))
      ensures sig == null && mdctx != null ==> mdctx.finalized == old(mdctx.finalized)
      ensures sig != null && mdctx != null && old(mdctx.finalized) ==> rv == 0
      ensures sig != null && key.privkey != null && (mdctx != null ==> !old(mdctx.finalized)) ==>
        SignOutcome(key.alg, cl, pq, old(key.privkey[..]), key.classicalPkey, SignHashes(operation, api), old(Context()),
                    Data(cl, md, old(Fed())), r1, r2, sigLen, old(sig[..]), rv, outLen, sig[..])
    {
      hide SignOutcome, MaxSize, PrivSlots, PubSlots, Nulls, Header;
      var digest: Bytes := [];
      outLen := sigLen;
      if sig != null {
        if mdctx != null {
          var d := mdctx.Final(cl, md);
          if d.None? {
            return 0, outLen;
          }
          digest := d.value;
        }
      }
      flagAllowMd := true;
      var tbs := if mdctx != null then digest else if mddata == null then [] else mddata[..];
      rv, outLen := SignDirectly(key, cl, pq, operation, api, Context(), sig, sigLen, tbs, r1, r2);
    }

    /** oqs_sig_sign_message_final: sign what was collected. */
    method SignMessageFinal(cl: Classical, pq: Pq, api: bool, sig: array?<byte>, sigLen: nat, r1: nat, r2: nat)
      returns (rv: int, outLen: nat)
      requires Valid() && Ready() && PqSigLengths(key.alg.qs, pq)
      requires sig != null ==> sigLen <= sig.Length && sig != key.privkey && sig != mddata
      modifies sig
      ensures Fed() == old(Fed())
      ensures sig == null ==> rv == (if key.privkey == null then 0 else 1) && (rv == 1 ==> outLen == MaxSize(key.alg))
      ensures sig != null && key.privkey != null ==>
        SignOutcome(key.alg, cl, pq, old(key.privkey[..]), key.classicalPkey, SignHashes(operation, api), old(Context()),
                    old(Fed()).collected, r1, r2, sigLen, old(sig[..]), rv, outLen, sig[..])
      ensures sig != null && key.privkey == null ==> rv == 0
    {
      rv, outLen := SignDirectly(key, cl, pq, operation, api, Context(), sig, sigLen,
                                 if mddata == null then [] else mddata[..], r1, r2);
    }

    /**
     * oqs_sig_sign: under the message operation the data joins what was collected,
     * except in a length query; otherwise it is signed as it is.
     */
    method Sign(cl: Classical, pq: Pq, api: bool, sig: array?<byte>, sigLen: nat, tbs: Bytes, r1: nat, r2: nat)
      returns (rv: int, outLen: nat)
      requires Valid() && Ready() && PqSigLengths(key.alg.qs, pq)
      requires sig != null ==> sigLen <= sig.Length && sig != key.privkey && sig != mddata
      modifies this`mddata, this`mdsize, sig
      ensures Valid()
      ensures Fed() == (if operation == OpSignMsg && sig != null then
        old(Fed()).(collected := old(Fed()).collected + tbs) else old(Fed()))
      ensures sig == null || operation != OpSignMsg ==> mddata == old(mddata)
      ensures mddata != old(mddata) ==> mddata != null && fresh(mddata)
      ensures sig == null ==> rv == (if key.privkey == null then 0 else 1) && (rv == 1 ==> outLen == MaxSize(key.alg))
      ensures operation == OpSignMsg && old(mddata) == null && tbs == [] && sig != null ==> rv == 0
      ensures sig != null && key.privkey != null && !(operation == OpSignMsg && old(mddata) == null && tbs == []) ==>
        SignOutcome(key.alg, cl, pq, old(key.privkey[..]), key.classicalPkey, SignHashes(operation, api), old(Context()),
                    if operation == OpSignMsg then old(Fed()).collected + tbs else tbs,
                    r1, r2, sigLen, old(sig[..]), rv, outLen, sig[..])
    {
      if operation == OpSignMsg {
        if sig == null {
          rv, outLen := SignMessageFinal(cl, pq, api, sig, sigLen, r1, r2);
          return;
        }
        var ok := MessageUpdate(tbs);
        if !ok {
          return 0, sigLen;
        }
        rv, outLen := SignMessageFinal(cl, pq, api, sig, sigLen, r1, r2);
        return;
      }
      rv, outLen := SignDirectly(key, cl, pq, operation, api, Context(), sig, sigLen, tbs, r1, r2);
    }

    /** The signature parameter of oqs_sig_set_ctx_params: stored, as a copy, only for message verification. */
    method SetSignature(sig: Bytes)
      requires Valid()
      modifies this`signature
      ensures Valid()
      ensures operation == OpVerifyMsg ==> signature != null && fresh(signature) && signature[..] == sig
      ensures operation != OpVerifyMsg ==> signature == old(signature)
    {
      if operation == OpVerifyMsg {
        signature := ZeroAlloc(|sig|);
        Copy(signature, 0, sig);
        assert signature[..] == sig;
      }
    }

    /**
     * The context-string parameter of oqs_sig_set_ctx_params. The getter allocates
     * only for a null pointer, so a second string does not fit and clears the first.
     */
    method SetContext(c: Bytes) returns (ok: bool)
      requires Valid()
      modifies this`context
      ensures Valid()
      ensures ok <==> old(context) == null || c == []
      ensures context != null && fresh(context) && Context() == if ok then c else []
    {
      ok := context == null || c == [];
      context := OqsxKey.Duplicate(if ok then c else []);
    }

    /** oqs_sig_verify_message_final: the stored signature against what was collected. */
    method VerifyMessageFinal(cl: Classical, pq: Pq, api: bool) returns (rv: int)
      requires Valid() && Ready() && (signature != null ==> signature.Length < TWO_TO_THE_64)
      ensures rv == 1 <==> (key.pubkey != null && signature != null &&
        Accepted(key.alg, cl, pq, key.pubkey[..], key.classicalPkey, VerifyHashes(operation, api), Context(),
                 signature[..], Fed().collected))
    {
      hide Accepted;
      rv := VerifyDirectly(key, cl, pq, operation, api, Context(), if signature == null then None else Some(signature[..]),
                           if mddata == null then [] else mddata[..]);
    }

    /** oqs_sig_verify */
    method Verify(cl: Classical, pq: Pq, api: bool, sig: Bytes, tbs: Bytes) returns (rv: int)
      requires Valid() && Ready() && |sig| < TWO_TO_THE_64
      modifies this`signature, this`mddata, this`mdsize
      ensures Valid()
      ensures mddata != old(mddata) ==> mddata != null && fresh(mddata)
      ensures signature != old(signature) ==> signature != null && fresh(signature)
      ensures operation == OpVerifyMsg ==>
        signature != null && signature[..] == sig && Fed() == old(Fed()).(collected := old(Fed()).collected + tbs)
      ensures operation != OpVerifyMsg ==> signature == old(signature) && Fed() == old(Fed())
      ensures var m := if operation == OpVerifyMsg then old(Fed()).collected + tbs else tbs;
        rv == 1 <==> (key.pubkey != null && !(operation == OpVerifyMsg && old(mddata) == null && tbs == []) &&
          Accepted(key.alg, cl, pq, key.pubkey[..], key.classicalPkey, VerifyHashes(operation, api), Context(), sig, m))
    {
      if operation == OpVerifyMsg {
        SetSignature(sig);
        var ok := MessageUpdate(tbs);
        if !ok {
          return 0;
        }
        rv := VerifyMessageFinal(cl, pq, api);
        return;
      }
      rv := VerifyDirectly(key, cl, pq, operation, api, Context(), Some(sig), tbs);
    }

    /** oqs_sig_digest_verify_final */
    method DigestVerifyFinal(cl: Classical, pq: Pq, api: bool, sig: Bytes) returns (rv: int)
      requires Valid() && Ready() && |sig| < TWO_TO_THE_64
      modifies this`flagAllowMd, mdctx
      ensures Valid() && Fed() == old(Fed())
      ensures flagAllowMd == (if mdctx != null && !old(mdctx.finalized) then true else old(flagAllowMd))
      ensures mdctx != null ==> mdctx.finalized
      ensures mdctx != null && old(mdctx.finalized) ==> rv == 0
      ensures (mdctx != null ==> !old(mdctx.finalized)) ==>
        (rv == 1 <==> (key.pubkey != null && Accepted(key.alg, cl, pq, key.pubkey[..], key.classicalPkey,
          VerifyHashes(operation, api), Context(), sig, Data(cl, md, old(Fed())))))
    {
      if mdctx != null {
        var d := mdctx.Final(cl, md);
        if d.None? {
          return 0;
        }
        flagAllowMd := true;
        rv := VerifyDirectly(key, cl, pq, operation, api, Context(), Some(sig), d.value);
      } else {
        rv := VerifyDirectly(key, cl, pq, operation, api, Context(), Some(sig), if mddata == null then [] else mddata[..]);
      }
    }

    // ------------------------------------------------------- duplication

    /**
     * oqs_sig_dupctx: the key is shared and counted once more, everything fed so
     * far is copied, and the stored signature pointer is copied as it is. So the
     * two contexts own disjoint memory exactly when no signature is stored.
     *
     * Copying no bytes gives a null pointer, so a context whose stored context
     * string is empty cannot be duplicated. The half-made duplicate is given back,
     * and with it the signature that the original still stores.
     */
    method DupCtx() returns (dst: SigCtx?, ghost released: set<object>)
      requires Valid() && (key != null ==> key.references > 0)
      modifies key, signature
      ensures dst == null <==> context != null && context.Length == 0
      ensures key != null ==>
        key.destroyed == old(key.destroyed) && key.privkey == old(key.privkey) && key.pubkey == old(key.pubkey) &&
        key.compPriv == old(key.compPriv) && key.compPub == old(key.compPub) && key.classicalPkey == old(key.classicalPkey)
      ensures key != null ==> key.references == old(key.references) + (if dst == null then 0 else 1)
      ensures unchanged(this) && Fed() == old(Fed()) && Context() == old(Context())
      ensures dst == null ==> forall o :: o in released ==> fresh(o) || o == signature
      ensures dst == null && signature != null ==> signature as object in released
      ensures dst != null ==> released == {} && (signature != null ==> signature[..] == old(signature[..]))
      ensures dst != null ==>
        fresh(dst) && dst.Valid() && dst.key == key && dst.operation == operation && dst.md == md && dst.flagAllowMd == flagAllowMd
      ensures dst != null ==> dst.Fed() == Fed() && dst.Context() == Context() && dst.signature == signature
      ensures dst != null ==> (dst.mdctx != null <==> mdctx != null) && (dst.mddata != null <==> mddata != null)
      ensures dst != null && dst.mdctx != null ==> dst.mdctx.finalized == mdctx.finalized
      ensures dst != null ==> fresh(dst.Copied())
      ensures dst != null ==> (dst.Buffers() !! Buffers() <==> signature == null)
    {
      released := {};
      var complete;
      dst, complete := MakeCopy();
      if !complete {
        released := Discard(dst);
        return null, released;
      }
      DisjointWithoutSignature(this, dst);
    }

    /** The error exit: the half-made duplicate is freed. The original keeps its fields and what it was fed. */
    method Discard(half: SigCtx) returns (ghost released: set<object>)
      requires Valid() && half != this && half.key == key && half.signature == signature && half.Copied() !! Copied()
      requires key != null ==> key.references > 1
      modifies half, half.mddata, half.context, signature, key
      ensures unchanged(this) && Fed() == old(Fed()) && Context() == old(Context())
      ensures key != null ==> key.references == old(key.references) - 1
      ensures key != null ==>
        key.destroyed == old(key.destroyed) && key.privkey == old(key.privkey) && key.pubkey == old(key.pubkey) &&
        key.compPriv == old(key.compPriv) && key.compPub == old(key.compPub) && key.classicalPkey == old(key.classicalPkey)
      ensures released == old(half.Copied()) + if signature == null then {} else {signature as object}
    {
      assert mddata != null ==> mddata as object in Copied();
      assert context != null ==> context as object in Copied();
      assert half.mddata != null ==> half.mddata as object in half.Copied();
      assert half.context != null ==> half.context as object in half.Copied();
      released := half.FreeCtx();
    }

    /** The duplicate as far as it gets: complete, or without the copy of an empty context string. */
    method MakeCopy() returns (dst: SigCtx, complete: bool)
      requires Valid() && (key != null ==> key.references > 0)
      modifies key
      ensures complete <==> !(context != null && context.Length == 0)
      ensures key != null ==>
        key.destroyed == old(key.destroyed) && key.privkey == old(key.privkey) && key.pubkey == old(key.pubkey) &&
        key.compPriv == old(key.compPriv) && key.compPub == old(key.compPub) && key.classicalPkey == old(key.classicalPkey)
      ensures key != null ==> key.references == old(key.references) + 1
      ensures unchanged(this) && Fed() == old(Fed()) && Context() == old(Context())
      ensures fresh(dst) && dst.key == key && dst.operation == operation && dst.md == md && dst.flagAllowMd == flagAllowMd
      ensures dst.signature == signature && fresh(dst.Copied())
      ensures dst.mddata != null ==> fresh(dst.mddata)
      ensures dst.context != null ==> fresh(dst.context)
      ensures complete ==> dst.Valid() && dst.Fed() == Fed() && dst.Context() == Context()
      ensures complete ==> (dst.mdctx != null <==> mdctx != null) && (dst.mddata != null <==> mddata != null)
      ensures dst.mdctx != null ==> mdctx != null && dst.mdctx.finalized == mdctx.finalized
    {
      if key != null {
        var up := key.UpRef();
        assert up;
      }
      var newMd := MdCtx.Duplicate(mdctx);
      var newData := Memdup(mddata);
      var newContext := Memdup(context);
      dst := new SigCtx.Like(this, newMd, newData, newContext);
      complete := (mddata == null || newData != null) && (context == null || newContext != null);
    }

    /** OPENSSL_memdup, which has no result for no bytes. */
    static method Memdup(b: array?<byte>) returns (copy: array?<byte>)
      ensures copy == null <==> b == null || b.Length == 0
      ensures copy != null ==> fresh(copy) && copy[..] == b[..]
    {
      copy := null;
      if b != null && b.Length > 0 {
        copy := OqsxKey.Duplicate(b[..]);
      }
    }

    /** Giving memory back: its contents are whatever the allocator leaves. */
    static method Release(b: array?<byte>)
      modifies b
    {
      if b != null {
        for i := 0 to b.Length {
          b[i] := 0;
        }
      }
    }

    /** oqs_sig_freectx: `released` is the memory that is given back. */
    method FreeCtx() returns (ghost released: set<object>)
      requires key != null ==> key.references > 0
      modifies this, mddata, context, signature, key
      ensures old(key) != null ==>
        old(key).references == old(key.references) - 1 &&
        old(key).destroyed == old(key.destroyed) + (if old(key.references) == 1 then 1 else 0)
      ensures old(key) != null && old(key.references) > 1 ==>
        old(key).privkey == old(key.privkey) && old(key).pubkey == old(key.pubkey) &&
        old(key).compPriv == old(key.compPriv) && old(key).compPub == old(key.compPub) &&
        old(key).classicalPkey == old(key.classicalPkey)
      ensures key == null && Buffers() == {} && mdsize == 0
      ensures released == old(Buffers())
    {
      released := Buffers();
      mdctx := null;
      md := NoMd;
      if key != null {
        key.Free();
      }
      key := null;
      Release(mddata);
      mddata := null;
      mdsize := 0;
      Release(context);
      context := null;
      Release(signature);
      signature := null;
    }
  }

  /**
   * The two contexts of a duplication own disjoint memory exactly when no
   * signature was stored: the stored signature is the one buffer both would free.
   */
  lemma DisjointWithoutSignature(src: SigCtx, dst: SigCtx)
    requires dst.signature == src.signature && dst.Copied() !! src.Buffers()
    ensures dst.Buffers() !! src.Buffers() <==> src.signature == null
  {
    if src.signature != null {
      assert src.signature as object in dst.Buffers() && src.signature as object in src.Buffers();
    }
  }

  // --------------------------------------------------- runs of two contexts

  /** What one side of an interleaving was given. */
  function Side(script: seq<(bool, Bytes)>, which: bool): seq<Event> {
    if script == [] then []
    else if script[0].0 == which then [Event.Update(script[0].1)] + Side(script[1..], which)
    else Side(script[1..], which)
  }

  /** Feeding one more chunk at the end of a run. */
  lemma {:induction false} RunAppend(f: Feed, es: seq<Event>, e: Event)
    ensures Run(f, es + [e]) == Step(Run(f, es), e)
    decreases es
  {
    if es == [] {
      assert es + [e] == [e];
      assert Run(Step(f, e), []) == Step(f, e);
    } else {
      assert (es + [e])[0] == es[0] && (es + [e])[1..] == es[1..] + [e];
      RunAppend(Step(f, es[0]), es[1..], e);
    }
  }

  lemma {:induction false} SideAppend(script: seq<(bool, Bytes)>, x: (bool, Bytes), which: bool)
    ensures Side(script + [x], which) == Side(script, which) + if x.0 == which then [Event.Update(x.1)] else []
  {
    if script == [] {
      assert script + [x] == [x];
      assert Side([x], which) == (if x.0 == which then [Event.Update(x.1)] else []) + Side([], which);
    } else {
      assert (script + [x])[0] == script[0] && (script + [x])[1..] == script[1..] + [x];
      SideAppend(script[1..], x, which);
    }
  }

  /** One more entry of a script reaches one side and leaves the other alone. */
  lemma SideStep(f: Feed, script: seq<(bool, Bytes)>, i: nat, which: bool)
    requires i < |script|
    ensures Run(f, Side(script[..i + 1], which)) ==
      if script[i].0 == which then Step(Run(f, Side(script[..i], which)), Event.Update(script[i].1))
      else Run(f, Side(script[..i], which))
  {
    hide Run;
    assert script[..i + 1] == script[..i] + [script[i]];
    SideAppend(script[..i], script[i], which);
    if script[i].0 == which {
      RunAppend(f, Side(script[..i], which), Event.Update(script[i].1));
    } else {
      assert Side(script[..i], which) + [] == Side(script[..i], which);
    }
  }

  /** Can the two contexts be fed apart from each other? */
  ghost predicate Apart(a: SigCtx, b: SigCtx)
    reads a, b, a.mdctx, b.mdctx
  {
    && a != b && a.Valid() && b.Valid() && a.Copied() !! b.Copied()
    && (a.mdctx != null ==> !a.mdctx.finalized) && (b.mdctx != null ==> !b.mdctx.finalized)
  }

  method FeedOne(a: SigCtx, b: SigCtx, chunk: Bytes)
    requires Apart(a, b)
    modifies a`mddata, a`mdsize, a`flagAllowMd, a.mdctx
    ensures Apart(a, b) && b.Fed() == old(b.Fed()) && a.Fed() == Step(old(a.Fed()), Event.Update(chunk))
    ensures a.mddata == old(a.mddata) || (a.mddata != null && fresh(a.mddata))
  {
    hide Step;
    assert a.mdctx != null ==> a.mdctx as object in a.Copied();
    assert b.mdctx != null ==> b.mdctx as object in b.Copied();
    var _ := a.DigestUpdate(chunk);
  }

  method FeedBoth(src: SigCtx, dst: SigCtx, script: seq<(bool, Bytes)>)
    requires Apart(src, dst)
    modifies src`mddata, src`mdsize, src`flagAllowMd, src.mdctx, dst`mddata, dst`mdsize, dst`flagAllowMd, dst.mdctx
    ensures Apart(src, dst)
    ensures src.Fed() == Run(old(src.Fed()), Side(script, true))
    ensures dst.Fed() == Run(old(dst.Fed()), Side(script, false))
    ensures src.mddata == old(src.mddata) || (src.mddata != null && fresh(src.mddata))
    ensures dst.mddata == old(dst.mddata) || (dst.mddata != null && fresh(dst.mddata))
  {
    hide Step;
    for i := 0 to |script|
      invariant Apart(src, dst)
      invariant src.Fed() == Run(old(src.Fed()), Side(script[..i], true))
      invariant dst.Fed() == Run(old(dst.Fed()), Side(script[..i], false))
      invariant src.mddata == old(src.mddata) || (src.mddata != null && fresh(src.mddata))
      invariant dst.mddata == old(dst.mddata) || (dst.mddata != null && fresh(dst.mddata))
    {
      SideStep(old(src.Fed()), script, i, true);
      SideStep(old(dst.Fed()), script, i, false);
      if script[i].0 {
        FeedOne(src, dst, script[i].1);
      } else {
        FeedOne(dst, src, script[i].1);
      }
    }
    assert script[..|script|] == script;
  }

  /** What a context has been fed, to be kept after the context is gone. */
  method Collected(ctx: SigCtx) returns (f: Feed)
    ensures f == ctx.Fed()
  {
    f := Feed(if ctx.mddata == null then [] else ctx.mddata[..], if ctx.mdctx == null then None else Some(ctx.mdctx.absorbed));
  }

  /** Free one of two contexts that share a key and nothing else. */
  method FreeOne(gone: SigCtx, stays: SigCtx)
    requires gone != stays && gone.signature == null && gone.Copied() !! stays.Copied()
    requires gone.key != null && gone.key == stays.key && gone.key.references > 1
    modifies gone, gone.mddata, gone.context, gone.key
    ensures stays.Fed() == old(stays.Fed()) && stays.Context() == old(stays.Context())
    ensures stays.key.references == old(stays.key.references) - 1 && stays.key.destroyed == old(stays.key.destroyed)
    ensures stays.key.privkey == old(stays.key.privkey) && stays.key.pubkey == old(stays.key.pubkey)
  {
    assert gone.mddata != null ==> gone.mddata as object in gone.Copied();
    assert gone.context != null ==> gone.context as object in gone.Copied();
    assert stays.mddata != null ==> stays.mddata as object in stays.Copied();
    assert stays.context != null ==> stays.context as object in stays.Copied();
    var _ := gone.FreeCtx();
  }

  /**
   * A client: duplicate a context with no stored signature, feed the two copies
   * in any interleaving, free the duplicate. Each side has seen the common
   * prefix followed by its own chunks only, and the original and its key outlive
   * the duplicate. Where there is no duplicate the original is as it was.
   */
  method DuplicateAndFeed(src: SigCtx, script: seq<(bool, Bytes)>) returns (ok: bool, other: Feed)
    requires src.Valid() && src.signature == null && src.key != null && src.key.references > 0
    requires src.mdctx != null ==> !src.mdctx.finalized
    modifies src`mddata, src`mdsize, src`flagAllowMd, src.mdctx, src.key
    ensures ok <==> !(src.context != null && src.context.Length == 0)
    ensures src.Valid() && src.key.references == old(src.key.references) && src.key.destroyed == old(src.key.destroyed)
    ensures src.key.privkey == old(src.key.privkey) && src.key.pubkey == old(src.key.pubkey)
    ensures ok ==> src.Fed() == Run(old(src.Fed()), Side(script, true)) && other == Run(old(src.Fed()), Side(script, false))
    ensures !ok ==> src.Fed() == old(src.Fed())
  {
    hide Run, Side;
    var dst, _ := src.DupCtx();
    if dst == null {
      other := Collected(src);
      return false, other;
    }
    FeedBoth(src, dst, script);
    other := Collected(dst);
    FreeOne(dst, src);
    ok := true;
  }

  /** Feed two contexts that share a key, then free the first. */
  method FeedAndFree(gone: SigCtx, stays: SigCtx, script: seq<(bool, Bytes)>) returns (other: Feed)
    requires Apart(gone, stays) && gone.signature == null
    requires gone.key != null && gone.key == stays.key && gone.key.references > 1
    modifies gone, gone.mdctx, gone.mddata, gone.context, gone.key
    modifies stays`mddata, stays`mdsize, stays`flagAllowMd, stays.mdctx
    ensures stays.Valid() && stays.Context() == old(stays.Context())
    ensures stays.Fed() == Run(old(stays.Fed()), Side(script, false)) && other == Run(old(gone.Fed()), Side(script, true))
    ensures stays.key.references == old(stays.key.references) - 1 && stays.key.destroyed == old(stays.key.destroyed)
    ensures stays.key.privkey == old(stays.key.privkey) && stays.key.pubkey == old(stays.key.pubkey)
  {
    hide Run, Side, Step;
    FeedBoth(gone, stays, script);
    other := Collected(gone);
    FreeOne(gone, stays);
  }

  /** The other way round: the original is freed, and the duplicate and its key outlive it. */
  method DuplicateAndReplace(src: SigCtx, script: seq<(bool, Bytes)>) returns (dst: SigCtx?, other: Feed)
    requires src.Valid() && src.signature == null && src.key != null && src.key.references > 0
    requires src.mdctx != null ==> !src.mdctx.finalized
    modifies src, src.mdctx, src.mddata, src.context, src.key
    ensures dst == null <==> old(src.context) != null && old(src.context).Length == 0
    ensures dst == null ==> unchanged(src) && src.Fed() == old(src.Fed()) && src.key.references == old(src.key.references)
    ensures dst != null ==> fresh(dst) && dst.Valid() && dst.key == old(src.key) && dst.operation == old(src.operation)
    ensures dst != null ==> dst.key.references == old(src.key.references) && dst.key.destroyed == old(src.key.destroyed)
    ensures dst != null ==> dst.key.privkey == old(src.key.privkey) && dst.key.pubkey == old(src.key.pubkey)
    ensures dst != null ==> dst.Fed() == Run(old(src.Fed()), Side(script, false)) && dst.Context() == old(src.Context())
    ensures dst != null ==> other == Run(old(src.Fed()), Side(script, true))
  {
    hide Run, Side;
    ghost var released;
    dst, released := src.DupCtx();
    other := Collected(src);
    if dst == null {
      return;
    }
    other := FeedAndFree(src, dst, script);
  }

  /**
   * A client that duplicates a context which stores a signature: both contexts
   * hold the one array that both would give back.
   */
  method DuplicateWithSignature(key: OqsxKey, sig: Bytes) returns (src: SigCtx, dst: SigCtx)
    requires key.references > 0
    modifies key
    ensures src.signature != null && src.signature[..] == sig && dst.signature == src.signature && dst != src
    ensures src.signature as object in src.Buffers() && src.signature as object in dst.Buffers()
    ensures !(dst.Buffers() !! src.Buffers())
  {
    src := new SigCtx();
    var _ := src.SignVerifyInit(key, OpVerifyMsg);
    src.SetSignature(sig);
    var copy, _ := src.DupCtx();
    dst := copy;
  }

  /**
   * A client that stores an empty context string: there is no duplicate, and a
   * signature that was stored is given back although the original keeps it.
   */
  method DuplicateWithEmptyContext(key: OqsxKey, sig: Option<Bytes>) returns (src: SigCtx, dst: SigCtx?, ghost released: set<object>)
    requires key.references > 0
    modifies key
    ensures fresh(src) && src.key == key && src.context != null && src.Context() == [] && dst == null
    ensures key.references == old(key.references) + 1 && key.destroyed == old(key.destroyed)
    ensures sig.Some? ==> src.signature != null && src.signature as object in released
  {
    src := new SigCtx();
    var ok := src.SignVerifyInit(key, OpVerifyMsg);
    ok := src.SetContext([]);
    if sig.Some? {
      src.SetSignature(sig.value);
    }
    dst, released := src.DupCtx();
  }

  /**
   * A length query of a digest signature allows the digest to be changed again,
   * although data was fed; changing it drops what the running digest absorbed.
   */
  method QueryReopensDigest(ctx: SigCtx, cl: Classical, pq: Pq, chunk: Bytes, md: Md) returns (refused: bool, changed: bool)
    requires ctx.Valid() && ctx.Ready() && PqSigLengths(ctx.key.alg.qs, pq) && ctx.mdctx != null && !ctx.mdctx.finalized
    modifies ctx`mddata, ctx`mdsize, ctx`flagAllowMd, ctx`md, ctx`mdctx, ctx.mdctx
    ensures refused && changed && ctx.md == md
    ensures ctx.Fed() == old(ctx.Fed()).(absorbed := None)
  {
    var ok := ctx.DigestUpdate(chunk);
    ok := ctx.SetDigest(Known(md));
    refused := !ok;
    var rv, n := ctx.DigestSignFinal(cl, pq, true, null, 0, 0, 0);
    changed := ctx.SetDigest(Known(md));
  }
}
