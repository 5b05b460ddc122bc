/**
 * The KEM context: one counted key, replaced by every initialisation.
 */
module KemContext {
  import opened Keys

  class KemCtx {
    var kem: OqsxKey?

    /** oqs_kem_newctx: the key is set only by an initialisation. */
    constructor ()
      ensures kem == null
    {
      kem := null;
    }

    /**
     * oqs_kem_decapsencaps_init: the new key is counted before the old one is
     * released, so initialising again with the same key leaves its count alone.
     */
    method Init(vkem: OqsxKey?) returns (ok: bool)
      requires vkem != null ==> vkem.references > 0
      requires kem != null ==> kem.references > 0
      modifies this, vkem, kem
      ensures ok <==> vkem != null
      ensures !ok ==> kem == old(kem)
      ensures !ok && kem != null ==> kem.references == old(kem.references) && kem.destroyed == old(kem.destroyed)
      ensures ok ==> kem == vkem && vkem.destroyed == old(vkem.destroyed)
      ensures ok ==> vkem.references == old(vkem.references) + (if old(kem) == vkem then 0 else 1)
      ensures ok ==> vkem.privkey == old(vkem.privkey) && vkem.pubkey == old(vkem.pubkey)
      ensures ok ==> vkem.compPriv == old(vkem.compPriv) && vkem.compPub == old(vkem.compPub)
      ensures ok && old(kem) != null && old(kem) != vkem ==>
        old(kem).references == old(kem.references) - 1 &&
        old(kem).destroyed == old(kem.destroyed) + (if old(kem.references) == 1 then 1 else 0)
    {
      if vkem == null {
        return false;
      }
      var up := vkem.UpRef();
      if !up {
        return false;
      }
      if kem != null {
        kem.Free();
      }
      kem := vkem;
      return true;
    }

    /** oqs_kem_freectx */
    method FreeCtx()
      requires kem != null ==> kem.references > 0
      modifies this, kem
      ensures kem == null
      ensures old(kem) != null ==>
        old(kem).references == old(kem.references) - 1 &&
        old(kem).destroyed == old(kem.destroyed) + (if old(kem.references) == 1 then 1 else 0)
    {
      if kem != null {
        kem.Free();
      }
      kem := null;
    }
  }

  /**
   * A client: two contexts on one key, the second initialised twice, and the
   * handle dropped in between. The key lives until the last of the three lets go
   * of it, and is destroyed then, once.
   */
  method ShareAndRelease(key: OqsxKey, a: KemCtx, b: KemCtx)
    requires key.references == 1 && a != b && a.kem == null && b.kem == null
    modifies key, a, b
    ensures key.references == 0 && key.destroyed == old(key.destroyed) + 1
    ensures a.kem == null && b.kem == null
  {
    var first := a.Init(key);
    var second := b.Init(key);
    var again := b.Init(key);
    assert key.references == 3;
    key.Free();
    a.FreeCtx();
    assert b.kem == key && key.references == 1 && key.destroyed == old(key.destroyed);
    b.FreeCtx();
  }
}
