/**
 * oqs_der2key_decode: try to parse a key, offer it to a callback by reference,
 * and destroy it unless the callback's keymgmt load took it.
 */
module Der2Key {
  import opened Bytes
  import opened Primitives
  import opened Keys

  /** The bits of a selection mask the decoder looks at. */
  datatype Selection = Selection(private_: bool, public_: bool, domain: bool, other: bool) {
    function And(s: Selection): Selection {
      Selection(private_ && s.private_, public_ && s.public_, domain && s.domain, other && s.other)
    }

    predicate Empty() {
      !private_ && !public_ && !domain && !other
    }

    /** OSSL_KEYMGMT_SELECT_ALL_PARAMETERS: either of the two parameter bits. */
    predicate Params() {
      domain || other
    }
  }

  datatype Format = Pkcs8 | PrivateKey | Spki | PublicKey | KeyParams

  /** struct keytype_desc_st: which parsers there are, and the two optional hooks. */
  datatype Desc = Desc(mask: Selection, pkcs8: bool, privateKey: bool, spki: bool, keyParams: bool, checks: bool)

  /** What the bytes hold: whether they can be read, what each parser makes of them, and the verdict of check_key. */
  datatype Input = Input(readable: bool, fatal: bool, parse: Format -> Option<Alg>, fits: Alg -> bool)

  // ---------------------------------------------------------- specification

  /** Parsers make keys of the provider's algorithms only. */
  ghost predicate Sound(inp: Input) {
    forall f: Format :: inp.parse(f).Some? ==> inp.parse(f).value.Valid()
  }

  function PrivateAttempts(d: Desc, sel: Selection): seq<Option<Format>> {
    if sel.private_ then [if d.pkcs8 then Some(Pkcs8) else if d.privateKey then Some(PrivateKey) else None] else []
  }

  function PublicAttempts(d: Desc, sel: Selection): seq<Option<Format>> {
    if sel.public_ then [Some(if d.spki then Spki else PublicKey)] else []
  }

  function ParamAttempts(d: Desc, sel: Selection): seq<Option<Format>> {
    if sel.Params() then [if d.keyParams then Some(KeyParams) else None] else []
  }

  /** The parsers a selection asks for, in order. */
  function Attempts(d: Desc, sel: Selection): seq<Option<Format>> {
    PrivateAttempts(d, sel) + (PublicAttempts(d, sel) + ParamAttempts(d, sel))
  }

  /** The first attempt that yields a key; a caller who named a selection gets the first attempt only. */
  function Winner(attempts: seq<Option<Format>>, guessing: bool, parse: Format -> Option<Alg>): Option<Alg> {
    if attempts == [] then None
    else
      var made := if attempts[0].Some? then parse(attempts[0].value) else None;
      if made.Some? then made
      else if guessing then Winner(attempts[1..], guessing, parse)
      else None
  }

  /** Later attempts count only after earlier ones came to nothing, and only when guessing. */
  lemma {:induction false} WinnerAppend(xs: seq<Option<Format>>, ys: seq<Option<Format>>, guessing: bool, parse: Format -> Option<Alg>)
    ensures Winner(xs + ys, guessing, parse) ==
      if Winner(xs, guessing, parse).Some? then Winner(xs, guessing, parse)
      else if xs == [] || guessing then Winner(ys, guessing, parse)
      else None
  {
    if xs == [] {
      assert xs + ys == ys;
    } else {
      assert (xs + ys)[0] == xs[0] && (xs + ys)[1..] == xs[1..] + ys;
      WinnerAppend(xs[1..], ys, guessing, parse);
    }
  }

  /** A guess finds a key exactly when some parser does; a named selection, exactly when its first parser does. */
  lemma {:induction false} GuessFindsAny(xs: seq<Option<Format>>, guessing: bool, parse: Format -> Option<Alg>)
    ensures Winner(xs, guessing, parse).Some? <==>
      exists i :: 0 <= i < |xs| && (i == 0 || guessing) && xs[i].Some? && parse(xs[i].value).Some?
  {
    if xs != [] {
      if xs[0].Some? && parse(xs[0].value).Some? {
        assert 0 <= 0 < |xs| && xs[0].Some?;
      } else if guessing {
        GuessFindsAny(xs[1..], guessing, parse);
        assert forall i :: 0 < i < |xs| ==> xs[i] == xs[1..][i - 1];
        assert forall i :: 0 <= i < |xs[1..]| ==> xs[1..][i] == xs[i + 1];
      }
    }
  }

  function Effective(d: Desc, sel: Selection): Selection {
    if sel.Empty() then d.mask else sel
  }

  predicate Refused(d: Desc, sel: Selection) {
    Effective(d, sel).And(d.mask).Empty()
  }

  predicate Fatal(d: Desc, sel: Selection, inp: Input) {
    inp.readable && inp.fatal && Effective(d, sel).private_ && d.pkcs8
  }

  /** The key that is parsed, offered or not. */
  function Parsed(d: Desc, sel: Selection, inp: Input): Option<Alg> {
    if Refused(d, sel) || !inp.readable then None
    else if Fatal(d, sel, inp) then inp.parse(Pkcs8)
    else Winner(Attempts(d, Effective(d, sel)), sel.Empty(), inp.parse)
  }

  /**
   * Which parser's key it is, written out. Nothing selected means everything the
   * structure can hold, and the first of private key, public key and parameters
   * that parses; a named selection gets the one parser of its first bit.
   */
  lemma ParsedByCases(d: Desc, sel: Selection, inp: Input)
    requires inp.readable && !inp.fatal
    ensures var guess := !sel.private_ && !sel.public_ && !sel.domain && !sel.other;
      var s := if guess then d.mask else sel;
      var priv := if d.pkcs8 then inp.parse(Pkcs8) else if d.privateKey then inp.parse(PrivateKey) else None;
      var pub := if d.spki then inp.parse(Spki) else inp.parse(PublicKey);
      var params := if d.keyParams then inp.parse(KeyParams) else None;
      Parsed(d, sel, inp) ==
        if !(s.private_ && d.mask.private_) && !(s.public_ && d.mask.public_) && !(s.domain && d.mask.domain) &&
           !(s.other && d.mask.other) then None
        else if s.private_ && (priv.Some? || !guess) then priv
        else if s.public_ && (pub.Some? || !guess) then pub
        else if s.domain || s.other then params
        else None
  {
    var s := Effective(d, sel);
    var p, q, r := PrivateAttempts(d, s), PublicAttempts(d, s), ParamAttempts(d, s);
    WinnerAppend(p, q + r, sel.Empty(), inp.parse);
    WinnerAppend(q, r, sel.Empty(), inp.parse);
    WinnerOfOne(p, sel.Empty(), inp.parse);
    WinnerOfOne(q, sel.Empty(), inp.parse);
    WinnerOfOne(r, sel.Empty(), inp.parse);
    hide Winner;
  }

  /**
   * When nothing is made, and when what is made is not offered: bytes that cannot
   * be read make no key, a fatal PKCS#8 parse is not followed by another one and
   * its key is not offered, and neither is a key that fails its check.
   */
  lemma OfferedByCases(d: Desc, sel: Selection, inp: Input)
    ensures var guess := !sel.private_ && !sel.public_ && !sel.domain && !sel.other;
      var s := if guess then d.mask else sel;
      var fatal := inp.readable && inp.fatal && s.private_ && d.pkcs8;
      && Refused(d, sel) == !((s.private_ && d.mask.private_) || (s.public_ && d.mask.public_) ||
                              (s.domain && d.mask.domain) || (s.other && d.mask.other))
      && (Fatal(d, sel, inp) <==> fatal)
      && (!inp.readable || Refused(d, sel) ==> Parsed(d, sel, inp).None?)
      && (fatal && !Refused(d, sel) ==> Parsed(d, sel, inp) == inp.parse(Pkcs8))
      && Offered(d, sel, inp) ==
         (if Parsed(d, sel, inp).None? || fatal || (d.checks && !inp.fits(Parsed(d, sel, inp).value)) then None
          else Parsed(d, sel, inp))
  {
    hide Attempts, Winner;
  }

  lemma WinnerOfOne(xs: seq<Option<Format>>, guessing: bool, parse: Format -> Option<Alg>)
    requires |xs| <= 1
    ensures Winner(xs, guessing, parse) == if xs == [] || xs[0].None? then None else parse(xs[0].value)
  {
  }

  /** The key that reaches the callback. */
  function Offered(d: Desc, sel: Selection, inp: Input): Option<Alg> {
    var p := Parsed(d, sel, inp);
    if Fatal(d, sel, inp) || (p.Some? && d.checks && !inp.fits(p.value)) then None else p
  }

  /** What the consumer does with the reference it is handed. */
  datatype Use = Load(sized: bool) | Export(sized: bool)

  predicate Takes(uses: seq<Use>) {
    Load(true) in uses
  }

  // ------------------------------------------------------------------ code

  /** The cell whose address is passed to the callback. */
  class Reference {
    var key: OqsxKey?

    constructor ()
      ensures key == null
    {
      key := null;
    }
  }

  /** oqsx_load: take the key and null the shared reference. */
  method OqsxLoad(reference: Reference, sized: bool) returns (key: OqsxKey?)
    modifies reference
    ensures sized ==> key == old(reference.key) && reference.key == null
    ensures !sized ==> key == null && reference.key == old(reference.key)
  {
    if sized {
      key := reference.key;
      reference.key := null;
      return key;
    }
    return null;
  }

  /** der2key_export_object: look at the key without taking it. */
  method ExportObject(reference: Reference, sized: bool) returns (seen: OqsxKey?)
    ensures seen == if sized then reference.key else null
  {
    seen := if sized then reference.key else null;
  }

  /** A consumer that makes any number of uses of the reference: it takes the key at its first good load, and once only. */
  method Consume(reference: Reference, uses: seq<Use>) returns (taken: seq<OqsxKey>)
    requires reference.key != null
    modifies reference
    ensures taken == if Takes(uses) then [old(reference.key)] else []
    ensures reference.key == if Takes(uses) then null else old(reference.key)
  {
    taken := [];
    for i := 0 to |uses|
      invariant taken == if Takes(uses[..i]) then [old(reference.key)] else []
      invariant reference.key == if Takes(uses[..i]) then null else old(reference.key)
    {
      assert uses[..i + 1] == uses[..i] + [uses[i]];
      match uses[i] {
        case Load(sized) =>
          var key := OqsxLoad(reference, sized);
          if key != null {
            taken := taken + [key];
          }
        case Export(sized) =>
          var _ := ExportObject(reference, sized);
      }
    }
    assert uses[..|uses|] == uses;
  }

  /** A parser's key is new and has one reference. */
  method Parse(inp: Input, f: Format) returns (key: OqsxKey?)
    requires Sound(inp)
    ensures key != null <==> inp.parse(f).Some?
    ensures key != null ==> fresh(key) && key.references == 1 && key.destroyed == 0 && key.alg == inp.parse(f).value
  {
    key := null;
    match inp.parse(f) {
      case Some(alg) => key := new OqsxKey(alg);
      case None =>
    }
  }

  /** free_key, which does nothing for a null key. */
  method FreeKey(key: OqsxKey?)
    modifies key
    ensures key != null ==> key.references == old(key.references) - 1
    ensures key != null ==> key.destroyed == old(key.destroyed) + (if key.references <= 0 then 1 else 0)
  {
    if key != null {
      key.Free();
    }
  }

  /**
   * oqs_der2key_decode. At most one key is made. When the call returns, the key
   * belongs to exactly one consumer and has one reference, or it was destroyed
   * once and has none: never both, never neither.
   */
  method Decode(d: Desc, sel: Selection, inp: Input, uses: seq<Use>, cbResult: int)
    returns (ok: int, taken: seq<OqsxKey>, ghost made: OqsxKey?)
    requires Sound(inp)
    ensures made != null <==> Parsed(d, sel, inp).Some?
    ensures made != null ==> fresh(made) && made.alg == Parsed(d, sel, inp).value
    ensures made != null && Offered(d, sel, inp).Some? && Takes(uses) ==>
      taken == [made] && made.references == 1 && made.destroyed == 0
    ensures made != null && !(Offered(d, sel, inp).Some? && Takes(uses)) ==>
      taken == [] && made.references == 0 && made.destroyed == 1
    ensures made == null ==> taken == []
    ensures ok == if Refused(d, sel) || Fatal(d, sel, inp) then 0 else if Offered(d, sel, inp).Some? then cbResult else 1
  {
    taken, made := [], null;
    var selection := sel;
    if sel.Empty() {
      selection := d.mask;
    }
    if selection.And(d.mask).Empty() {
      return 0, taken, made;
    }
    ok := if inp.readable then 1 else 0;
    var reference := new Reference();
    if ok != 0 {
      ok := 0;
      var fatal, key := ParseSelected(d, sel, selection, inp);
      made := key;
      if fatal {
        FreeKey(key);
        return 0, taken, made;
      }
      if key != null && d.checks && !inp.fits(key.alg) {
        FreeKey(key);
        key := null;
      }
      reference.key := key;
    }
    ok := 1;
    if reference.key != null {
      taken := Consume(reference, uses);
      ok := cbResult;
    }
    FreeKey(reference.key);
  }

  /** The three parsing steps, each skipped once there is a key and each the last one unless the structure is guessed. */
  method ParseSelected(d: Desc, sel: Selection, selection: Selection, inp: Input) returns (fatal: bool, key: OqsxKey?)
    requires Sound(inp) && selection == Effective(d, sel) && !Refused(d, sel) && inp.readable
    ensures fatal == Fatal(d, sel, inp)
    ensures key != null <==> Parsed(d, sel, inp).Some?
    ensures key != null ==> fresh(key) && key.references == 1 && key.destroyed == 0 && key.alg == Parsed(d, sel, inp).value
  {
    fatal, key := false, null;
    var guessing := sel.Empty();
    WinnerAppend(PrivateAttempts(d, selection), PublicAttempts(d, selection) + ParamAttempts(d, selection), guessing, inp.parse);
    WinnerAppend(PublicAttempts(d, selection), ParamAttempts(d, selection), guessing, inp.parse);
    if selection.private_ {
      if d.pkcs8 {
        key := Parse(inp, Pkcs8);
        if inp.fatal {
          return true, key;
        }
      } else if d.privateKey {
        key := Parse(inp, PrivateKey);
      }
      if key == null && !guessing {
        return;
      }
    }
    if key == null && selection.public_ {
      if d.spki {
        key := Parse(inp, Spki);
      } else {
        key := Parse(inp, PublicKey);
      }
      if key == null && !guessing {
        return;
      }
    }
    if key == null && selection.Params() {
      if d.keyParams {
        key := Parse(inp, KeyParams);
      }
    }
  }
}
