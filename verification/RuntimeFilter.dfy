/**
 * The runtime filter: algorithms disabled when the provider is loaded are
 * dropped from the tables a query returns and from the TLS capabilities.
 */
module RuntimeFilter {
  import opened Bytes

  /** OSSL_ALGORITHM: a name, null in the entry that ends a table, and what it stands for. */
  datatype Entry = Entry(names: Option<string>, implementation: nat)

  datatype Operation = Signatures | Kems | Keymgmt | Encoders | Decoders

  /** sk_OPENSSL_STRING_find(...) >= 0: a null name is never found. */
  predicate Found(disabled: seq<string>, names: Option<string>) {
    names.Some? && names.value in disabled
  }

  // ---------------------------------------------------------- specification

  /** The entries that are not disabled, in order. */
  function Filter(t: seq<Entry>, disabled: seq<string>): seq<Entry> {
    if t == [] then []
    else (if Found(disabled, t[0].names) then [] else [t[0]]) + Filter(t[1..], disabled)
  }

  function CountFound(t: seq<Entry>, disabled: seq<string>): nat {
    if t == [] then 0 else (if Found(disabled, t[0].names) then 1 else 0) + CountFound(t[1..], disabled)
  }

  /** A table whose only null name is in its last entry. */
  predicate Terminated(t: seq<Entry>) {
    |t| > 0 && t[|t| - 1].names.None? && forall i :: 0 <= i < |t| - 1 ==> t[i].names.Some?
  }

  /** What a reader of a table sees: the names up to the first null. */
  function Visible(t: seq<Entry>): seq<string> {
    if t == [] || t[0].names.None? then [] else [t[0].names.value] + Visible(t[1..])
  }

  function Allowed(names: seq<string>, disabled: seq<string>): seq<string> {
    if names == [] then []
    else (if names[0] in disabled then [] else [names[0]]) + Allowed(names[1..], disabled)
  }

  /**
   * How the registration of one algorithm goes: is there an OID, does the core
   * take it, is the name in the NID table, is the signature identifier taken, and
   * which NID does the name have afterwards?
   */
  datatype Registration = Registration(name: string, oid: bool, created: bool, inTable: bool, sigid: bool, nid: int)

  /** A registration that ends the initialisation: one that cannot be matched with the NID table or the object database. */
  predicate Breaks(r: Registration) {
    r.oid && r.created && (!r.inTable || (r.sigid && r.nid == 0))
  }

  /** The names the core refused. */
  function RefusedNames(rs: seq<Registration>): seq<string> {
    if rs == [] then []
    else
      var r := rs[|rs| - 1];
      RefusedNames(rs[..|rs| - 1]) + if r.oid && (!r.created || !r.sigid) then [r.name] else []
  }

  // ---------------------------------------------------------------- lemmas

  /** A name is refused exactly if the core did not take an algorithm of that name, or not its signature identifier. */
  lemma {:induction false} RefusedMembers(rs: seq<Registration>, x: string)
    ensures x in RefusedNames(rs) <==>
      exists i :: 0 <= i < |rs| && rs[i].name == x && rs[i].oid && !(rs[i].created && rs[i].sigid)
  {
    if rs != [] {
      var n := |rs| - 1;
      RefusedMembers(rs[..n], x);
      assert forall i :: 0 <= i < n ==> rs[..n][i] == rs[i];
      if x in RefusedNames(rs) && x !in RefusedNames(rs[..n]) {
        assert rs[n].name == x && rs[n].oid && !(rs[n].created && rs[n].sigid);
      }
    }
  }

  /** A reader sees the names of all entries before the last, in order. */
  lemma {:induction false} VisibleIsNames(t: seq<Entry>)
    requires Terminated(t)
    ensures |Visible(t)| == |t| - 1 && forall i :: 0 <= i < |t| - 1 ==> t[i].names == Some(Visible(t)[i])
  {
    if |t| > 1 {
      VisibleIsNames(t[1..]);
      assert forall i :: 0 < i < |t| ==> t[i] == t[1..][i - 1];
    } else {
      assert Visible(t) == [];
    }
  }

  lemma {:induction false} FilterAppend(t: seq<Entry>, e: Entry, disabled: seq<string>)
    ensures Filter(t + [e], disabled) == Filter(t, disabled) + if Found(disabled, e.names) then [] else [e]
    ensures CountFound(t + [e], disabled) == CountFound(t, disabled) + if Found(disabled, e.names) then 1 else 0
  {
    if t == [] {
      assert t + [e] == [e];
    } else {
      assert (t + [e])[0] == t[0] && (t + [e])[1..] == t[1..] + [e];
      FilterAppend(t[1..], e, disabled);
      var first := if Found(disabled, t[0].names) then [] else [t[0]];
      var last := if Found(disabled, e.names) then [] else [e];
      assert first + (Filter(t[1..], disabled) + last) == first + Filter(t[1..], disabled) + last;
    }
  }

  /** Kept and found entries add up to the table. */
  lemma {:induction false} FilterCounts(t: seq<Entry>, disabled: seq<string>)
    ensures |Filter(t, disabled)| + CountFound(t, disabled) == |t|
  {
    if t != [] {
      FilterCounts(t[1..], disabled);
    }
  }

  /** The places of a table that are kept, in increasing order. */
  function Places(t: seq<Entry>, disabled: seq<string>): (places: seq<nat>)
    ensures forall j :: 0 <= j < |places| ==> places[j] < |t|
  {
    if t == [] then []
    else
      var n := |t| - 1;
      Places(t[..n], disabled) + if Found(disabled, t[n].names) then [] else [n]
  }

  lemma {:induction false} PlacesIncrease(t: seq<Entry>, disabled: seq<string>, j: nat, k: nat)
    requires j < k < |Places(t, disabled)|
    ensures Places(t, disabled)[j] < Places(t, disabled)[k]
  {
    var n := |t| - 1;
    if k < |Places(t[..n], disabled)| {
      PlacesIncrease(t[..n], disabled, j, k);
    }
  }

  /** A place is kept exactly if its entry is not disabled. */
  lemma {:induction false} PlaceKept(t: seq<Entry>, disabled: seq<string>, i: nat)
    requires i < |t|
    ensures i in Places(t, disabled) <==> !Found(disabled, t[i].names)
  {
    var n := |t| - 1;
    if i < n {
      PlaceKept(t[..n], disabled, i);
      assert t[..n][i] == t[i];
    } else {
      assert n !in Places(t[..n], disabled);
    }
  }

  /** The kept entries are the entries at those places. */
  lemma {:induction false} FilterIsSubsequence(t: seq<Entry>, disabled: seq<string>)
    ensures |Places(t, disabled)| == |Filter(t, disabled)|
    ensures forall j :: 0 <= j < |Filter(t, disabled)| ==> Filter(t, disabled)[j] == t[Places(t, disabled)[j]]
  {
    if t != [] {
      var n := |t| - 1;
      assert t == t[..n] + [t[n]];
      FilterIsSubsequence(t[..n], disabled);
      FilterAppend(t[..n], t[n], disabled);
      PlacesStep(t, disabled);
      hide Filter, Places;
    }
  }

  lemma PlacesStep(t: seq<Entry>, disabled: seq<string>)
    requires t != []
    ensures Places(t, disabled) == Places(t[..|t| - 1], disabled) + if Found(disabled, t[|t| - 1].names) then [] else [|t| - 1]
  {
  }

  /** A filtered table ends with its only null entry again, and shows the allowed names of the original. */
  lemma {:induction false} FilterKeepsTerminator(t: seq<Entry>, disabled: seq<string>)
    requires Terminated(t)
    ensures Terminated(Filter(t, disabled)) && Filter(t, disabled)[|Filter(t, disabled)| - 1] == t[|t| - 1]
    ensures Visible(Filter(t, disabled)) == Allowed(Visible(t), disabled)
    ensures |Visible(t)| == |t| - 1
  {
    if |t| == 1 {
      assert Filter(t, disabled) == [t[0]] + Filter([], disabled) == t;
    } else {
      FilterKeepsTerminator(t[1..], disabled);
      var rest := Filter(t[1..], disabled);
      var name := t[0].names.value;
      assert Visible(t) == [name] + Visible(t[1..]);
      if name in disabled {
        assert Filter(t, disabled) == rest;
      } else {
        assert Filter(t, disabled) == [t[0]] + rest && ([t[0]] + rest)[1..] == rest;
        assert Visible([t[0]] + rest) == [name] + Visible(rest);
      }
    }
  }

  lemma {:induction false} AllowedMembers(names: seq<string>, disabled: seq<string>, x: string)
    ensures x in Allowed(names, disabled) <==> x in names && x !in disabled
  {
    if names != [] {
      AllowedMembers(names[1..], disabled, x);
    }
  }

  /** Disabling one more name never lets more through. */
  lemma {:induction false} FilterShrinks(t: seq<Entry>, disabled: seq<string>, name: string)
    ensures |Filter(t, disabled + [name])| <= |Filter(t, disabled)|
  {
    if t != [] {
      FilterShrinks(t[1..], disabled, name);
    }
  }

  predicate Mentions(t: seq<Entry>, name: string) {
    exists i :: 0 <= i < |t| && t[i].names == Some(name)
  }

  lemma MentionsFirst(t: seq<Entry>, name: string)
    requires t != []
    ensures Mentions(t, name) <==> t[0].names == Some(name) || Mentions(t[1..], name)
  {
    assert forall i :: 0 < i < |t| ==> t[i] == t[1..][i - 1];
    assert forall i :: 0 <= i < |t[1..]| ==> t[1..][i] == t[i + 1];
  }

  /** A cached table survives one more disabled name exactly when the name was disabled already or is not in it. */
  lemma {:induction false} CacheStaysFresh(t: seq<Entry>, disabled: seq<string>, name: string)
    ensures Filter(t, disabled + [name]) == Filter(t, disabled) <==> name in disabled || !Mentions(t, name)
  {
    if t != [] {
      CacheStaysFresh(t[1..], disabled, name);
      FilterShrinks(t[1..], disabled, name);
      MentionsFirst(t, name);
      hide Mentions;
      var before, after := Filter(t[1..], disabled), Filter(t[1..], disabled + [name]);
      if Found(disabled, t[0].names) {
        assert Filter(t, disabled) == [] + before == before && Filter(t, disabled + [name]) == [] + after == after;
      } else if t[0].names == Some(name) {
        assert |Filter(t, disabled)| > |Filter(t, disabled + [name])|;
      } else {
        assert Filter(t, disabled) == [t[0]] + before && Filter(t, disabled + [name]) == [t[0]] + after;
        assert ([t[0]] + before)[1..] == before && ([t[0]] + after)[1..] == after;
      }
    }
  }

  // -------------------------------------------------------------- provider

  /** cnt_rt_disabled: the last entry is not looked at. */
  method CntRtDisabled(orig: seq<Entry>, disabled: seq<string>) returns (dcnt: nat)
    ensures dcnt == if orig == [] then 0 else CountFound(orig[..|orig| - 1], disabled)
  {
    dcnt := 0;
    var i := 0;
    while i < |orig| - 1
      invariant 0 <= i <= |orig| && (orig != [] ==> i < |orig|)
      invariant dcnt == CountFound(orig[..i], disabled)
    {
      assert orig[..i + 1] == orig[..i] + [orig[i]];
      FilterAppend(orig[..i], orig[i], disabled);
      if Found(disabled, orig[i].names) {
        dcnt := dcnt + 1;
      }
      i := i + 1;
    }
  }

  /** The filling loop of FILTERED_ALGS: a table of the size the count left is filled to the last place. */
  method Fill(algs: seq<Entry>, disabled: seq<string>, size: nat) returns (filled: array<Entry>)
    requires size == |Filter(algs, disabled)|
    ensures fresh(filled) && filled[..] == Filter(algs, disabled)
  {
    filled := new Entry[size];
    var nCnt := 0;
    for i := 0 to |algs|
      invariant nCnt <= size && filled[..nCnt] == Filter(algs[..i], disabled)
    {
      FilterPrefix(algs, i + 1, disabled);
      assert algs[..i + 1] == algs[..i] + [algs[i]];
      FilterAppend(algs[..i], algs[i], disabled);
      if !Found(disabled, algs[i].names) {
        filled[nCnt] := algs[i];
        nCnt := nCnt + 1;
      }
    }
    assert algs[..|algs|] == algs;
  }

  class Provider {
    const tables: Operation -> seq<Entry>
    var filterEnabled: bool
    var disabled: seq<string>
    var rt: map<Operation, array<Entry>>

    /** Every cached table is the fresh filter of its static table. */
    ghost predicate Valid()
      reads this, rt.Values
    {
      && (forall op: Operation :: Terminated(tables(op)))
      && forall op :: op in rt ==> rt[op][..] == Filter(tables(op), disabled)
    }

    constructor (tables: Operation -> seq<Entry>)
      requires forall op: Operation :: Terminated(tables(op))
      ensures Valid() && this.tables == tables && disabled == [] && !filterEnabled && rt == map[]
    {
      this.tables := tables;
      filterEnabled, disabled, rt := false, [], map[];
    }

    /** The initialisation disables a name, and may turn the filter on, before the first query. */
    method Disable(name: string, enable: bool)
      requires Valid() && rt == map[]
      modifies this
      ensures Valid() && rt == map[] && disabled == old(disabled) + [name] && filterEnabled == (old(filterEnabled) || enable)
    {
      disabled := disabled + [name];
      filterEnabled := filterEnabled || enable;
    }

    /**
     * The registration loop and the disabling of what the core has itself: unless
     * a registration breaks, exactly the refused names and, for a core that has
     * them, the native ones are disabled; only the latter turn the filter on.
     */
    method Initialise(rs: seq<Registration>, native: bool, names: seq<string>) returns (ok: bool)
      requires Valid() && rt == map[]
      modifies this
      ensures Valid() && rt == map[]
      ensures ok <==> forall i :: 0 <= i < |rs| ==> !Breaks(rs[i])
      ensures ok ==> disabled == old(disabled) + RefusedNames(rs) + if native then names else []
      ensures ok ==> forall i :: 0 <= i < |rs| && rs[i].oid && rs[i].created ==> rs[i].inTable && (rs[i].sigid ==> rs[i].nid != 0)
      ensures ok ==> filterEnabled == (old(filterEnabled) || (native && names != []))
    {
      ghost var before := disabled;
      assert before + [] == before && rs[..0] == [];
      for i := 0 to |rs|
        invariant Valid() && rt == map[] && filterEnabled == old(filterEnabled)
        invariant disabled == before + RefusedNames(rs[..i])
        invariant forall j :: 0 <= j < i ==> !Breaks(rs[j])
      {
        assert rs[..i + 1][..i] == rs[..i] && rs[..i + 1][i] == rs[i];
        var r := rs[i];
        if r.oid {
          var idOk := true;
          if !r.created {
            idOk := false;
          } else if !r.inTable {
            return false;
          } else if !r.sigid {
            idOk := false;
          } else if r.nid == 0 {
            return false;
          }
          if !idOk {
            assert before + RefusedNames(rs[..i]) + [r.name] == before + (RefusedNames(rs[..i]) + [r.name]);
            Disable(r.name, false);
          } else {
            assert RefusedNames(rs[..i]) + [] == RefusedNames(rs[..i]);
          }
        } else {
          assert RefusedNames(rs[..i]) + [] == RefusedNames(rs[..i]);
        }
      }
      assert rs[..|rs|] == rs;
      ghost var refused := disabled;
      if native {
        for i := 0 to |names|
          invariant Valid() && rt == map[]
          invariant disabled == refused + names[..i] && filterEnabled == (old(filterEnabled) || i > 0)
        {
          assert names[..i + 1] == names[..i] + [names[i]];
          Disable(names[i], true);
        }
        assert names[..|names|] == names;
      }
      ok := true;
    }

    /** FILTERED_ALGS: fill the table of an operation on the first query, return the cached one afterwards. */
    method Filtered(op: Operation) returns (table: array<Entry>)
      requires Valid() && filterEnabled
      modifies this`rt
      ensures Valid() && op in rt && rt[op] == table && table[..] == Filter(tables(op), disabled)
      ensures old(op in rt) ==> rt == old(rt)
      ensures forall o :: o in old(rt) ==> o in rt && rt[o] == old(rt[o])
    {
      var algs := tables(op);
      var dAlgs := CntRtDisabled(algs, disabled);
      if op !in rt {
        ghost var front := algs[..|algs| - 1];
        assert algs == front + [algs[|algs| - 1]];
        FilterAppend(front, algs[|algs| - 1], disabled);
        FilterCounts(algs, disabled);
        var filled := Fill(algs, disabled, |algs| - dAlgs);
        rt := rt[op := filled];
      }
      table := rt[op];
    }

    /** oqsprovider_query: the static table, or the filtered one; nothing for an unknown operation. */
    method Query(op: Option<Operation>) returns (result: Option<seq<Entry>>, noCache: bool)
      requires Valid()
      modifies this`rt
      ensures Valid() && noCache == filterEnabled
      ensures result == if op.None? then None
                        else Some(if filterEnabled then Filter(tables(op.value), disabled) else tables(op.value))
      ensures !filterEnabled || op.None? ==> rt == old(rt)
    {
      noCache := filterEnabled;
      if op.None? {
        return None, noCache;
      }
      if !filterEnabled {
        return Some(tables(op.value)), noCache;
      }
      var table := Filtered(op.value);
      result := Some(table[..]);
    }

    /** oqsprovider_teardown: the filter stays on if it was. */
    method Teardown()
      requires Valid()
      modifies this
      ensures Valid() && rt == map[] && disabled == [] && filterEnabled == old(filterEnabled)
    {
      rt, disabled := map[], [];
    }
  }

  /** Filtering a prefix gives a prefix of the filtered table. */
  lemma {:induction false} FilterPrefix(t: seq<Entry>, n: nat, disabled: seq<string>)
    requires n <= |t|
    ensures Filter(t[..n], disabled) <= Filter(t, disabled)
    decreases |t| - n
  {
    if n < |t| {
      assert t[..n + 1] == t[..n] + [t[n]];
      FilterAppend(t[..n], t[n], disabled);
      FilterPrefix(t, n + 1, disabled);
    } else {
      assert t[..n] == t;
    }
  }

  // ---------------------------------------------------------- capabilities

  /** The callback that receives capabilities: it may refuse at any time, for any reason it remembers. */
  class Receiver {
    const accepts: (seq<string>, string) -> bool
    var seen: seq<string>

    constructor (accepts: (seq<string>, string) -> bool)
      ensures seen == [] && this.accepts == accepts
    {
      this.accepts := accepts;
      seen := [];
    }

    method Take(name: string) returns (ok: bool)
      modifies this
      ensures seen == old(seen) + [name] && ok == accepts(old(seen), name)
    {
      ok := accepts(seen, name);
      seen := seen + [name];
    }
  }

  /** The receiver took every one of the names it was given. */
  ghost predicate AllTaken(accepts: (seq<string>, string) -> bool, given: seq<string>) {
    forall i :: 0 <= i < |given| ==> accepts(given[..i], given[i])
  }

  /** One more allowed name taken. */
  lemma TakenAppend(accepts: (seq<string>, string) -> bool, given: seq<string>, name: string)
    ensures AllTaken(accepts, given + [name]) <==> AllTaken(accepts, given) && accepts(given, name)
  {
    var more := given + [name];
    assert more[..|given|] == given && more[|given|] == name;
    forall i | 0 <= i < |given| ensures more[..i] == given[..i] && more[i] == given[i] {
    }
    if AllTaken(accepts, more) {
      forall i | 0 <= i < |given| ensures accepts(given[..i], given[i]) {
        assert more[..i] == given[..i] && more[i] == given[i];
      }
    }
  }

  /** After a refusal the names were not all taken, whatever follows. */
  lemma RefusalIsFinal(accepts: (seq<string>, string) -> bool, all: seq<string>, seen: seq<string>)
    requires 0 < |seen| && seen <= all && !accepts(seen[..|seen| - 1], seen[|seen| - 1])
    ensures !AllTaken(accepts, all)
  {
    var n := |seen| - 1;
    assert all[..n] == seen[..n] && all[n] == seen[n];
  }

  lemma {:induction false} AllowedAppend(names: seq<string>, name: string, disabled: seq<string>)
    ensures Allowed(names + [name], disabled) == Allowed(names, disabled) + if name in disabled then [] else [name]
  {
    if names == [] {
      assert names + [name] == [name];
    } else {
      assert (names + [name])[0] == names[0] && (names + [name])[1..] == names[1..] + [name];
      AllowedAppend(names[1..], name, disabled);
    }
  }

  lemma {:induction false} AllowedPrefix(names: seq<string>, n: nat, disabled: seq<string>)
    requires n <= |names|
    ensures Allowed(names[..n], disabled) <= Allowed(names, disabled)
    decreases |names| - n
  {
    if n < |names| {
      assert names[..n + 1] == names[..n] + [names[n]];
      AllowedAppend(names[..n], names[n], disabled);
      AllowedPrefix(names, n + 1, disabled);
    } else {
      assert names[..n] == names;
    }
  }

  /**
   * oqs_group_capability and oqs_sigalg_capability: the allowed entries of the
   * list in order, up to and including the first refusal.
   */
  method Advertise(list: seq<string>, disabled: seq<string>, cb: Receiver) returns (ok: bool)
    requires cb.seen == []
    modifies cb
    ensures ok <==> AllTaken(cb.accepts, Allowed(list, disabled))
    ensures ok ==> cb.seen == Allowed(list, disabled)
    ensures !ok ==> (
      && 0 < |cb.seen| && cb.seen <= Allowed(list, disabled)
      && AllTaken(cb.accepts, cb.seen[..|cb.seen| - 1])
      && !cb.accepts(cb.seen[..|cb.seen| - 1], cb.seen[|cb.seen| - 1]))
  {
    assert list[..0] == [] && Allowed([], disabled) == [];
    hide Allowed;
    for i := 0 to |list|
      invariant cb.seen == Allowed(list[..i], disabled)
      invariant AllTaken(cb.accepts, cb.seen)
    {
      assert list[..i + 1] == list[..i] + [list[i]];
      AllowedAppend(list[..i], list[i], disabled);
      if list[i] !in disabled {
        ghost var before := cb.seen;
        TakenAppend(cb.accepts, before, list[i]);
        var taken := cb.Take(list[i]);
        if !taken {
          AllowedPrefix(list, i + 1, disabled);
          assert cb.seen[..|cb.seen| - 1] == before;
          RefusalIsFinal(cb.accepts, Allowed(list, disabled), cb.seen);
          return false;
        }
      }
    }
    assert list[..|list|] == list;
    return true;
  }

  function Names(s: seq<string>): set<string> {
    set x | x in s
  }

  /** What a query shows to a caller. */
  function Offered(t: seq<Entry>, disabled: seq<string>, filterEnabled: bool): seq<string> {
    Visible(if filterEnabled then Filter(t, disabled) else t)
  }

  /**
   * With matching name tables, what TLS is told is always among what is offered;
   * the two agree exactly when the filter is on or no offered name is disabled.
   */
  lemma AdvertisedVersusOffered(list: seq<string>, t: seq<Entry>, disabled: seq<string>, filterEnabled: bool)
    requires Terminated(t)
    ensures Names(list) <= Names(Visible(t)) ==> Names(Allowed(list, disabled)) <= Names(Offered(t, disabled, filterEnabled))
    ensures Names(list) == Names(Visible(t)) ==>
      (Names(Allowed(list, disabled)) == Names(Offered(t, disabled, filterEnabled)) <==>
       filterEnabled || Names(Visible(t)) !! Names(disabled))
  {
    FilterKeepsTerminator(t, disabled);
    forall x: string ensures x in Allowed(list, disabled) <==> x in list && x !in disabled {
      AllowedMembers(list, disabled, x);
    }
    forall x: string ensures x in Allowed(Visible(t), disabled) <==> x in Visible(t) && x !in disabled {
      AllowedMembers(Visible(t), disabled, x);
    }
    hide Filter, Visible, Allowed;
    if Names(list) == Names(Visible(t)) && !filterEnabled {
      if x :| x in Visible(t) && x in disabled {
        assert x in Names(Visible(t)) && x in Names(disabled);
        assert x !in Names(Allowed(list, disabled));
      } else {
        forall x | x in Visible(t) ensures x in Allowed(list, disabled) {
          assert x in Names(Visible(t));
        }
        assert forall x :: x in list ==> x in Names(list);
      }
    }
    if Names(list) == Names(Visible(t)) {
      assert forall x :: x in list <==> x in Names(list);
      assert forall x :: x in Visible(t) <==> x in Names(Visible(t));
    }
    if Names(list) <= Names(Visible(t)) {
      assert forall x :: x in list ==> x in Names(list);
    }
  }
}
