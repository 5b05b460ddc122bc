/**
 * The NID table: rows named when the program is built, whose NIDs are filled in
 * when the provider is loaded, and five linear lookups by NID.
 */
module NidTable {
  import opened Bytes
  import opened Primitives

  /** oqs_nid_name_t */
  datatype Row = Row(nid: int, tlsname: string, oqsname: string, keytype: KeyType, secbits: int, reverseshare: bool)

  /** One call of oqs_set_nid. */
  datatype Registration = Registration(tlsname: string, nid: int)

  // ---------------------------------------------------------- specification

  predicate DistinctNames(t: seq<Row>) {
    forall i, j :: 0 <= i < j < |t| ==> t[i].tlsname != t[j].tlsname
  }

  /** As built: distinct names, no NIDs. */
  predicate Fresh(t: seq<Row>) {
    DistinctNames(t) && forall i :: 0 <= i < |t| ==> t[i].nid == 0
  }

  /** oqs_set_nid: the first row of the name gets the NID. */
  function Set(t: seq<Row>, r: Registration): seq<Row> {
    if t == [] then []
    else if t[0].tlsname == r.tlsname then [t[0].(nid := r.nid)] + t[1..]
    else [t[0]] + Set(t[1..], r)
  }

  function Registered(t: seq<Row>, rs: seq<Registration>): seq<Row> {
    if rs == [] then t else Set(Registered(t, rs[..|rs| - 1]), rs[|rs| - 1])
  }

  /** The first row with a NID, if there is one. */
  function First(t: seq<Row>, nid: int): Option<nat> {
    if t == [] then None
    else if t[0].nid == nid then Some(0)
    else match First(t[1..], nid)
         case None => None
         case Some(i) => Some(i + 1)
  }

  /** The NID a sequence of registrations leaves a name with: the one given last. */
  function Assigned(rs: seq<Registration>, name: string): int {
    if rs == [] then 0
    else if rs[|rs| - 1].tlsname == name then rs[|rs| - 1].nid
    else Assigned(rs[..|rs| - 1], name)
  }

  /** Registrations that give each name one NID of its own. */
  predicate OneToOne(rs: seq<Registration>) {
    && (forall i :: 0 <= i < |rs| ==> rs[i].nid != 0)
    && (forall i, j :: 0 <= i < |rs| && 0 <= j < |rs| ==> (rs[i].nid == rs[j].nid <==> rs[i].tlsname == rs[j].tlsname))
  }

  // ---------------------------------------------------------------- lemmas

  lemma {:induction false} FirstIsLeast(t: seq<Row>, nid: int)
    ensures match First(t, nid)
      case None => forall i :: 0 <= i < |t| ==> t[i].nid != nid
      case Some(k) => k < |t| && t[k].nid == nid && forall i :: 0 <= i < k ==> t[i].nid != nid
  {
    if t != [] && t[0].nid != nid {
      FirstIsLeast(t[1..], nid);
      assert forall i :: 0 < i < |t| ==> t[i] == t[1..][i - 1];
    }
  }

  /** With distinct names, setting a NID changes the row of that name and no other. */
  lemma {:induction false} SetByName(t: seq<Row>, r: Registration)
    requires DistinctNames(t)
    ensures |Set(t, r)| == |t|
    ensures forall i :: 0 <= i < |t| ==> Set(t, r)[i] == if t[i].tlsname == r.tlsname then t[i].(nid := r.nid) else t[i]
  {
    if t != [] && t[0].tlsname != r.tlsname {
      assert forall i, j :: 0 <= i < j < |t[1..]| ==> t[1..][i] == t[i + 1] && t[1..][j] == t[j + 1];
      SetByName(t[1..], r);
    }
  }

  /** After any registrations every row carries the NID last given to its name; nothing else changes. */
  lemma {:induction false} RegisteredByName(t: seq<Row>, rs: seq<Registration>)
    requires Fresh(t)
    ensures |Registered(t, rs)| == |t|
    ensures forall i :: 0 <= i < |t| ==> Registered(t, rs)[i] == t[i].(nid := Assigned(rs, t[i].tlsname))
  {
    if rs != [] {
      RegisteredByName(t, rs[..|rs| - 1]);
      SetByName(Registered(t, rs[..|rs| - 1]), rs[|rs| - 1]);
    }
  }

  lemma {:induction false} AssignedWas(rs: seq<Registration>, name: string) returns (i: nat)
    requires Assigned(rs, name) != 0
    ensures i < |rs| && rs[i] == Registration(name, Assigned(rs, name))
  {
    i := |rs| - 1;
    if rs[i].tlsname != name {
      i := AssignedWas(rs[..i], name);
    }
  }

  lemma {:induction false} LaterAssigned(rs: seq<Registration>, i: nat)
    requires i < |rs| && OneToOne(rs)
    ensures Assigned(rs, rs[i].tlsname) == rs[i].nid
    decreases |rs|
  {
    var n := |rs| - 1;
    if i < n && rs[n].tlsname != rs[i].tlsname {
      assert OneToOne(rs[..n]) by {
        assert forall j :: 0 <= j < n ==> rs[..n][j] == rs[j];
      }
      LaterAssigned(rs[..n], i);
    }
  }

  /** A lookup by the NID of a row finds that row exactly when no earlier row carries the same NID. */
  lemma LookupFinds(t: seq<Row>, i: nat)
    requires i < |t|
    ensures First(t, t[i].nid) == Some(i) <==> forall j :: 0 <= j < i ==> t[j].nid != t[i].nid
  {
    FirstIsLeast(t, t[i].nid);
  }

  /**
   * The table refines a map from NIDs to rows: after registrations that give
   * names one NID each, a registered NID finds the row of its name, and a NID
   * other than zero that was given to no name in the table finds none.
   */
  lemma TableIsMap(t: seq<Row>, rs: seq<Registration>, nid: int)
    requires Fresh(t) && OneToOne(rs) && nid != 0
    ensures |Registered(t, rs)| == |t|
    ensures forall i, k :: 0 <= i < |t| && 0 <= k < |rs| && rs[k] == Registration(t[i].tlsname, nid) ==>
      First(Registered(t, rs), nid) == Some(i) && Registered(t, rs)[i] == t[i].(nid := nid)
    ensures First(Registered(t, rs), nid).None? <==>
      !exists i, k :: 0 <= i < |t| && 0 <= k < |rs| && rs[k] == Registration(t[i].tlsname, nid)
  {
    var u := Registered(t, rs);
    RegisteredByName(t, rs);
    FirstIsLeast(u, nid);
    forall i, k | 0 <= i < |t| && 0 <= k < |rs| && rs[k] == Registration(t[i].tlsname, nid)
      ensures First(u, nid) == Some(i) && u[i] == t[i].(nid := nid)
    {
      LaterAssigned(rs, k);
      var f := First(u, nid).value;
      var m := AssignedWas(rs, t[f].tlsname);
      assert rs[m].nid == rs[k].nid;
      assert t[f].tlsname == t[i].tlsname;
    }
    if First(u, nid).Some? {
      var f := First(u, nid).value;
      var m := AssignedWas(rs, t[f].tlsname);
      assert rs[m] == Registration(t[f].tlsname, nid);
    }
  }

  // ------------------------------------------------------------------ code

  class Table {
    const rows: array<Row>

    constructor (rows: array<Row>)
      ensures this.rows == rows
    {
      this.rows := rows;
    }

    method SetNid(tlsname: string, nid: int) returns (ok: bool)
      modifies rows
      ensures rows[..] == Set(old(rows[..]), Registration(tlsname, nid))
      ensures ok <==> exists i :: 0 <= i < rows.Length && rows[i].tlsname == tlsname
    {
      ghost var before := rows[..];
      ghost var r := Registration(tlsname, nid);
      assert before[0..] == before;
      for i := 0 to rows.Length
        invariant rows[..] == before
        invariant Set(before, r) == before[..i] + Set(before[i..], r)
        invariant forall j :: 0 <= j < i ==> rows[j].tlsname != tlsname
      {
        assert before[i..][1..] == before[i + 1..] && before[i..][0] == before[i];
        if rows[i].tlsname == tlsname {
          rows[i] := rows[i].(nid := nid);
          assert rows[..] == before[..i] + ([before[i].(nid := nid)] + before[i + 1..]);
          return true;
        }
        assert before[..i + 1] == before[..i] + [before[i]];
        assert before[..i] + ([before[i]] + Set(before[i + 1..], r)) == before[..i] + [before[i]] + Set(before[i + 1..], r);
      }
      assert before[..rows.Length] == before && before[rows.Length..] == [];
      assert before + [] == before;
      return false;
    }

    method GetSecbits(nid: int) returns (secbits: int)
      ensures var f := First(rows[..], nid); f.Some? ==> f.value < rows.Length
      ensures var f := First(rows[..], nid); secbits == if f.Some? then rows[f.value].secbits else 0
    {
      FirstIsLeast(rows[..], nid);
      for i := 0 to rows.Length
        invariant forall j :: 0 <= j < i ==> rows[j].nid != nid
      {
        if rows[i].nid == nid {
          return rows[i].secbits;
        }
      }
      return 0;
    }

    method GetReverseshare(nid: int) returns (reverse: bool)
      ensures var f := First(rows[..], nid); f.Some? ==> f.value < rows.Length
      ensures var f := First(rows[..], nid); reverse == (f.Some? && rows[f.value].reverseshare)
    {
      FirstIsLeast(rows[..], nid);
      for i := 0 to rows.Length
        invariant forall j :: 0 <= j < i ==> rows[j].nid != nid
      {
        if rows[i].nid == nid {
          return rows[i].reverseshare;
        }
      }
      return false;
    }

    /** Not found reads as the enumerator zero, a plain signature. */
    method GetKeytype(nid: int) returns (keytype: KeyType)
      ensures var f := First(rows[..], nid); f.Some? ==> f.value < rows.Length
      ensures var f := First(rows[..], nid); keytype == if f.Some? then rows[f.value].keytype else Sig
    {
      FirstIsLeast(rows[..], nid);
      for i := 0 to rows.Length
        invariant forall j :: 0 <= j < i ==> rows[j].nid != nid
      {
        if rows[i].nid == nid {
          return rows[i].keytype;
        }
      }
      return Sig;
    }

    method GetOqsname(nid: int) returns (name: Option<string>)
      ensures var f := First(rows[..], nid); f.Some? ==> f.value < rows.Length
      ensures var f := First(rows[..], nid); name == if f.Some? then Some(rows[f.value].oqsname) else None
    {
      FirstIsLeast(rows[..], nid);
      for i := 0 to rows.Length
        invariant forall j :: 0 <= j < i ==> rows[j].nid != nid
      {
        if rows[i].nid == nid {
          return Some(rows[i].oqsname);
        }
      }
      return None;
    }

    method GetOqsalgIdx(nid: int) returns (idx: int)
      ensures var f := First(rows[..], nid); idx == if f.Some? then f.value else -1
    {
      FirstIsLeast(rows[..], nid);
      for i := 0 to rows.Length
        invariant forall j :: 0 <= j < i ==> rows[j].nid != nid
      {
        if rows[i].nid == nid {
          return i;
        }
      }
      return -1;
    }
  }

  /** What oqsx_key_new_from_nid hands to the constructor of a key. */
  datatype KeyRecipe = KeyRecipe(oqsname: Option<string>, tlsname: string, keytype: KeyType, secbits: int, idx: int, reverse: bool)

  /**
   * oqsx_key_new_from_nid on a loaded table: a registered NID rebuilds the type,
   * the order and the algorithm of the one row that carries its name.
   */
  method NewFromNid(table: Table, nid: int, name: Option<string>, ghost built: seq<Row>, ghost rs: seq<Registration>)
    returns (recipe: Option<KeyRecipe>)
    requires Fresh(built) && OneToOne(rs) && table.rows[..] == Registered(built, rs)
    ensures recipe.None? <==> name.None?
    ensures forall i, k :: 0 <= i < |built| && 0 <= k < |rs| && rs[k] == Registration(built[i].tlsname, nid) && name.Some? ==>
      recipe == Some(KeyRecipe(Some(built[i].oqsname), name.value, built[i].keytype, built[i].secbits, i, built[i].reverseshare))
  {
    if name.None? {
      return None;
    }
    var oqsname := table.GetOqsname(nid);
    var keytype := table.GetKeytype(nid);
    var secbits := table.GetSecbits(nid);
    var idx := table.GetOqsalgIdx(nid);
    var reverse := table.GetReverseshare(nid);
    if nid != 0 {
      TableIsMap(built, rs, nid);
    }
    RegisteredByName(built, rs);
    return Some(KeyRecipe(oqsname, name.value, keytype, secbits, idx, reverse));
  }
}
