/**
 * validate_iana_code_points: the TLS code points without an IANA assignment must
 * be distinct and lie in the private-use range of section 4.2.7 of RFC 8446.
 */
module CodePoints {
  import opened Bytes

  datatype Hybrid = Hybrid(iana: bool, nid: int)

  datatype Kem = Kem(iana: bool, nid: int, hybrids: seq<Hybrid>)

  /**
   * How a validation ends: normally with the unused points, with a message and an
   * exit that names a code point and suggests a free one, or with the exception
   * of taking the least of no points.
   */
  datatype Outcome =
    | Passed(inUse: seq<int>)
    | NotPrivate(nid: int, suggested: int)
    | AlreadyInUse(nid: int, suggested: int)
    | NothingToSuggest(nid: int)

  const FIRST := 65024
  const COUNT := 256

  predicate Private(nid: int) {
    FIRST <= nid < FIRST + COUNT
  }

  // ---------------------------------------------------------- specification

  function CheckedHybrids(hybrids: seq<Hybrid>): seq<int> {
    if hybrids == [] then []
    else (if hybrids[0].iana then [] else [hybrids[0].nid]) + CheckedHybrids(hybrids[1..])
  }

  /** The code points of one KEM: its hybrids are looked at only if it is itself without an assignment. */
  function CheckedOf(kem: Kem): seq<int> {
    if kem.iana then [] else [kem.nid] + CheckedHybrids(kem.hybrids)
  }

  /** The code points that are looked at, in order. */
  function Checked(kems: seq<Kem>): seq<int> {
    if kems == [] then [] else CheckedOf(kems[0]) + Checked(kems[1..])
  }

  predicate Good(nids: seq<int>) {
    && (forall i :: 0 <= i < |nids| ==> Private(nids[i]))
    && (forall i, j :: 0 <= i < j < |nids| ==> nids[i] != nids[j])
  }

  /** The points from lo up to the end of the range that are not in use. */
  function Free(lo: int, used: seq<int>): seq<int>
    requires lo <= FIRST + COUNT
    decreases FIRST + COUNT - lo
  {
    if lo == FIRST + COUNT then []
    else if lo in used then Free(lo + 1, used)
    else [lo] + Free(lo + 1, used)
  }

  predicate Least(s: seq<int>, m: int) {
    m in s && forall x :: x in s ==> m <= x
  }

  /** The validation fails at the i-th point looked at. */
  ghost predicate FailsAt(nids: seq<int>, i: nat, out: Outcome) {
    && i < |nids| && Good(nids[..i])
    && var free := Free(FIRST, nids[..i]);
    match out
    case Passed(_) => false
    case NotPrivate(nid, m) => nid == nids[i] && !Private(nid) && Least(free, m)
    case AlreadyInUse(nid, m) => nid == nids[i] && Private(nid) && nid in nids[..i] && Least(free, m)
    case NothingToSuggest(nid) => nid == nids[i] && i == COUNT
  }

  // ---------------------------------------------------------------- lemmas

  lemma {:induction false} FreeMembers(lo: int, used: seq<int>, x: int)
    requires lo <= FIRST + COUNT
    ensures x in Free(lo, used) <==> lo <= x < FIRST + COUNT && x !in used
    decreases FIRST + COUNT - lo
  {
    if lo < FIRST + COUNT {
      FreeMembers(lo + 1, used, x);
    }
  }

  /** Which points are looked at: those of KEMs without an assignment, and of such hybrids of theirs. */
  lemma {:induction false} CheckedMembers(kems: seq<Kem>, x: int)
    ensures x in Checked(kems) <==>
      exists i :: 0 <= i < |kems| && !kems[i].iana && (x == kems[i].nid || Hybrid(false, x) in kems[i].hybrids)
  {
    hide CheckedHybrids;
    if kems != [] {
      CheckedMembers(kems[1..], x);
      CheckedHybridsMembers(kems[0].hybrids, x);
      assert forall i :: 0 < i < |kems| ==> kems[i] == kems[1..][i - 1];
      assert forall i :: 0 <= i < |kems[1..]| ==> kems[1..][i] == kems[i + 1];
      if x in CheckedOf(kems[0]) {
        assert !kems[0].iana;
      }
    }
  }

  lemma {:induction false} CheckedHybridsMembers(hybrids: seq<Hybrid>, x: int)
    ensures x in CheckedHybrids(hybrids) <==> Hybrid(false, x) in hybrids
  {
    if hybrids != [] {
      CheckedHybridsMembers(hybrids[1..], x);
    }
  }

  /** The order in which they are looked at, on one KEM: its own point first, then its hybrids as listed. */
  lemma CheckedInOrder(n: int, h: int, k: int, m: int)
    ensures Checked([Kem(false, n, [Hybrid(false, h), Hybrid(true, 0), Hybrid(false, k)]), Kem(true, 0, [Hybrid(false, 1)]), Kem(false, m, [])])
      == [n, h, k, m]
  {
    assert CheckedHybrids([]) == [] && CheckedHybrids([Hybrid(false, k)]) == [k];
    assert CheckedHybrids([Hybrid(true, 0), Hybrid(false, k)]) == [k];
    assert CheckedHybrids([Hybrid(false, h), Hybrid(true, 0), Hybrid(false, k)]) == [h, k];
    var last := Kem(false, m, []);
    assert Checked([]) == [] && Checked([last]) == [m];
    assert Checked([Kem(true, 0, [Hybrid(false, 1)]), last]) == [m];
  }

  /**
   * What a message says: a point outside 65024 to 65279 or one that was met
   * before, and the least point of that range that was not.
   */
  lemma SuggestionIsLeastUnused(nids: seq<int>, i: nat, out: Outcome)
    requires FailsAt(nids, i, out) && !out.NothingToSuggest?
    ensures out.nid == nids[i] && (out.NotPrivate? <==> !(65024 <= nids[i] <= 65279)) && (out.AlreadyInUse? ==> nids[i] in nids[..i])
    ensures 65024 <= out.suggested <= 65279 && out.suggested !in nids[..i]
    ensures forall x :: 65024 <= x < out.suggested ==> x in nids[..i]
  {
    FreeMembers(FIRST, nids[..i], out.suggested);
    forall x | 65024 <= x < out.suggested ensures x in nids[..i] {
      FreeMembers(FIRST, nids[..i], x);
    }
  }

  lemma FreeStep(lo: int, used: seq<int>)
    requires lo < FIRST + COUNT
    ensures Free(lo, used) == if lo in used then Free(lo + 1, used) else [lo] + Free(lo + 1, used)
  {
  }

  /** list.remove: drop the first occurrence. */
  function RemoveFirst(s: seq<int>, x: int): seq<int> {
    if s == [] then [] else if s[0] == x then s[1..] else [s[0]] + RemoveFirst(s[1..], x)
  }

  lemma InAppended(used: seq<int>, x: int, y: int)
    ensures y in used + [x] <==> y in used || y == x
  {
  }

  /** Marking a point that is not in a list of free points changes nothing. */
  lemma {:induction false} MarkingAnother(lo: int, used: seq<int>, x: int)
    requires lo <= FIRST + COUNT && x !in Free(lo, used)
    ensures Free(lo, used + [x]) == Free(lo, used)
    decreases FIRST + COUNT - lo
  {
    if lo < FIRST + COUNT {
      hide Free;
      FreeStep(lo, used);
      FreeStep(lo, used + [x]);
      FreeMembers(lo, used, x);
      assert x !in Free(lo + 1, used) by {
        FreeMembers(lo + 1, used, x);
      }
      MarkingAnother(lo + 1, used, x);
      InAppended(used, x, lo);
    }
  }

  lemma RemoveStep(x: int, rest: seq<int>, y: int)
    ensures RemoveFirst([x] + rest, y) == if x == y then rest else [x] + RemoveFirst(rest, y)
  {
    assert ([x] + rest)[0] == x && ([x] + rest)[1..] == rest;
  }

  /** Removing a free point is the same as marking it used. */
  lemma {:induction false} RemoveMarksUsed(lo: int, used: seq<int>, x: int)
    requires lo <= FIRST + COUNT && x in Free(lo, used)
    ensures RemoveFirst(Free(lo, used), x) == Free(lo, used + [x])
    ensures |Free(lo, used + [x])| == |Free(lo, used)| - 1
    decreases FIRST + COUNT - lo
  {
    hide Free, RemoveFirst;
    FreeMembers(lo, used, x);
    FreeMembers(lo + 1, used, x);
    FreeStep(lo, used);
    FreeStep(lo, used + [x]);
    RemoveStep(lo, Free(lo + 1, used), x);
    assert lo in used + [x] <==> lo in used || lo == x;
    if lo == x {
      MarkingAnother(lo + 1, used, x);
    } else {
      RemoveMarksUsed(lo + 1, used, x);
    }
  }

  /** list(range(65024, 65280)) */
  function Reserved(): seq<int> {
    seq(COUNT, i => FIRST + i)
  }

  lemma {:induction false} ReservedIsFree(lo: int)
    requires FIRST <= lo <= FIRST + COUNT
    ensures Free(lo, []) == Reserved()[lo - FIRST..]
    decreases FIRST + COUNT - lo
  {
    if lo < FIRST + COUNT {
      ReservedIsFree(lo + 1);
      assert Reserved()[lo - FIRST..] == [lo] + Reserved()[lo + 1 - FIRST..];
    }
  }

  lemma NothingUsed()
    ensures Checked([]) == [] && Good([]) && Reserved() == Free(FIRST, [])
  {
    ReservedIsFree(FIRST);
    assert Reserved()[0..] == Reserved();
  }

  lemma {:induction false} AllFree(lo: int)
    requires lo <= FIRST + COUNT
    ensures |Free(lo, [])| == FIRST + COUNT - lo
    decreases FIRST + COUNT - lo
  {
    if lo < FIRST + COUNT {
      AllFree(lo + 1);
    }
  }

  /** Used and free points add up to the range, so at most 256 points can be good. */
  lemma {:induction false} FreeCounts(used: seq<int>)
    requires Good(used)
    ensures |Free(FIRST, used)| == COUNT - |used|
  {
    if used == [] {
      AllFree(FIRST);
    } else {
      var n := |used| - 1;
      assert used == used[..n] + [used[n]];
      FreeCounts(used[..n]);
      FreeMembers(FIRST, used[..n], used[n]);
      RemoveMarksUsed(FIRST, used[..n], used[n]);
    }
  }

  lemma {:induction false} CheckedHybridsAppend(hybrids: seq<Hybrid>, h: Hybrid)
    ensures CheckedHybrids(hybrids + [h]) == CheckedHybrids(hybrids) + if h.iana then [] else [h.nid]
  {
    if hybrids == [] {
      assert hybrids + [h] == [h];
    } else {
      assert (hybrids + [h])[0] == hybrids[0] && (hybrids + [h])[1..] == hybrids[1..] + [h];
      CheckedHybridsAppend(hybrids[1..], h);
    }
  }

  lemma {:induction false} CheckedAppend(kems: seq<Kem>, k: Kem)
    ensures Checked(kems + [k]) == Checked(kems) + CheckedOf(k)
  {
    if kems == [] {
      assert kems + [k] == [k];
      assert Checked([k]) == CheckedOf(k) + Checked([]);
    } else {
      assert (kems + [k])[0] == kems[0] && (kems + [k])[1..] == kems[1..] + [k];
      CheckedAppend(kems[1..], k);
      assert CheckedOf(kems[0]) + (Checked(kems[1..]) + CheckedOf(k)) == CheckedOf(kems[0]) + Checked(kems[1..]) + CheckedOf(k);
    }
  }

  lemma {:induction false} CheckedHybridsPrefix(hybrids: seq<Hybrid>, n: nat)
    requires n <= |hybrids|
    ensures CheckedHybrids(hybrids[..n]) <= CheckedHybrids(hybrids)
    decreases |hybrids| - n
  {
    if n < |hybrids| {
      assert hybrids[..n + 1] == hybrids[..n] + [hybrids[n]];
      CheckedHybridsAppend(hybrids[..n], hybrids[n]);
      CheckedHybridsPrefix(hybrids, n + 1);
    } else {
      assert hybrids[..n] == hybrids;
    }
  }

  lemma {:induction false} CheckedPrefix(kems: seq<Kem>, n: nat)
    requires n <= |kems|
    ensures Checked(kems[..n]) <= Checked(kems)
    decreases |kems| - n
  {
    if n < |kems| {
      assert kems[..n + 1] == kems[..n] + [kems[n]];
      CheckedAppend(kems[..n], kems[n]);
      CheckedPrefix(kems, n + 1);
    } else {
      assert kems[..n] == kems;
    }
  }

  // ------------------------------------------------------------------ code

  /** min: the least of a list, or the exception for an empty one. */
  method Min(s: seq<int>) returns (m: Option<int>)
    ensures m.None? <==> s == []
    ensures m.Some? ==> Least(s, m.value)
  {
    if s == [] {
      return None;
    }
    var least := s[0];
    for i := 1 to |s|
      invariant Least(s[..i], least)
    {
      if s[i] < least {
        least := s[i];
      }
      assert s[..i + 1] == s[..i] + [s[i]];
    }
    assert s[..|s|] == s;
    return Some(least);
  }

  /** The failing branches: the message suggests the least point in the list. */
  method Fail(inUse: seq<int>, nid: int, range: bool) returns (out: Outcome)
    ensures out.NothingToSuggest? <==> inUse == []
    ensures out.NothingToSuggest? ==> out.nid == nid
    ensures inUse != [] ==> (if range then out.NotPrivate? else out.AlreadyInUse?) && out.nid == nid && Least(inUse, out.suggested)
  {
    var m := Min(inUse);
    match m {
      case None => return NothingToSuggest(nid);
      case Some(x) => return if range then NotPrivate(nid, x) else AlreadyInUse(nid, x);
    }
  }

  /** The inner function validate, with the points validated before. */
  method ValidateOne(inUse: seq<int>, nid: int, ghost used: seq<int>) returns (rest: seq<int>, failure: Option<Outcome>)
    requires Good(used) && inUse == Free(FIRST, used)
    ensures failure.None? ==> Good(used + [nid]) && rest == Free(FIRST, used + [nid])
    ensures failure.Some? ==> FailsAt(used + [nid], |used|, failure.value)
  {
    FreeMembers(FIRST, used, nid);
    FreeCounts(used);
    hide Free;
    assert (used + [nid])[..|used|] == used;
    if Private(nid) && nid in inUse {
      RemoveMarksUsed(FIRST, used, nid);
      return RemoveFirst(inUse, nid), None;
    } else if !Private(nid) {
      var out := Fail(inUse, nid, true);
      return inUse, Some(out);
    } else {
      var out := Fail(inUse, nid, false);
      return inUse, Some(out);
    }
  }

  /** A failure stays the same however many more points would have followed. */
  lemma FailureOfPrefix(nids: seq<int>, all: seq<int>, i: nat, out: Outcome)
    requires nids <= all && FailsAt(nids, i, out)
    ensures FailsAt(all, i, out)
  {
    assert all[..i] == nids[..i];
  }

  /** A failure rules out that all points are good. */
  lemma FailureIsReal(nids: seq<int>, i: nat, out: Outcome)
    requires FailsAt(nids, i, out)
    ensures !Good(nids)
  {
    match out
    case NotPrivate(_, _) => assert !Private(nids[i]);
    case AlreadyInUse(_, _) =>
      var j :| 0 <= j < i && nids[..i][j] == nids[i];
      assert nids[j] == nids[i];
    case NothingToSuggest(_) => TooMany(nids);
  }

  /** The hybrids of one KEM. */
  method ValidateHybrids(inUse: seq<int>, hybrids: seq<Hybrid>, ghost used: seq<int>)
    returns (rest: seq<int>, failure: Option<Outcome>, ghost at: nat)
    requires Good(used) && inUse == Free(FIRST, used)
    ensures failure.None? ==> Good(used + CheckedHybrids(hybrids)) && rest == Free(FIRST, used + CheckedHybrids(hybrids))
    ensures failure.Some? ==> FailsAt(used + CheckedHybrids(hybrids), at, failure.value)
  {
    hide FailsAt, Good, Free;
    rest, at := inUse, 0;
    assert used + CheckedHybrids(hybrids[..0]) == used;
    for j := 0 to |hybrids|
      invariant Good(used + CheckedHybrids(hybrids[..j]))
      invariant rest == Free(FIRST, used + CheckedHybrids(hybrids[..j]))
    {
      ghost var now := used + CheckedHybrids(hybrids[..j]);
      assert hybrids[..j + 1] == hybrids[..j] + [hybrids[j]];
      CheckedHybridsAppend(hybrids[..j], hybrids[j]);
      if !hybrids[j].iana {
        assert used + CheckedHybrids(hybrids[..j + 1]) == now + [hybrids[j].nid];
        rest, failure := ValidateOne(rest, hybrids[j].nid, now);
        if failure.Some? {
          CheckedHybridsPrefix(hybrids, j + 1);
          FailureOfPrefix(now + [hybrids[j].nid], used + CheckedHybrids(hybrids), |now|, failure.value);
          return rest, failure, |now|;
        }
      } else {
        assert CheckedHybrids(hybrids[..j + 1]) == CheckedHybrids(hybrids[..j]);
      }
    }
    assert hybrids[..|hybrids|] == hybrids;
    return rest, None, 0;
  }

  /** One KEM and, unless it has an assignment, its hybrids. */
  method ValidateKem(inUse: seq<int>, kem: Kem, ghost used: seq<int>)
    returns (rest: seq<int>, failure: Option<Outcome>, ghost at: nat)
    requires Good(used) && inUse == Free(FIRST, used)
    ensures failure.None? ==> Good(used + CheckedOf(kem)) && rest == Free(FIRST, used + CheckedOf(kem))
    ensures failure.Some? ==> FailsAt(used + CheckedOf(kem), at, failure.value)
  {
    hide FailsAt, Good, Free;
    ghost var all := used + CheckedOf(kem);
    if kem.iana {
      assert all == used;
      return inUse, None, 0;
    }
    assert all == used + [kem.nid] + CheckedHybrids(kem.hybrids);
    rest, failure := ValidateOne(inUse, kem.nid, used);
    if failure.Some? {
      FailureOfPrefix(used + [kem.nid], all, |used|, failure.value);
      return rest, failure, |used|;
    }
    rest, failure, at := ValidateHybrids(rest, kem.hybrids, used + [kem.nid]);
  }

  /**
   * validate_iana_code_points returns normally exactly when all points looked at
   * are private and distinct, and then leaves the range minus the used ones;
   * otherwise it stops at the first bad one and suggests the least unused point.
   */
  method Validate(kems: seq<Kem>) returns (out: Outcome, ghost at: nat)
    ensures out.Passed? <==> Good(Checked(kems))
    ensures out.Passed? ==> out.inUse == Free(FIRST, Checked(kems))
    ensures !out.Passed? ==> FailsAt(Checked(kems), at, out)
    ensures |Checked(kems)| > COUNT ==> !out.Passed?
  {
    hide FailsAt, Good, Free, Reserved, Checked, CheckedOf;
    NothingUsed();
    var inUse := Reserved();
    assert kems[..0] == [];
    at := 0;
    for i := 0 to |kems|
      invariant Good(Checked(kems[..i])) && inUse == Free(FIRST, Checked(kems[..i]))
    {
      assert kems[..i + 1] == kems[..i] + [kems[i]];
      CheckedAppend(kems[..i], kems[i]);
      var failure: Option<Outcome>;
      inUse, failure, at := ValidateKem(inUse, kems[i], Checked(kems[..i]));
      if failure.Some? {
        FailureStands(kems, i + 1, at, failure.value);
        return failure.value, at;
      }
    }
    assert kems[..|kems|] == kems;
    TooMany(Checked(kems));
    return Passed(inUse), 0;
  }

  /** A failure among the first KEMs is the outcome for all of them. */
  lemma FailureStands(kems: seq<Kem>, n: nat, at: nat, out: Outcome)
    requires n <= |kems| && FailsAt(Checked(kems[..n]), at, out)
    ensures !out.Passed? && FailsAt(Checked(kems), at, out) && !Good(Checked(kems))
  {
    assert !out.Passed?;
    hide FailsAt, Good, Free;
    CheckedPrefix(kems, n);
    FailureOfPrefix(Checked(kems[..n]), Checked(kems), at, out);
    FailureIsReal(Checked(kems), at, out);
  }

  /** More than 256 points can never all be good; if the first 256 are, the failure has nothing to suggest. */
  lemma TooMany(nids: seq<int>)
    ensures |nids| > COUNT ==> !Good(nids)
    ensures |nids| > COUNT && Good(nids[..COUNT]) ==> Free(FIRST, nids[..COUNT]) == []
  {
    if Good(nids) {
      FreeCounts(nids);
    }
    if |nids| > COUNT && Good(nids[..COUNT]) {
      FreeCounts(nids[..COUNT]);
    }
  }
}
