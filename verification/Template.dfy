/**
 * populate: a document is refreshed by splicing each rendered fragment between
 * its start and its end marker, one fragment after the other.
 */
module Template {
  datatype Marks = Marks(start: string, end: string)

  /** A fragment: its two markers and the text it renders to. */
  datatype Fragment = Fragment(marks: Marks, rendered: string)

  // ------------------------------------------------------------ strings

  predicate Occurs(s: string, m: string, k: int) {
    0 <= k && k + |m| <= |s| && s[k..k + |m|] == m
  }

  function FindFrom(s: string, m: string, i: nat): int
    requires i <= |s|
    decreases |s| - i
  {
    if Occurs(s, m, i) then i else if i == |s| then -1 else FindFrom(s, m, i + 1)
  }

  /** str.find: the first occurrence, or -1. */
  function Find(s: string, m: string): int {
    FindFrom(s, m, 0)
  }

  /** A slice bound counts from the end when it is negative. */
  function Bound(s: string, k: int): (b: nat)
    ensures b <= |s|
  {
    if k > |s| then |s| else if k >= 0 then k else if |s| + k >= 0 then |s| + k else 0
  }

  /** One round of the loop of populate. */
  function Step(s: string, f: Fragment): string {
    var preamble := s[..Bound(s, Find(s, f.marks.start))];
    var postamble := s[Bound(s, Find(s, f.marks.end))..];
    preamble + f.marks.start + f.rendered + postamble
  }

  function Run(s: string, fs: seq<Fragment>): string
    decreases fs
  {
    if fs == [] then s else Run(Step(s, fs[0]), fs[1..])
  }

  /** populate on the contents of a file, or in the overwriting mode on its base file, with the fragments in the order they were listed. */
  method Populate(text: string, base: string, fragments: seq<Fragment>, overwrite: bool) returns (contents: string)
    ensures contents == if overwrite then RunOver(base, fragments) else Run(text, fragments)
  {
    contents := if overwrite then base else text;
    assert fragments[0..] == fragments;
    for i := 0 to |fragments|
      invariant if overwrite then RunOver(contents, fragments[i..]) == RunOver(base, fragments)
                else Run(contents, fragments[i..]) == Run(text, fragments)
    {
      assert fragments[i..][1..] == fragments[i + 1..];
      var f := fragments[i];
      var preamble := contents[..Bound(contents, Find(contents, f.marks.start))];
      var postamble := contents[Bound(contents, Find(contents, f.marks.end))..];
      if overwrite {
        contents := preamble + f.rendered + Dropped(postamble, f.marks.end + "\n");
      } else {
        contents := preamble + f.marks.start + f.rendered + postamble;
      }
    }
  }

  lemma {:induction false} FindsFirst(s: string, m: string, i: nat)
    requires i <= |s|
    ensures var k := FindFrom(s, m, i);
      if k < 0 then k == -1 && forall j :: i <= j ==> !Occurs(s, m, j)
      else i <= k && Occurs(s, m, k) && forall j :: i <= j < k ==> !Occurs(s, m, j)
    decreases |s| - i
  {
    if !Occurs(s, m, i) && i < |s| {
      FindsFirst(s, m, i + 1);
    }
  }

  // ------------------------------------------------------ well-formedness

  /** The marker occurs at one place. */
  ghost predicate Once(s: string, m: string) {
    Find(s, m) >= 0 && Occurs(s, m, Find(s, m)) && forall k :: Occurs(s, m, k) ==> k == Find(s, m)
  }

  /** Two markers cannot overlap, and one does not lie inside the other. */
  ghost predicate Separate(a: string, b: string) {
    && (forall d :: 0 < d < |a| && |a| - d <= |b| ==> a[d..] != b[..|a| - d])
    && (forall d :: 0 < d ==> !Occurs(b, a, d))
    && (a <= b ==> a == b)
  }

  predicate IsMark(ms: seq<Marks>, m: string) {
    exists i :: 0 <= i < |ms| && (ms[i].start == m || ms[i].end == m)
  }

  ghost predicate Separable(ms: seq<Marks>) {
    forall a, b :: IsMark(ms, a) && IsMark(ms, b) ==> a != "" && Separate(a, b)
  }

  ghost predicate Clean(ms: seq<Marks>, text: string) {
    forall m, k :: IsMark(ms, m) ==> !Occurs(text, m, k)
  }

  predicate Before(s: string, x: Marks, y: Marks) {
    Find(s, x.end) + |x.end| <= Find(s, y.start)
  }

  /** The region of one pair of markers: each occurs once, and the start ends before the end starts. */
  ghost predicate Region(s: string, x: Marks) {
    Once(s, x.start) && Once(s, x.end) && Find(s, x.start) + |x.start| <= Find(s, x.end)
  }

  /** Every marker occurs once and the regions are disjoint. */
  ghost predicate WellFormed(ms: seq<Marks>, s: string) {
    && (forall i :: 0 <= i < |ms| ==> Region(s, ms[i]))
    && (forall i, j :: 0 <= i < j < |ms| ==> Before(s, ms[i], ms[j]) || Before(s, ms[j], ms[i]))
  }

  // ---------------------------------------------------- replacing one body

  lemma CharOf(text: string, x: string, i: int, p: int)
    requires Occurs(text, x, i) && 0 <= p < |x|
    ensures x[p] == text[i + p]
  {
    assert text[i..i + |x|][p] == text[i + p];
  }

  /** Where two occurrences share text, the two markers agree. */
  lemma SharedText(text: string, x: string, i: int, y: string, j: int, n: int)
    requires Occurs(text, x, i) && Occurs(text, y, j) && i <= j
    requires 0 <= n <= |y| && j + n <= i + |x|
    ensures x[j - i..j - i + n] == y[..n]
  {
    forall q | 0 <= q < n ensures x[j - i..j - i + n][q] == y[..n][q] {
      CharOf(text, x, i, j - i + q);
      CharOf(text, y, j, q);
    }
  }

  /** Occurrences of separate markers do not touch: if two do, they are the same. */
  lemma TouchingIsSame(text: string, x: string, i: int, y: string, j: int)
    requires Occurs(text, x, i) && Occurs(text, y, j) && i <= j < i + |x|
    ensures !Separate(x, y) || !Separate(y, x) || (i == j && x == y)
  {
    var d := j - i;
    if |x| - d <= |y| {
      SharedText(text, x, i, y, j, |x| - d);
      assert x[d..] == y[..|x| - d];
      if d == 0 {
        assert x <= y;
      }
    } else {
      SharedText(text, x, i, y, j, |y|);
      if d == 0 {
        assert y <= x;
      } else {
        assert Occurs(x, y, d);
      }
    }
  }

  /** The document with one body replaced. */
  function Replaced(s: string, a: int, b: int, body: string): string
    requires 0 <= a <= b <= |s|
  {
    s[..a] + body + s[b..]
  }

  /** Where a place of the document goes when the body between a and b becomes a text of n characters. */
  function Shift(k: int, a: int, b: int, n: int): int {
    if k < a then k else k - (b - a) + n
  }

  /** A marker outside the body occurs in the new document, at its shifted place. */
  lemma OccurrenceStays(s: string, a: int, b: int, body: string, m: string, k: int)
    requires 0 <= a <= b <= |s| && m != "" && Occurs(s, m, k) && (k + |m| <= a || b <= k)
    ensures Occurs(Replaced(s, a, b, body), m, Shift(k, a, b, |body|))
  {
    var t := Replaced(s, a, b, body);
    var n := Shift(k, a, b, |body|);
    assert t[n..n + |m|] == s[k..k + |m|];
  }

  lemma OccursInBody(s: string, a: int, b: int, body: string, m: string, k: int)
    requires 0 <= a <= b <= |s| && Occurs(Replaced(s, a, b, body), m, k) && a <= k && k + |m| <= a + |body|
    ensures Occurs(body, m, k - a)
  {
    assert body[k - a..k - a + |m|] == Replaced(s, a, b, body)[k..k + |m|];
  }

  /** Is m a marker that cannot touch these two, and does the body not contain it? */
  ghost predicate Apart(m: string, start: string, end: string, body: string) {
    && Separate(m, start) && Separate(start, m) && Separate(m, end) && Separate(end, m)
    && m != "" && start != "" && end != ""
    && forall j :: !Occurs(body, m, j)
  }

  /** No marker appears across the ends of the new body, or in it. */
  lemma OccurrenceIsOutside(s: string, a: int, b: int, start: string, end: string, body: string, m: string, k: int)
    requires 0 <= a <= b <= |s| && Occurs(s, start, a - |start|) && Occurs(s, end, b) && Apart(m, start, end, body)
    requires Occurs(Replaced(s, a, b, body), m, k)
    ensures k + |m| <= a || a + |body| <= k
  {
    var t := Replaced(s, a, b, body);
    var e := a + |body|;
    OccurrenceStays(s, a, b, body, start, a - |start|);
    OccurrenceStays(s, a, b, body, end, b);
    if a < k + |m| && k < e {
      if a <= k && k + |m| <= e {
        OccursInBody(s, a, b, body, m, k);
      } else {
        hide Separate, Replaced, Occurs;
        if k >= a {
          TouchingIsSame(t, m, k, end, e);
        } else if k < a - |start| {
          TouchingIsSame(t, m, k, start, a - |start|);
        } else {
          TouchingIsSame(t, start, a - |start|, m, k);
        }
      }
    }
  }

  /** What occurs in the new document outside the body occurred in the old one. */
  lemma OccurrenceWas(s: string, a: int, b: int, body: string, m: string, k: int)
    requires 0 <= a <= b <= |s| && Occurs(Replaced(s, a, b, body), m, k) && (k + |m| <= a || a + |body| <= k)
    ensures Occurs(s, m, if k + |m| <= a then k else k - |body| + (b - a))
  {
    var t := Replaced(s, a, b, body);
    if k + |m| <= a {
      assert s[k..k + |m|] == t[k..k + |m|];
    } else {
      var n := k - |body| + (b - a);
      assert s[n..n + |m|] == t[k..k + |m|];
    }
  }

  // --------------------------------------------------------- one step

  /** Where the body of a region starts and ends. */
  function From(s: string, x: Marks): int { Find(s, x.start) + |x.start| }

  function To(s: string, x: Marks): int { Find(s, x.end) }

  /** On a document with the region, a step replaces the body and nothing else. */
  lemma StepReplaces(s: string, f: Fragment)
    requires Region(s, f.marks)
    ensures 0 <= From(s, f.marks) <= To(s, f.marks) <= |s|
    ensures Step(s, f) == Replaced(s, From(s, f.marks), To(s, f.marks), f.rendered)
  {
    var i := Find(s, f.marks.start);
    assert s[..i] + f.marks.start == s[..i + |f.marks.start|];
  }

  /** A marker that occurs once outside the body still occurs once, at its shifted place. */
  lemma OnceStays(s: string, x: Marks, body: string, m: string)
    requires Region(s, x) && Apart(m, x.start, x.end, body) && Once(s, m)
    requires Find(s, m) + |m| <= From(s, x) || To(s, x) <= Find(s, m)
    ensures var t := Replaced(s, From(s, x), To(s, x), body);
      Once(t, m) && Find(t, m) == Shift(Find(s, m), From(s, x), To(s, x), |body|)
  {
    hide Separate, Replaced, Find;
    var a, b := From(s, x), To(s, x);
    var t := Replaced(s, a, b, body);
    OccurrenceStays(s, a, b, body, m, Find(s, m));
    forall k | Occurs(t, m, k) ensures k == Shift(Find(s, m), a, b, |body|) {
      OccurrenceIsOutside(s, a, b, x.start, x.end, body, m, k);
      OccurrenceWas(s, a, b, body, m, k);
    }
    FindIsOnly(t, m, Shift(Find(s, m), a, b, |body|));
  }

  lemma FindIsOnly(s: string, m: string, k: int)
    requires Occurs(s, m, k) && forall j :: Occurs(s, m, j) ==> j == k
    ensures Once(s, m) && Find(s, m) == k
  {
    FindsFirst(s, m, 0);
  }

  /** The fragments belong to the document: their markers are among ms and they render to text without markers. */
  ghost predicate Fits(ms: seq<Marks>, f: Fragment) {
    f.marks in ms && Clean(ms, f.rendered)
  }

  lemma MarksAreApart(ms: seq<Marks>, f: Fragment, m: string)
    requires Separable(ms) && Fits(ms, f) && IsMark(ms, m)
    ensures Apart(m, f.marks.start, f.marks.end, f.rendered)
  {
    var i :| 0 <= i < |ms| && ms[i] == f.marks;
    assert IsMark(ms, f.marks.start) && IsMark(ms, f.marks.end);
    hide Separate, Occurs;
  }

  lemma NotEmpty(ms: seq<Marks>, x: Marks)
    requires Separable(ms) && x in ms
    ensures x.start != "" && x.end != ""
  {
    var i :| 0 <= i < |ms| && ms[i] == x;
    assert IsMark(ms, x.start) && IsMark(ms, x.end);
    hide Separate;
  }

  /** Every region moves as a whole. */
  lemma RegionStays(ms: seq<Marks>, s: string, f: Fragment, y: Marks)
    requires Separable(ms) && Fits(ms, f) && y in ms && Region(s, f.marks) && Region(s, y)
    requires y == f.marks || Before(s, y, f.marks) || Before(s, f.marks, y)
    ensures var t := Step(s, f);
      && Region(t, y)
      && From(t, y) == (if To(s, f.marks) < From(s, y) then From(s, y) - (To(s, f.marks) - From(s, f.marks)) + |f.rendered| else From(s, y))
      && To(t, y) == (if From(s, f.marks) <= To(s, y) then To(s, y) - (To(s, f.marks) - From(s, f.marks)) + |f.rendered| else To(s, y))
  {
    hide Separate, Replaced, Find, Step, Separable, Fits, Occurs, Once;
    StepReplaces(s, f);
    var i :| 0 <= i < |ms| && ms[i] == y;
    assert IsMark(ms, y.start) && IsMark(ms, y.end);
    MarksAreApart(ms, f, y.start);
    MarksAreApart(ms, f, y.end);
    assert y.start != "" && y.end != "" && f.marks.start != "" && f.marks.end != "";
    hide Apart, IsMark;
    OnceStays(s, f.marks, f.rendered, y.start);
    OnceStays(s, f.marks, f.rendered, y.end);
  }

  lemma Apartness(ms: seq<Marks>, s: string, x: Marks, y: Marks)
    requires WellFormed(ms, s) && x in ms && y in ms
    ensures Region(s, x) && Region(s, y)
    ensures x == y || Before(s, x, y) || Before(s, y, x)
  {
    var i :| 0 <= i < |ms| && ms[i] == x;
    var j :| 0 <= j < |ms| && ms[j] == y;
    hide Region, Before;
    if i < j {
      assert Before(s, ms[i], ms[j]) || Before(s, ms[j], ms[i]);
    } else if j < i {
      assert Before(s, ms[j], ms[i]) || Before(s, ms[i], ms[j]);
    }
  }

  lemma OrderStays(ms: seq<Marks>, s: string, f: Fragment, x: Marks, y: Marks)
    requires Separable(ms) && Fits(ms, f) && WellFormed(ms, s) && x in ms && y in ms && Before(s, x, y)
    ensures Before(Step(s, f), x, y)
  {
    Apartness(ms, s, f.marks, x);
    Apartness(ms, s, f.marks, y);
    Apartness(ms, s, x, y);
    RegionStays(ms, s, f, x);
    RegionStays(ms, s, f, y);
    hide Separable, Fits, WellFormed, Step, Find, Once;
  }

  /** Splicing keeps the document well-formed. */
  lemma StepKeeps(ms: seq<Marks>, s: string, f: Fragment)
    requires Separable(ms) && Fits(ms, f) && WellFormed(ms, s)
    ensures WellFormed(ms, Step(s, f))
  {
    var t := Step(s, f);
    hide Separable, Step, Find, Before, Region;
    forall i | 0 <= i < |ms| ensures Region(t, ms[i]) {
      Apartness(ms, s, f.marks, ms[i]);
      RegionStays(ms, s, f, ms[i]);
    }
    forall i, j | 0 <= i < j < |ms| ensures Before(t, ms[i], ms[j]) || Before(t, ms[j], ms[i]) {
      if Before(s, ms[i], ms[j]) {
        OrderStays(ms, s, f, ms[i], ms[j]);
      } else {
        OrderStays(ms, s, f, ms[j], ms[i]);
      }
    }
  }

  /** Filling one region twice is filling it the second time. */
  lemma StepTwice(ms: seq<Marks>, s: string, f: Fragment, g: Fragment)
    requires Separable(ms) && Fits(ms, f) && Fits(ms, g) && WellFormed(ms, s) && f.marks == g.marks
    ensures Step(Step(s, f), g) == Step(s, g)
  {
    Apartness(ms, s, f.marks, f.marks);
    RegionStays(ms, s, f, f.marks);
    StepReplaces(s, f);
    StepReplaces(s, g);
    StepReplaces(Step(s, f), g);
    hide Separable, Fits, WellFormed, Step, Find, Region;
    var a, b := From(s, f.marks), To(s, f.marks);
    var t := Replaced(s, a, b, f.rendered);
    assert t[..a] == s[..a] && t[a + |f.rendered|..] == s[b..];
  }

  /** Two bodies replaced, in either order. */
  lemma ReplacedTwice(s: string, a: int, b: int, r: string, c: int, d: int, q: string)
    requires 0 <= a <= b <= c <= d <= |s|
    ensures var n := |r| - (b - a);
      Replaced(Replaced(s, a, b, r), c + n, d + n, q) == Replaced(Replaced(s, c, d, q), a, b, r)
  {
    var n := |r| - (b - a);
    var t, u := Replaced(s, a, b, r), Replaced(s, c, d, q);
    assert t[..c + n] == s[..a] + r + s[b..c] && t[d + n..] == s[d..];
    assert u[..a] == s[..a] && u[b..] == s[b..c] + q + s[d..];
  }

  /** Filling a region moves a later one. */
  lemma LaterAfterStep(ms: seq<Marks>, s: string, f: Fragment, x: Marks)
    requires Separable(ms) && Fits(ms, f) && WellFormed(ms, s) && x in ms && Before(s, f.marks, x)
    ensures var n := |f.rendered| - (To(s, f.marks) - From(s, f.marks));
      Region(Step(s, f), x) && From(Step(s, f), x) == From(s, x) + n && To(Step(s, f), x) == To(s, x) + n
    ensures Region(s, f.marks) && Region(s, x) && To(s, f.marks) <= From(s, x)
  {
    Apartness(ms, s, f.marks, x);
    NotEmpty(ms, f.marks);
    NotEmpty(ms, x);
    RegionStays(ms, s, f, x);
    hide Separable, Fits, WellFormed, Step, Find, Once;
  }

  /** It leaves an earlier one in place. */
  lemma EarlierAfterStep(ms: seq<Marks>, s: string, f: Fragment, x: Marks)
    requires Separable(ms) && Fits(ms, f) && WellFormed(ms, s) && x in ms && Before(s, x, f.marks)
    ensures Region(Step(s, f), x) && From(Step(s, f), x) == From(s, x) && To(Step(s, f), x) == To(s, x)
  {
    Apartness(ms, s, f.marks, x);
    NotEmpty(ms, f.marks);
    NotEmpty(ms, x);
    RegionStays(ms, s, f, x);
    hide Separable, Fits, WellFormed, Step, Find, Once;
  }

  lemma StepsInOrderCommute(ms: seq<Marks>, s: string, f: Fragment, g: Fragment)
    requires Separable(ms) && Fits(ms, f) && Fits(ms, g) && WellFormed(ms, s) && Before(s, f.marks, g.marks)
    ensures Step(Step(s, f), g) == Step(Step(s, g), f)
  {
    hide Separable, Fits, WellFormed, Step, Find, Region, Replaced, Before, From, To;
    FitsIsMarked(ms, f);
    FitsIsMarked(ms, g);
    LaterAfterStep(ms, s, f, g.marks);
    EarlierAfterStep(ms, s, g, f.marks);
    StepReplaces(s, f);
    StepReplaces(s, g);
    StepReplaces(Step(s, f), g);
    StepReplaces(Step(s, g), f);
    ReplacedTwice(s, From(s, f.marks), To(s, f.marks), f.rendered, From(s, g.marks), To(s, g.marks), g.rendered);
  }

  lemma FitsIsMarked(ms: seq<Marks>, f: Fragment)
    requires Fits(ms, f)
    ensures f.marks in ms
  {
  }

  /** Filling two regions commutes. */
  lemma StepsCommute(ms: seq<Marks>, s: string, f: Fragment, g: Fragment)
    requires Separable(ms) && Fits(ms, f) && Fits(ms, g) && WellFormed(ms, s) && f.marks != g.marks
    ensures Step(Step(s, f), g) == Step(Step(s, g), f)
  {
    Apartness(ms, s, f.marks, g.marks);
    if Before(s, f.marks, g.marks) {
      StepsInOrderCommute(ms, s, f, g);
    } else {
      StepsInOrderCommute(ms, s, g, f);
    }
  }

  // ------------------------------------------------------------- whole runs

  /** The fragments of a run: each belongs to the document, and no two have the same markers. */
  ghost predicate Listed(ms: seq<Marks>, fs: seq<Fragment>) {
    && (forall i :: 0 <= i < |fs| ==> Fits(ms, fs[i]))
    && (forall i, j :: 0 <= i < j < |fs| ==> fs[i].marks != fs[j].marks)
  }

  predicate Mentions(fs: seq<Fragment>, x: Marks) {
    exists i :: 0 <= i < |fs| && fs[i].marks == x
  }

  lemma {:induction false} RunKeeps(ms: seq<Marks>, s: string, fs: seq<Fragment>)
    requires Separable(ms) && WellFormed(ms, s) && forall i :: 0 <= i < |fs| ==> Fits(ms, fs[i])
    ensures WellFormed(ms, Run(s, fs))
    decreases fs
  {
    hide Separable, WellFormed, Fits, Step;
    if fs != [] {
      StepKeeps(ms, s, fs[0]);
      RunKeeps(ms, Step(s, fs[0]), fs[1..]);
    }
  }

  /** A step on another region can be taken before or after a run. */
  lemma {:induction false} StepPastRun(ms: seq<Marks>, s: string, fs: seq<Fragment>, g: Fragment)
    requires Separable(ms) && WellFormed(ms, s) && Fits(ms, g) && !Mentions(fs, g.marks)
    requires forall i :: 0 <= i < |fs| ==> Fits(ms, fs[i])
    ensures Step(Run(s, fs), g) == Run(Step(s, g), fs)
    decreases fs
  {
    hide Separable, WellFormed, Fits, Step;
    if fs != [] {
      assert fs[0].marks != g.marks;
      assert forall i :: 0 <= i < |fs[1..]| ==> fs[1..][i] == fs[i + 1];
      StepKeeps(ms, s, fs[0]);
      StepPastRun(ms, Step(s, fs[0]), fs[1..], g);
      StepsCommute(ms, s, fs[0], g);
    }
  }

  lemma ListedTail(ms: seq<Marks>, fs: seq<Fragment>)
    requires Listed(ms, fs) && fs != []
    ensures Listed(ms, fs[1..]) && Fits(ms, fs[0]) && !Mentions(fs[1..], fs[0].marks)
  {
    hide Fits;
    assert forall i :: 0 <= i < |fs[1..]| ==> fs[1..][i] == fs[i + 1];
  }

  /** After a run, filling its first region again changes only what that fragment says. */
  lemma FirstAgain(ms: seq<Marks>, s: string, fs: seq<Fragment>, g: Fragment)
    requires Separable(ms) && WellFormed(ms, s) && Listed(ms, fs) && fs != [] && Fits(ms, g) && g.marks == fs[0].marks
    ensures Step(Run(s, fs), g) == Run(Step(s, g), fs[1..])
  {
    ListedTail(ms, fs);
    StepKeeps(ms, s, fs[0]);
    StepTwice(ms, s, fs[0], g);
    hide Separable, WellFormed, Step, Mentions, Fits;
    StepPastRun(ms, Step(s, fs[0]), fs[1..], g);
  }

  /** Idempotent: populating a second time changes nothing. */
  lemma {:induction false} PopulateTwice(ms: seq<Marks>, s: string, fs: seq<Fragment>)
    requires Separable(ms) && WellFormed(ms, s) && Listed(ms, fs)
    ensures Run(Run(s, fs), fs) == Run(s, fs)
    decreases fs
  {
    if fs != [] {
      ListedTail(ms, fs);
      StepKeeps(ms, s, fs[0]);
      FirstAgain(ms, s, fs, fs[0]);
      hide Separable, WellFormed, Step, Listed, Fits, Mentions;
      PopulateTwice(ms, Step(s, fs[0]), fs[1..]);
    }
  }

  /** A list without one of its elements. */
  function Without<T>(fs: seq<T>, k: nat): seq<T>
    requires k < |fs|
  {
    fs[..k] + fs[k + 1..]
  }

  lemma RestListed(ms: seq<Marks>, fs: seq<Fragment>, k: nat)
    requires Listed(ms, fs) && k < |fs|
    ensures Listed(ms, Without(fs, k)) && Fits(ms, fs[k]) && !Mentions(Without(fs, k), fs[k].marks)
    ensures forall i :: 0 <= i < |Without(fs, k)| ==> Fits(ms, Without(fs, k)[i])
  {
    hide Fits;
    var rest := Without(fs, k);
    assert forall i :: 0 <= i < |rest| ==> rest[i] == fs[if i < k then i else i + 1];
  }

  lemma WithoutLater<T>(fs: seq<T>, k: nat)
    requires 0 < k < |fs|
    ensures Without(fs, k)[0] == fs[0] && Without(fs, k)[1..] == Without(fs[1..], k - 1)
  {
  }

  /** Any fragment of a run may be taken first. */
  lemma {:induction false} TakeFirst(ms: seq<Marks>, s: string, fs: seq<Fragment>, k: nat)
    requires Separable(ms) && WellFormed(ms, s) && Listed(ms, fs) && k < |fs|
    ensures Run(s, fs) == Run(Step(s, fs[k]), Without(fs, k))
    decreases fs
  {
    ListedTail(ms, fs);
    RestListed(ms, fs, k);
    if k == 0 {
      assert Without(fs, k) == fs[1..];
    } else {
      StepKeeps(ms, s, fs[0]);
      assert fs[0].marks != fs[k].marks;
      WithoutLater(fs, k);
      hide Separable, WellFormed, Step, Fits, Listed, Mentions, Without;
      TakeFirst(ms, Step(s, fs[0]), fs[1..], k - 1);
      StepsCommute(ms, s, fs[0], fs[k]);
    }
  }

  lemma WithoutCounts<T>(fs: seq<T>, k: nat)
    requires k < |fs|
    ensures multiset(Without(fs, k)) == multiset(fs) - multiset{fs[k]}
  {
    assert fs == fs[..k] + [fs[k]] + fs[k + 1..];
  }

  /** Order-independent: the result is the same in whatever order the fragments are visited. */
  lemma {:induction false} OrderDoesNotMatter(ms: seq<Marks>, s: string, fs: seq<Fragment>, gs: seq<Fragment>)
    requires Separable(ms) && WellFormed(ms, s) && Listed(ms, fs) && Listed(ms, gs) && multiset(fs) == multiset(gs)
    ensures Run(s, fs) == Run(s, gs)
    decreases fs
  {
    hide Separable, WellFormed, Step, Listed;
    if fs == [] {
      assert |gs| == |multiset(gs)| == 0;
    } else {
      assert fs[0] in multiset(gs);
      var k :| 0 <= k < |gs| && gs[k] == fs[0];
      WithoutCounts(fs, 0);
      WithoutCounts(gs, k);
      assert Without(fs, 0) == fs[1..];
      ListedTail(ms, fs);
      RestListed(ms, gs, k);
      StepKeeps(ms, s, fs[0]);
      TakeFirst(ms, s, gs, k);
      OrderDoesNotMatter(ms, Step(s, fs[0]), fs[1..], Without(gs, k));
    }
  }

  // ---------------------------------------------------------- outside text

  function Blank(fs: seq<Fragment>): seq<Fragment> {
    seq(|fs|, i requires 0 <= i < |fs| => fs[i].(rendered := ""))
  }

  lemma BlankFirst(fs: seq<Fragment>)
    requires fs != []
    ensures Blank(fs) != [] && Blank(fs)[0] == fs[0].(rendered := "") && Blank(fs)[1..] == Blank(fs[1..])
  {
  }

  /** The text outside the regions: the document with every body emptied. */
  function Outside(s: string, fs: seq<Fragment>): string {
    Run(s, Blank(fs))
  }

  lemma EmptyFits(ms: seq<Marks>, f: Fragment)
    requires Fits(ms, f) && Separable(ms)
    ensures Fits(ms, f.(rendered := ""))
  {
    hide Separate;
    assert forall m, k :: IsMark(ms, m) ==> m != "" && !Occurs("", m, k);
  }

  /** What a run leaves outside the regions is what was there. */
  lemma {:induction false} OutsideUnchanged(ms: seq<Marks>, s: string, fs: seq<Fragment>)
    requires Separable(ms) && WellFormed(ms, s) && Listed(ms, fs)
    ensures Outside(Run(s, fs), fs) == Outside(s, fs)
    decreases fs
  {
    if fs == [] {
      assert Blank(fs) == [];
    } else {
      var e := fs[0].(rendered := "");
      BlankFirst(fs);
      ListedTail(ms, fs);
      EmptyFits(ms, fs[0]);
      StepKeeps(ms, s, e);
      FirstAgain(ms, s, fs, e);
      hide Separable, WellFormed, Step, Listed, Fits, Mentions, Blank;
      OutsideUnchanged(ms, Step(s, e), fs[1..]);
    }
  }

  /** And what it leaves between the markers of a fragment is the rendered text. */
  lemma BodyIsRendered(ms: seq<Marks>, s: string, fs: seq<Fragment>, k: nat)
    requires Separable(ms) && WellFormed(ms, s) && Listed(ms, fs) && k < |fs|
    ensures var t := Run(s, fs);
      var f := fs[k];
      0 <= From(t, f.marks) <= To(t, f.marks) <= |t| && t[From(t, f.marks)..To(t, f.marks)] == f.rendered
  {
    var f := fs[k];
    var rest := Without(fs, k);
    hide Separable, WellFormed, Step, Listed, Fits, Mentions, Find, Run, Without, Replaced;
    RestListed(ms, fs, k);
    TakeFirst(ms, s, fs, k);
    var u := Step(s, f);
    StepKeeps(ms, s, f);
    StepPastRun(ms, u, rest, f);
    StepTwice(ms, s, f, f);
    RunKeeps(ms, u, rest);
    var t := Run(s, fs);
    Apartness(ms, t, f.marks, f.marks);
    StepReplaces(t, f);
    BodyOf(t, From(t, f.marks), To(t, f.marks), f.rendered);
  }

  /** A document that replacing a body does not change had that body. */
  lemma BodyOf(t: string, a: int, b: int, body: string)
    requires 0 <= a <= b <= |t| && Replaced(t, a, b, body) == t
    ensures t[a..b] == body
  {
    assert |t| == |Replaced(t, a, b, body)|;
    assert t[a..b] == Replaced(t, a, b, body)[a..b] == body;
  }

  // ------------------------------------------------------------ the markers

  /** A marker starts with n copies of a character that does not occur in it again. */
  predicate Delimited(m: string, c: char, n: nat) {
    && 0 < n < |m|
    && (forall i :: 0 <= i < n ==> m[i] == c)
    && (forall i :: n <= i < |m| ==> m[i] != c)
  }

  lemma DelimitedIsNotEmpty(m: string, c: char, n: nat)
    requires Delimited(m, c, n)
    ensures m != ""
  {
  }

  lemma DelimitedAreSeparate(a: string, b: string, c: char, n: nat)
    requires Delimited(a, c, n) && Delimited(b, c, n) && (a <= b ==> a == b)
    ensures Separate(a, b)
  {
    forall d | 0 < d < |a| && |a| - d <= |b| ensures a[d..] != b[..|a| - d] {
      var i := if d < n then n - d else 0;
      assert a[d..][i] != c && b[..|a| - d][i] == c;
    }
    forall d | 0 < d ensures !Occurs(b, a, d) {
      if d + |a| <= |b| {
        var i := if d < n then n - d else 0;
        assert b[d..d + |a|][i] == b[d + i] != c && a[i] == c;
      }
    }
  }

  function Tail(id: string, suffix: string): string {
    " OQS_TEMPLATE_FRAGMENT_" + (id + suffix)
  }

  function StartMark(delimiter: string, id: string, markdown: bool): string {
    delimiter + Tail(id, if markdown then "_START -->" else "_START")
  }

  function EndMark(delimiter: string, id: string): string {
    delimiter + Tail(id, "_END")
  }

  /** The text of the markers. */
  lemma MarkTexts(delimiter: string, id: string)
    ensures StartMark(delimiter, id, false) == delimiter + " OQS_TEMPLATE_FRAGMENT_" + id + "_START"
    ensures StartMark(delimiter, id, true) == delimiter + " OQS_TEMPLATE_FRAGMENT_" + id + "_START -->"
    ensures EndMark(delimiter, id) == delimiter + " OQS_TEMPLATE_FRAGMENT_" + id + "_END"
  {
    var tag := " OQS_TEMPLATE_FRAGMENT_";
    assert forall suffix: string :: delimiter + (tag + (id + suffix)) == delimiter + tag + id + suffix;
  }

  /** The delimiters in use: the character they start with and how often. */
  function Lead(delimiter: string): (char, nat) {
    if delimiter == "/////" then ('/', 5) else if delimiter == "#####" then ('#', 5) else ('<', 1)
  }

  predicate Known(delimiter: string) {
    delimiter == "/////" || delimiter == "#####" || delimiter == "<!---"
  }

  /** The markers of a document, from the names of its fragments. */
  function MarksOf(delimiter: string, ids: seq<string>, markdown: bool): seq<Marks> {
    seq(|ids|, i requires 0 <= i < |ids| => Marks(StartMark(delimiter, ids[i], markdown), EndMark(delimiter, ids[i])))
  }

  lemma MarkIsDelimited(delimiter: string, rest: string)
    requires Known(delimiter) && rest != "" && Lead(delimiter).0 !in rest
    ensures Delimited(delimiter + rest, Lead(delimiter).0, Lead(delimiter).1)
  {
    var m := delimiter + rest;
    forall i | |delimiter| <= i < |m| ensures m[i] != Lead(delimiter).0 {
      assert m[i] == rest[i - |delimiter|];
    }
  }

  lemma TailLacks(id: string, suffix: string, c: char)
    requires c !in id && c !in suffix && (c == '/' || c == '#' || c == '<')
    ensures c !in Tail(id, suffix) && Tail(id, suffix) != ""
  {
    assert c !in " OQS_TEMPLATE_FRAGMENT_";
    assert c !in id + suffix;
  }

  lemma MarksAreDelimited(delimiter: string, id: string, markdown: bool)
    requires Known(delimiter) && Lead(delimiter).0 !in id
    ensures Delimited(StartMark(delimiter, id, markdown), Lead(delimiter).0, Lead(delimiter).1)
    ensures Delimited(EndMark(delimiter, id), Lead(delimiter).0, Lead(delimiter).1)
  {
    TailLacks(id, if markdown then "_START -->" else "_START", Lead(delimiter).0);
    TailLacks(id, "_END", Lead(delimiter).0);
    hide Tail, Delimited, Lead;
    MarkIsDelimited(delimiter, Tail(id, if markdown then "_START -->" else "_START"));
    MarkIsDelimited(delimiter, Tail(id, "_END"));
  }

  /** The markers the generator uses are separable, as long as none is the beginning of another. */
  lemma MarkersAreSeparable(delimiter: string, ids: seq<string>, markdown: bool)
    requires Known(delimiter) && forall i :: 0 <= i < |ids| ==> Lead(delimiter).0 !in ids[i]
    requires var ms := MarksOf(delimiter, ids, markdown);
      forall a, b :: IsMark(ms, a) && IsMark(ms, b) && a <= b ==> a == b
    ensures Separable(MarksOf(delimiter, ids, markdown))
  {
    var ms := MarksOf(delimiter, ids, markdown);
    var c, n := Lead(delimiter).0, Lead(delimiter).1;
    hide Separate, Delimited, StartMark, EndMark, Lead;
    forall m | IsMark(ms, m) ensures m != "" && Delimited(m, c, n) {
      var i :| 0 <= i < |ms| && (ms[i].start == m || ms[i].end == m);
      MarksAreDelimited(delimiter, ids[i], markdown);
      DelimitedIsNotEmpty(m, c, n);
    }
    forall a, b | IsMark(ms, a) && IsMark(ms, b) ensures a != "" && Separate(a, b) {
      DelimitedAreSeparate(a, b, c, n);
    }
  }

  /** Where a marker is taken to be: at its first occurrence, or before the last character if there is none. */
  ghost function Place(s: string, m: string): (k: nat)
    requires s != ""
    ensures k <= |s|
  {
    if exists k :: Occurs(s, m, k) then Bound(s, Find(s, m)) else |s| - 1
  }

  /** Any step, on any document: what is between the places of the two markers is dropped or, if they are out of order, doubled. */
  lemma StepAnywhere(s: string, f: Fragment)
    requires s != ""
    ensures Step(s, f) == s[..Place(s, f.marks.start)] + f.marks.start + f.rendered + s[Place(s, f.marks.end)..]
  {
    FindsFirst(s, f.marks.start, 0);
    FindsFirst(s, f.marks.end, 0);
  }

  /**
   * A missing marker is not an error: its place reads as the last character.
   * Without both, the fragment is inserted there; without the end alone, all
   * text after the start marker but the last character is lost; without the start
   * alone, all text from the end marker on but the last character is doubled.
   */
  lemma StepWithoutMarkers(s: string, f: Fragment)
    requires s != ""
    requires (forall k :: !Occurs(s, f.marks.start, k)) || (forall k :: !Occurs(s, f.marks.end, k))
    ensures var i, j, n := Find(s, f.marks.start), Find(s, f.marks.end), |s| - 1;
      && (i < 0 && j < 0 ==> Step(s, f) == s[..n] + f.marks.start + f.rendered + s[n..])
      && (0 <= i <= n && j < 0 ==> Step(s, f) == s[..i] + f.marks.start + f.rendered + s[n..])
      && (i < 0 && 0 <= j <= n ==> Step(s, f) == s[..n] + f.marks.start + f.rendered + s[j..])
    ensures Find(s, f.marks.start) < 0 ==> Step(s, f) != s
  {
    FindsFirst(s, f.marks.start, 0);
    FindsFirst(s, f.marks.end, 0);
    StepAnywhere(s, f);
    assert Occurs(s, "", 0);
    var n := |s| - 1;
    if Find(s, f.marks.start) < 0 {
      assert |Step(s, f)| > |s|;
    }
  }

  /** Does a step only put the rendered text in place of what is between a start and an end marker? */
  predicate ReplacesBody(s: string, f: Fragment, a: int, b: int) {
    && Occurs(s, f.marks.start, a - |f.marks.start|) && Occurs(s, f.marks.end, b)
    && 0 <= a <= b <= |s| && Step(s, f) == Replaced(s, a, b, f.rendered)
  }

  /**
   * A step keeps all text outside some region if and only if both markers occur
   * and the first start marker ends before the first end marker begins.
   */
  lemma StepKeepsOutsideExactly(s: string, f: Fragment)
    ensures (exists a, b :: ReplacesBody(s, f, a, b)) <==>
      Find(s, f.marks.start) >= 0 && Find(s, f.marks.end) >= 0 && From(s, f.marks) <= To(s, f.marks)
  {
    FindsFirst(s, f.marks.start, 0);
    FindsFirst(s, f.marks.end, 0);
    var i, j := Find(s, f.marks.start), Find(s, f.marks.end);
    if i >= 0 && j >= 0 && From(s, f.marks) <= j {
      assert s[..i] + f.marks.start == s[..From(s, f.marks)];
      assert ReplacesBody(s, f, From(s, f.marks), j);
    }
    if a, b :| ReplacesBody(s, f, a, b) {
      assert |Step(s, f)| == a + |f.rendered| + |s| - b;
      assert |Step(s, f)| == From(s, f.marks) + |f.rendered| + |s| - j;
    }
  }

  // ------------------------------------------------------ overwriting mode

  /** str.replace with nothing: every occurrence is dropped, from the front. */
  function Dropped(s: string, m: string): string
    requires m != ""
    decreases |s|
  {
    if |s| < |m| then s
    else if s[..|m|] == m then Dropped(s[|m|..], m)
    else [s[0]] + Dropped(s[1..], m)
  }

  /** One round of the loop in the overwriting mode: the markers go too. */
  function StepOver(s: string, f: Fragment): string {
    s[..Bound(s, Find(s, f.marks.start))] + f.rendered +
    Dropped(s[Bound(s, Find(s, f.marks.end))..], f.marks.end + "\n")
  }

  function RunOver(s: string, fs: seq<Fragment>): string
    decreases fs
  {
    if fs == [] then s else RunOver(StepOver(s, fs[0]), fs[1..])
  }

  /** Text without an occurrence stays. */
  lemma {:induction false} NothingDropped(s: string, m: string)
    requires m != "" && forall k :: !Occurs(s, m, k)
    ensures Dropped(s, m) == s
    decreases |s|
  {
    if |s| >= |m| {
      assert !Occurs(s, m, 0);
      forall k ensures !Occurs(s[1..], m, k) {
        if 0 <= k && k + |m| <= |s[1..]| {
          assert s[1..][k..k + |m|] == s[k + 1..k + 1 + |m|];
          assert !Occurs(s, m, k + 1);
        }
      }
      NothingDropped(s[1..], m);
      assert s == [s[0]] + s[1..];
    }
  }

  /**
   * On a document with the region, whose end marker ends its line, the whole
   * region gives way to the rendered text, markers and line end included.
   */
  lemma StepOverReplaces(s: string, f: Fragment)
    requires Region(s, f.marks) && f.marks.end != ""
    requires var e := To(s, f.marks) + |f.marks.end|; e < |s| && s[e] == '\n'
    ensures var e := To(s, f.marks) + |f.marks.end| + 1;
      StepOver(s, f) == Replaced(s, Find(s, f.marks.start), e, f.rendered)
  {
    var j, m := To(s, f.marks), f.marks.end + "\n";
    var rest := s[j..];
    var after := s[j + |m|..];
    assert rest[..|m|] == m by {
      assert s[j..j + |f.marks.end|] == f.marks.end;
    }
    assert rest[|m|..] == after;
    forall k ensures !Occurs(after, m, k) {
      if 0 <= k && k + |m| <= |after| {
        var n := j + |m| + k;
        assert after[k..k + |m|] == s[n..n + |m|];
        if s[n..n + |m|] == m {
          EndOccurs(s, f.marks.end, n);
        }
      }
    }
    NothingDropped(after, m);
  }

  lemma EndOccurs(s: string, end: string, n: int)
    requires 0 <= n && n + |end| + 1 <= |s| && s[n..n + |end| + 1] == end + "\n"
    ensures Occurs(s, end, n)
  {
    assert s[n..n + |end|] == s[n..n + |end| + 1][..|end|] == end;
  }
}
