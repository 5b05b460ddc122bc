/**
 * The reference count of a key shared between handles, KEM contexts and
 * signature contexts, under every interleaving. A step is one atomic action:
 * fetch-add, fetch-sub, the destruction that follows a count of zero, or the
 * store of a context's key pointer.
 */
module RefCount {
  import opened Bytes

  /** references, and how often the memory was given back. */
  datatype Key = Key(refs: int, destroys: nat)

  /** Where a context is inside oqs_kem_decapsencaps_init, oqs_sig_signverify_init, oqs_sig_dupctx or a freectx. */
  datatype Phase =
    | Ready
    | Acquired(new_: nat)
    | Released(new_: nat, owes: Option<nat>)
    | Duplicated(new_: nat)
    | Closing(owes: Option<nat>)

  /**
   * A participant: somebody outside the provider who holds a key, a context with
   * its key pointer, or a holder who brought a count to zero and has the key
   * still to destroy.
   */
  datatype Agent =
    | Gone
    | Handle(key: nat)
    | Dropping(key: nat)
    | Context(field: Option<nat>, phase: Phase)

  datatype State = State(keys: seq<Key>, agents: seq<Agent>)

  datatype Action =
    | NewKey
    | NewContext
    | Share(agent: nat)
    | Drop(agent: nat)
    | DropDestroy(agent: nat)
    | InitAcquire(agent: nat, holder: nat)
    | InitRelease(agent: nat)
    | InitDestroy(agent: nat)
    | InitStore(agent: nat)
    | Dup(agent: nat)
    | DupStore(agent: nat)
    | Close(agent: nat)
    | CloseDestroy(agent: nat)
    | CloseDone(agent: nat)

  function At(s: State, i: nat): Agent {
    if i < |s.agents| then s.agents[i] else Gone
  }

  /** The fetch-add of oqsx_key_up_ref, and whether it reports success. */
  function UpRef(keys: seq<Key>, k: nat): (seq<Key>, bool)
    requires k < |keys|
  {
    (keys[k := keys[k].(refs := keys[k].refs + 1)], keys[k].refs + 1 > 1)
  }

  /** The fetch-sub of oqsx_key_free, and whether the caller goes on to destroy the key. */
  function FetchSub(keys: seq<Key>, k: nat): (seq<Key>, Option<nat>)
    requires k < |keys|
  {
    (keys[k := keys[k].(refs := keys[k].refs - 1)], if keys[k].refs - 1 > 0 then None else Some(k))
  }

  function Destroy(keys: seq<Key>, k: nat): seq<Key>
    requires k < |keys|
  {
    keys[k := keys[k].(destroys := keys[k].destroys + 1)]
  }

  /** One atomic step; an action that is not the agent's next one changes nothing. */
  function Next(s: State, a: Action): State
    requires InRange(s)
  {
    match a
    case NewKey => State(s.keys + [Key(1, 0)], s.agents + [Handle(|s.keys|)])
    case NewContext => s.(agents := s.agents + [Context(None, Ready)])
    case Share(i) =>
      if !At(s, i).Handle? then s
      else
        var (keys, ok) := UpRef(s.keys, At(s, i).key);
        State(keys, if ok then s.agents + [At(s, i)] else s.agents)
    case Drop(i) =>
      if !At(s, i).Handle? then s
      else
        var (keys, owes) := FetchSub(s.keys, At(s, i).key);
        State(keys, s.agents[i := if owes.Some? then Dropping(At(s, i).key) else Gone])
    case DropDestroy(i) =>
      if !At(s, i).Dropping? then s
      else State(Destroy(s.keys, At(s, i).key), s.agents[i := Gone])
    case InitAcquire(i, h) =>
      if !(At(s, i).Context? && At(s, i).phase.Ready? && At(s, h).Handle?) then s
      else
        var (keys, ok) := UpRef(s.keys, At(s, h).key);
        State(keys, if ok then s.agents[i := At(s, i).(phase := Acquired(At(s, h).key))] else s.agents)
    case InitRelease(i) =>
      if !(At(s, i).Context? && At(s, i).phase.Acquired?) then s
      else if At(s, i).field.None? then s.(agents := s.agents[i := At(s, i).(phase := Released(At(s, i).phase.new_, None))])
      else
        var (keys, owes) := FetchSub(s.keys, At(s, i).field.value);
        State(keys, s.agents[i := At(s, i).(phase := Released(At(s, i).phase.new_, owes))])
    case InitDestroy(i) =>
      if !(At(s, i).Context? && At(s, i).phase.Released? && At(s, i).phase.owes.Some?) then s
      else State(Destroy(s.keys, At(s, i).phase.owes.value), s.agents[i := At(s, i).(phase := Released(At(s, i).phase.new_, None))])
    case InitStore(i) =>
      if !(At(s, i).Context? && At(s, i).phase.Released? && At(s, i).phase.owes.None?) then s
      else s.(agents := s.agents[i := Context(Some(At(s, i).phase.new_), Ready)])
    case Dup(i) =>
      if !(At(s, i).Context? && At(s, i).phase.Ready?) then s
      else if At(s, i).field.None? then s.(agents := s.agents + [Context(None, Ready)])
      else
        var (keys, ok) := UpRef(s.keys, At(s, i).field.value);
        State(keys, s.agents + [Context(None, if ok then Duplicated(At(s, i).field.value) else Closing(None))])
    case DupStore(i) =>
      if !(At(s, i).Context? && At(s, i).phase.Duplicated?) then s
      else s.(agents := s.agents[i := Context(Some(At(s, i).phase.new_), Ready)])
    case Close(i) =>
      if !(At(s, i).Context? && At(s, i).phase.Ready?) then s
      else if At(s, i).field.None? then s.(agents := s.agents[i := At(s, i).(phase := Closing(None))])
      else
        var (keys, owes) := FetchSub(s.keys, At(s, i).field.value);
        State(keys, s.agents[i := At(s, i).(phase := Closing(owes))])
    case CloseDestroy(i) =>
      if !(At(s, i).Context? && At(s, i).phase.Closing? && At(s, i).phase.owes.Some?) then s
      else State(Destroy(s.keys, At(s, i).phase.owes.value), s.agents[i := At(s, i).(phase := Closing(None))])
    case CloseDone(i) =>
      if !(At(s, i).Context? && At(s, i).phase.Closing? && At(s, i).phase.owes.None?) then s
      else s.(agents := s.agents[i := Gone])
  }

  // -------------------------------------------------------------- counting

  predicate Names(a: Agent, n: nat) {
    match a
    case Gone => true
    case Handle(k) => k < n
    case Dropping(k) => k < n
    case Context(f, p) =>
      && (f.Some? ==> f.value < n)
      && (p.Acquired? || p.Released? || p.Duplicated? ==> p.new_ < n)
      && (p.Released? || p.Closing? ==> p.owes.Some? ==> p.owes.value < n)
  }

  /** Every key that is named exists. */
  predicate InRange(s: State) {
    forall i :: 0 <= i < |s.agents| ==> Names(s.agents[i], |s.keys|)
  }

  function One(b: bool): nat { if b then 1 else 0 }

  /**
   * How many references to k an agent answers for. A context whose old key was
   * released no longer answers for what its pointer still shows.
   */
  function Counted(a: Agent, k: nat): nat {
    match a
    case Gone => 0
    case Handle(x) => One(x == k)
    case Dropping(_) => 0
    case Context(f, Ready) => One(f == Some(k))
    case Context(f, Acquired(n)) => One(f == Some(k)) + One(n == k)
    case Context(_, Released(n, _)) => One(n == k)
    case Context(_, Duplicated(n)) => One(n == k)
    case Context(_, Closing(_)) => 0
  }

  /** Is the agent about to destroy k? */
  function Owed(a: Agent, k: nat): nat {
    match a
    case Dropping(x) => One(x == k)
    case Context(_, Released(_, o)) => One(o == Some(k))
    case Context(_, Closing(o)) => One(o == Some(k))
    case _ => 0
  }

  function TotalCounted(agents: seq<Agent>, k: nat): nat {
    if agents == [] then 0 else Counted(agents[0], k) + TotalCounted(agents[1..], k)
  }

  function TotalOwed(agents: seq<Agent>, k: nat): nat {
    if agents == [] then 0 else Owed(agents[0], k) + TotalOwed(agents[1..], k)
  }

  lemma {:induction false} TotalsReplace(agents: seq<Agent>, i: nat, a: Agent, k: nat)
    requires i < |agents|
    ensures TotalCounted(agents[i := a], k) == TotalCounted(agents, k) - Counted(agents[i], k) + Counted(a, k)
    ensures TotalOwed(agents[i := a], k) == TotalOwed(agents, k) - Owed(agents[i], k) + Owed(a, k)
  {
    if i == 0 {
      assert agents[i := a][1..] == agents[1..];
    } else {
      assert agents[i := a][1..] == agents[1..][i - 1 := a];
      TotalsReplace(agents[1..], i - 1, a, k);
    }
  }

  lemma {:induction false} TotalsAppend(agents: seq<Agent>, a: Agent, k: nat)
    ensures TotalCounted(agents + [a], k) == TotalCounted(agents, k) + Counted(a, k)
    ensures TotalOwed(agents + [a], k) == TotalOwed(agents, k) + Owed(a, k)
  {
    if agents == [] {
      assert agents + [a] == [a];
    } else {
      assert (agents + [a])[0] == agents[0] && (agents + [a])[1..] == agents[1..] + [a];
      TotalsAppend(agents[1..], a, k);
    }
  }

  lemma {:induction false} TotalsIncludeEach(agents: seq<Agent>, i: nat, k: nat)
    requires i < |agents|
    ensures Counted(agents[i], k) <= TotalCounted(agents, k) && Owed(agents[i], k) <= TotalOwed(agents, k)
  {
    if i > 0 {
      TotalsIncludeEach(agents[1..], i - 1, k);
    }
  }

  /** A key that no agent names is counted nowhere. */
  lemma {:induction false} UnnamedIsUncounted(agents: seq<Agent>, k: nat)
    requires forall i :: 0 <= i < |agents| ==> Names(agents[i], k)
    ensures TotalCounted(agents, k) == 0 && TotalOwed(agents, k) == 0
  {
    if agents != [] {
      assert Names(agents[0], k);
      UnnamedIsUncounted(agents[1..], k);
    }
  }

  // ------------------------------------------------------------- invariant

  /** The count is the number of references answered for; the key is destroyed, or about to be, once and only when that is zero. */
  predicate Balanced(s: State, k: nat)
    requires k < |s.keys|
  {
    && s.keys[k].refs == TotalCounted(s.agents, k)
    && s.keys[k].destroys + TotalOwed(s.agents, k) == One(s.keys[k].refs == 0)
  }

  predicate Invariant(s: State) {
    InRange(s) && forall k :: 0 <= k < |s.keys| ==> Balanced(s, k)
  }

  /** One agent moves on, and the keys change by what it no longer or newly answers for. */
  lemma Moved(s: State, i: nat, a: Agent, keys: seq<Key>)
    requires Invariant(s) && i < |s.agents| && |keys| == |s.keys| && Names(a, |keys|)
    requires forall k :: 0 <= k < |keys| ==>
      keys[k].refs - s.keys[k].refs == Counted(a, k) - Counted(s.agents[i], k) &&
      keys[k].destroys - s.keys[k].destroys + Owed(a, k) - Owed(s.agents[i], k) == One(keys[k].refs == 0) - One(s.keys[k].refs == 0)
    ensures Invariant(State(keys, s.agents[i := a]))
  {
    var t := State(keys, s.agents[i := a]);
    forall k | 0 <= k < |keys| ensures Balanced(t, k) {
      assert Balanced(s, k);
      TotalsReplace(s.agents, i, a, k);
    }
  }

  /** A new agent, likewise. */
  lemma Joined(s: State, a: Agent, keys: seq<Key>)
    requires Invariant(s) && |keys| == |s.keys| && Names(a, |keys|)
    requires forall k :: 0 <= k < |keys| ==>
      keys[k].refs - s.keys[k].refs == Counted(a, k) &&
      keys[k].destroys - s.keys[k].destroys + Owed(a, k) == One(keys[k].refs == 0) - One(s.keys[k].refs == 0)
    ensures Invariant(State(keys, s.agents + [a]))
  {
    var t := State(keys, s.agents + [a]);
    forall k | 0 <= k < |keys| ensures Balanced(t, k) {
      assert Balanced(s, k);
      TotalsAppend(s.agents, a, k);
    }
  }

  /** Whoever answers for a reference finds the count positive and the key neither destroyed nor about to be. */
  lemma CountedIsAlive(s: State, i: nat, k: nat)
    requires Invariant(s) && i < |s.agents| && k < |s.keys| && Counted(s.agents[i], k) > 0
    ensures s.keys[k].refs >= Counted(s.agents[i], k) && s.keys[k].destroys == 0 && TotalOwed(s.agents, k) == 0
  {
    assert Balanced(s, k);
    TotalsIncludeEach(s.agents, i, k);
  }

  /** up_ref is only ever called on a live key, so it never reports failure and never brings a key back. */
  lemma UpRefSucceeds(s: State, i: nat, k: nat)
    requires Invariant(s) && i < |s.agents| && k < |s.keys| && Counted(s.agents[i], k) > 0
    ensures UpRef(s.keys, k).1 && s.keys[k].refs > 0
  {
    CountedIsAlive(s, i, k);
  }

  lemma NewKeyKeeps(s: State)
    requires Invariant(s)
    ensures Invariant(Next(s, NewKey))
  {
    var n := |s.keys|;
    var t := Next(s, NewKey);
    forall k | 0 <= k <= n ensures Balanced(t, k) {
      TotalsAppend(s.agents, Handle(n), k);
      if k < n {
        assert Balanced(s, k);
      } else {
        UnnamedIsUncounted(s.agents, n);
      }
    }
    forall i | 0 <= i < |t.agents| ensures Names(t.agents[i], n + 1) {
      if i < |s.agents| {
        assert Names(s.agents[i], n);
      }
    }
  }

  lemma NewContextKeeps(s: State)
    requires Invariant(s)
    ensures Invariant(Next(s, NewContext))
  {
    hide TotalCounted, TotalOwed, Balanced;
    Joined(s, Context(None, Ready), s.keys);
  }

  /** The steps that take a reference: the caller answers for one already. */
  lemma AcquiringKeeps(s: State, a: Action)
    requires Invariant(s) && (a.Share? || a.InitAcquire? || a.Dup?)
    ensures Invariant(Next(s, a))
  {
    hide TotalCounted, TotalOwed, Balanced;
    var holder := At(s, if a.InitAcquire? then a.holder else a.agent);
    if Next(s, a) != s {
      if a.Dup? && holder.field.None? {
        Joined(s, Context(None, Ready), s.keys);
      } else {
        var k := if a.Dup? then holder.field.value else holder.key;
        UpRefSucceeds(s, if a.InitAcquire? then a.holder else a.agent, k);
        if a.InitAcquire? {
          Moved(s, a.agent, At(s, a.agent).(phase := Acquired(k)), UpRef(s.keys, k).0);
        } else {
          Joined(s, if a.Dup? then Context(None, Duplicated(k)) else holder, UpRef(s.keys, k).0);
        }
      }
    }
  }

  /** The steps that give a reference back: the one who brings the count to zero owes the destruction. */
  lemma ReleasingKeeps(s: State, a: Action)
    requires Invariant(s) && (a.Drop? || a.InitRelease? || a.Close?)
    ensures Invariant(Next(s, a))
  {
    hide TotalCounted, TotalOwed, Balanced;
    var agent := At(s, a.agent);
    if Next(s, a) != s {
      if agent.Handle? {
        CountedIsAlive(s, a.agent, agent.key);
      } else if agent.field.Some? {
        CountedIsAlive(s, a.agent, agent.field.value);
      }
      Moved(s, a.agent, Next(s, a).agents[a.agent], Next(s, a).keys);
    }
  }

  /** The remaining steps pay what is owed or store what was acquired. */
  lemma SettlingKeeps(s: State, a: Action)
    requires Invariant(s) && (a.DropDestroy? || a.InitDestroy? || a.InitStore? || a.DupStore? || a.CloseDestroy? || a.CloseDone?)
    ensures Invariant(Next(s, a))
  {
    hide TotalCounted, TotalOwed, Balanced;
    if Next(s, a) != s {
      Moved(s, a.agent, Next(s, a).agents[a.agent], Next(s, a).keys);
    }
  }

  /** Every atomic step keeps the invariant. */
  lemma StepKeeps(s: State, a: Action)
    requires Invariant(s)
    ensures Invariant(Next(s, a))
  {
    hide TotalCounted, TotalOwed, Balanced, Next;
    match a
    case NewKey => NewKeyKeeps(s);
    case NewContext => NewContextKeeps(s);
    case Share(_) => AcquiringKeeps(s, a);
    case InitAcquire(_, _) => AcquiringKeeps(s, a);
    case Dup(_) => AcquiringKeeps(s, a);
    case Drop(_) => ReleasingKeeps(s, a);
    case InitRelease(_) => ReleasingKeeps(s, a);
    case Close(_) => ReleasingKeeps(s, a);
    case _ => SettlingKeeps(s, a);
  }

  // ------------------------------------------------------------------ runs

  /** The state after a run of atomic steps from a start with no keys and no contexts. */
  function Run(actions: seq<Action>): (s: State)
    ensures Invariant(s)
  {
    if actions == [] then State([], [])
    else
      var s := Run(actions[..|actions| - 1]);
      StepKeeps(s, actions[|actions| - 1]);
      Next(s, actions[|actions| - 1])
  }

  /**
   * In every reachable state the count is the number of handles, contexts and
   * references in flight; no key was destroyed twice; and a key was destroyed,
   * or is about to be by exactly one agent, precisely when nobody answers for it.
   */
  lemma CountIsExact(actions: seq<Action>, k: nat)
    requires k < |Run(actions).keys|
    ensures var s := Run(actions);
      && s.keys[k].refs == TotalCounted(s.agents, k) >= 0
      && s.keys[k].destroys <= 1
      && (s.keys[k].destroys == 0 || TotalOwed(s.agents, k) == 0)
      && (s.keys[k].destroys + TotalOwed(s.agents, k) == 1 <==> TotalCounted(s.agents, k) == 0)
  {
    assert Balanced(Run(actions), k);
  }

  /** A context outside an init or a freectx, or before it released its old key, points to a key that is alive. */
  lemma ContextKeyIsAlive(actions: seq<Action>, i: nat)
    requires var s := Run(actions);
      i < |s.agents| && s.agents[i].Context? && (s.agents[i].phase.Ready? || s.agents[i].phase.Acquired?) && s.agents[i].field.Some?
    ensures var s := Run(actions);
      var k := s.agents[i].field.value;
      k < |s.keys| && s.keys[k].refs > 0 && s.keys[k].destroys == 0
  {
    CountedIsAlive(Run(actions), i, Run(actions).agents[i].field.value);
  }

  /** So is the key a context is about to store. */
  lemma IncomingKeyIsAlive(actions: seq<Action>, i: nat)
    requires var s := Run(actions);
      i < |s.agents| && s.agents[i].Context? && !s.agents[i].phase.Ready? && !s.agents[i].phase.Closing?
    ensures var s := Run(actions);
      var k := s.agents[i].phase.new_;
      k < |s.keys| && s.keys[k].refs > 0 && s.keys[k].destroys == 0
  {
    CountedIsAlive(Run(actions), i, Run(actions).agents[i].phase.new_);
  }

  /** A key whose count reached zero stays at zero whatever happens next. */
  lemma NoResurrection(actions: seq<Action>, a: Action, k: nat)
    requires k < |Run(actions).keys| && Run(actions).keys[k].refs == 0
    ensures k < |Run(actions + [a]).keys| && Run(actions + [a]).keys[k].refs == 0
    ensures Run(actions + [a]).keys[k].destroys >= Run(actions).keys[k].destroys
  {
    var s := Run(actions);
    assert (actions + [a])[..|actions|] == actions;
    assert Balanced(s, k);
    forall i | 0 <= i < |s.agents| ensures Counted(s.agents[i], k) == 0 {
      TotalsIncludeEach(s.agents, i, k);
    }
    hide TotalCounted, TotalOwed;
  }

  lemma {:induction false} NobodyCounts(agents: seq<Agent>, k: nat)
    requires forall i :: 0 <= i < |agents| ==> agents[i] == Gone
    ensures TotalCounted(agents, k) == 0 && TotalOwed(agents, k) == 0
  {
    if agents != [] {
      NobodyCounts(agents[1..], k);
    }
  }

  /** Once every handle was dropped and every context freed, every key was destroyed exactly once. */
  lemma NothingLeaks(actions: seq<Action>, k: nat)
    requires forall i :: 0 <= i < |Run(actions).agents| ==> Run(actions).agents[i] == Gone
    requires k < |Run(actions).keys|
    ensures Run(actions).keys[k] == Key(0, 1)
  {
    NobodyCounts(Run(actions).agents, k);
    assert Balanced(Run(actions), k);
  }

  /**
   * Between releasing the old key and storing the new one the pointer of a
   * context can show a destroyed key. It does exactly when the context was the
   * last to answer for the old key and the new one is another; the store ends it.
   */
  lemma StalePointerInsideInit(s: State, i: nat, h: nat)
    requires Invariant(s) && At(s, i).Context? && At(s, i).phase.Ready? && At(s, i).field.Some? && At(s, h).Handle?
    ensures var k := At(s, i).field.value;
      var m := At(s, h).key;
      var t := Next(s, InitAcquire(i, h));
      InRange(t) &&
      var u := Next(t, InitRelease(i));
      InRange(u) &&
      var v := Next(u, InitDestroy(i));
      InRange(v) &&
      var w := Next(v, InitStore(i));
      && At(v, i) == Context(Some(k), Released(m, None)) && k < |v.keys|
      && (v.keys[k].destroys > 0 <==> s.keys[k].refs == 1 && m != k)
      && At(w, i) == Context(Some(m), Ready) && m < |w.keys| && w.keys[m].destroys == 0 && w.keys[m].refs > 0
      && k < |w.keys| && (if m == k then w.keys == s.keys
                          else w.keys[m].refs == s.keys[m].refs + 1 && w.keys[k].refs == s.keys[k].refs - 1)
  {
    CountedIsAlive(s, i, At(s, i).field.value);
    CountedIsAlive(s, h, At(s, h).key);
    hide TotalCounted, TotalOwed, Balanced;
    var t := Next(s, InitAcquire(i, h));
    StepKeeps(s, InitAcquire(i, h));
    StepKeeps(t, InitRelease(i));
    StepKeeps(Next(t, InitRelease(i)), InitDestroy(i));
  }

  /** A duplicate made without interruption is one more context on the same key, and nothing else changes. */
  lemma DuplicateShares(s: State, i: nat)
    requires Invariant(s) && At(s, i).Context? && At(s, i).phase.Ready? && At(s, i).field.Some?
    ensures var k, n := At(s, i).field.value, |s.agents|;
      var t := Next(s, Dup(i));
      && InRange(t) && k < |s.keys|
      && Next(t, DupStore(n)) ==
           State(s.keys[k := Key(s.keys[k].refs + 1, 0)], s.agents + [Context(Some(k), Ready)])
  {
    CountedIsAlive(s, i, At(s, i).field.value);
    hide TotalCounted, TotalOwed, Balanced;
    StepKeeps(s, Dup(i));
  }

  /** A context freed without interruption is gone, and its key has one reference less and is destroyed if that was the last. */
  lemma CloseReleases(s: State, i: nat)
    requires Invariant(s) && At(s, i).Context? && At(s, i).phase.Ready? && At(s, i).field.Some?
    ensures var k := At(s, i).field.value;
      var t := Next(s, Close(i));
      InRange(t) && k < |s.keys| &&
      var u := Next(t, CloseDestroy(i));
      InRange(u) &&
      Next(u, CloseDone(i)) ==
        State(s.keys[k := Key(s.keys[k].refs - 1, One(s.keys[k].refs == 1))], s.agents[i := Gone])
  {
    CountedIsAlive(s, i, At(s, i).field.value);
    hide TotalCounted, TotalOwed, Balanced;
    StepKeeps(s, Close(i));
    StepKeeps(Next(s, Close(i)), CloseDestroy(i));
  }

  /** One more action at the end of a run. */
  lemma RunStep(actions: seq<Action>, a: Action, before: State)
    requires Run(actions) == before
    ensures InRange(before) && Run(actions + [a]) == Next(before, a)
  {
    assert (actions + [a])[..|actions|] == actions;
  }

  /** The run that moves context 2 from key 0, of which it is the last holder, to key 1. */
  function MovingContext(): seq<Action> {
    OnKey0() + [Drop(0)] + [InitAcquire(2, 1)] + [InitRelease(2)] + [InitDestroy(2)]
  }

  /** Two keys with a handle each, and a context initialised with key 0. */
  function OnKey0(): seq<Action> {
    TwoKeys() + [InitAcquire(2, 0)] + [InitRelease(2)] + [InitStore(2)]
  }

  function TwoKeys(): seq<Action> {
    [] + [NewKey] + [NewKey] + [NewContext]
  }

  lemma ReachTwoKeys()
    ensures Run(TwoKeys()) == State([Key(1, 0), Key(1, 0)], [Handle(0), Handle(1), Context(None, Ready)])
  {
    var r: seq<Action> := [];
    var s := State([], []);
    assert Run(r) == s;
    hide Run;
    RunStep(r, NewKey, s);
    r, s := r + [NewKey], State([Key(1, 0)], [Handle(0)]);
    RunStep(r, NewKey, s);
    r, s := r + [NewKey], State([Key(1, 0), Key(1, 0)], [Handle(0), Handle(1)]);
    RunStep(r, NewContext, s);
  }

  lemma ReachOnKey0()
    ensures Run(OnKey0()) == State([Key(2, 0), Key(1, 0)], [Handle(0), Handle(1), Context(Some(0), Ready)])
  {
    hide Run;
    ReachTwoKeys();
    var r, s := TwoKeys(), State([Key(1, 0), Key(1, 0)], [Handle(0), Handle(1), Context(None, Ready)]);
    RunStep(r, InitAcquire(2, 0), s);
    r, s := r + [InitAcquire(2, 0)], State([Key(2, 0), Key(1, 0)], [Handle(0), Handle(1), Context(None, Acquired(0))]);
    RunStep(r, InitRelease(2), s);
    r, s := r + [InitRelease(2)], State([Key(2, 0), Key(1, 0)], [Handle(0), Handle(1), Context(None, Released(0, None))]);
    RunStep(r, InitStore(2), s);
  }

  /** A reachable state in which the pointer of a context shows a destroyed key. */
  lemma StalePointerReached()
    ensures var s := Run(MovingContext());
      && s == State([Key(0, 1), Key(2, 0)], [Gone, Handle(1), Context(Some(0), Released(1, None))])
      && s.agents[2].field == Some(0) && s.keys[0].destroys > 0
  {
    ReachOnKey0();
    hide Run;
    var r, s := OnKey0(), State([Key(2, 0), Key(1, 0)], [Handle(0), Handle(1), Context(Some(0), Ready)]);
    RunStep(r, Drop(0), s);
    r, s := r + [Drop(0)], State([Key(1, 0), Key(1, 0)], [Gone, Handle(1), Context(Some(0), Ready)]);
    RunStep(r, InitAcquire(2, 1), s);
    r, s := r + [InitAcquire(2, 1)], State([Key(1, 0), Key(2, 0)], [Gone, Handle(1), Context(Some(0), Acquired(1))]);
    RunStep(r, InitRelease(2), s);
    r, s := r + [InitRelease(2)], State([Key(0, 0), Key(2, 0)], [Gone, Handle(1), Context(Some(0), Released(1, Some(0)))]);
    RunStep(r, InitDestroy(2), s);
  }
}
