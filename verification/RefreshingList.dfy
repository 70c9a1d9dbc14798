/**
  `createRefreshingList`: a shared list with explicit refresh and invalidation. Its closure variables
  change in the methods and in the callbacks of promise chains that finish whenever they like, so a
  state is taken between any two of those, and a run is any order of them.
*/
module RefreshingList {
  import opened Bytes

  type Item = string
  type Listener = nat

  datatype Snapshot = Snapshot(items: Option<seq<Item>>, loading: bool, failed: bool, error: Option<string>)

  datatype Outcome = Fulfilled(items: seq<Item>) | Rejected(message: string)

  /** The promise chain one refresh makes: `load` queued, called, its outcome handled, `finally` run. */
  datatype Chain =
    | Queued
    | Running(started: nat)
    | Handled(started: nat, outcome: Outcome)
    | Finished(started: nat, outcome: Outcome)

  /** The closure's variables, then what the rest of the page has: the chains, what each listener was last
      called with, and a clock to say which came first. */
  datatype State = State(
    snapshot: Snapshot,
    listeners: set<Listener>,
    generation: nat,
    pending: Option<nat>,
    chains: map<nat, Chain>,
    seen: map<Listener, Snapshot>,
    clock: nat,
    invalidatedAt: nat
  )

  datatype Action =
    | Refresh(force: bool)
    | Invalidate
    | Subscribe(l: Listener)
    | Unsubscribe(l: Listener)
    | CallLoad(g: nat)
    | Handle(g: nat, outcome: Outcome)
    | Finally(g: nat)

  const EMPTY: Snapshot := Snapshot(None, false, false, None)
  const MAX_MESSAGE: nat := 300

  function Start(): State {
    State(EMPTY, {}, 0, None, map[], map[], 0, 0)
  }

  function Cut(message: string): string {
    if |message| <= MAX_MESSAGE then message else message[..MAX_MESSAGE]
  }

  function Published(s: State, value: Snapshot): State {
    s.(snapshot := value, seen := s.seen + map l | l in s.listeners :: value)
  }

  function Refreshed(s: State, force: bool): State {
    if s.pending.Some? && !force then s
    else
      var g := s.generation + 1;
      Published(s.(generation := g), s.snapshot.(loading := true, failed := false, error := None))
      .(pending := Some(g), chains := s.chains[g := Queued])
  }

  function HandledSnapshot(before: Snapshot, outcome: Outcome): Snapshot {
    match outcome
    case Fulfilled(items) => Snapshot(Some(items), false, false, None)
    case Rejected(message) => before.(loading := false, failed := true, error := Some(Cut(message)))
  }

  /** `invalidate`, up to the refresh it starts when somebody listens. */
  function Invalidated(s: State): State {
    Published(s.(generation := s.generation + 1, pending := None, invalidatedAt := s.clock), EMPTY)
  }

  /** One method call or callback. A callback of a chain that is not at that point is no step. */
  function Step(before: State, a: Action): State {
    var s := before.(clock := before.clock + 1);
    match a
    case Refresh(force) => Refreshed(s, force)
    case Invalidate =>
      if s.listeners != {} then Refreshed(Invalidated(s), false) else Invalidated(s)
    case Subscribe(l) =>
      s.(listeners := s.listeners + {l}, seen := s.seen[l := s.snapshot])
    case Unsubscribe(l) =>
      s.(listeners := s.listeners - {l})
    case CallLoad(g) =>
      if g in s.chains && s.chains[g] == Queued then s.(chains := s.chains[g := Running(s.clock)]) else s
    case Handle(g, outcome) =>
      if g in s.chains && s.chains[g].Running? then
        var t := s.(chains := s.chains[g := Handled(s.chains[g].started, outcome)]);
        if g == s.generation then Published(t, HandledSnapshot(s.snapshot, outcome)) else t
      else s
    case Finally(g) =>
      if g in s.chains && s.chains[g].Handled? then
        var t := s.(chains := s.chains[g := Finished(s.chains[g].started, s.chains[g].outcome)]);
        if g == s.generation then t.(pending := None) else t
      else s
  }

  function Run(s: State, acts: seq<Action>): State
    decreases |acts|
  {
    if acts == [] then s else Run(Step(s, acts[0]), acts[1..])
  }

  // ----- what every reachable state satisfies

  /** The chain of the current generation, if it has one: an invalidation without listeners starts none. */
  function Current(s: State): Option<Chain> {
    if s.generation in s.chains then Some(s.chains[s.generation]) else None
  }

  predicate Unresolved(c: Option<Chain>) {
    c.Some? && (c.value.Queued? || c.value.Running?)
  }

  function Resolution(c: Option<Chain>): Option<Outcome> {
    if c.Some? && (c.value.Handled? || c.value.Finished?) then Some(c.value.outcome) else None
  }

  /** `items` came from the load of chain `g`, which was called after the last invalidation. */
  predicate LoadedBy(s: State, g: nat, items: seq<Item>) {
    && g in s.chains && Resolution(Some(s.chains[g])) == Some(Fulfilled(items))
    && s.chains[g].started > s.invalidatedAt
  }

  ghost predicate Inv(s: State) {
    // the current promise is kept exactly while its chain is unfinished
    && s.pending == (if Current(s).Some? && !Current(s).value.Finished? then Some(s.generation) else None)
    // loading exactly while the current generation's load is unresolved
    && (s.snapshot.loading <==> Unresolved(Current(s)))
    // failed, with its cut message, exactly when that load was rejected
    && s.snapshot.failed == (Resolution(Current(s)).Some? && Resolution(Current(s)).value.Rejected?)
    && s.snapshot.error == (if s.snapshot.failed then Some(Cut(Resolution(Current(s)).value.message)) else None)
    // its items are shown when it was fulfilled; otherwise the last ones since the invalidation, or none
    && (Resolution(Current(s)).Some? && Resolution(Current(s)).value.Fulfilled? ==>
          s.snapshot.items == Some(Resolution(Current(s)).value.items))
    && (s.snapshot.items.Some? ==> exists g :: LoadedBy(s, g, s.snapshot.items.value))
    // every listener was last called with the current snapshot
    && (forall l :: l in s.listeners ==> l in s.seen && s.seen[l] == s.snapshot)
    // bookkeeping
    && (forall g :: g in s.chains ==> g <= s.generation)
    && s.invalidatedAt <= s.clock
    && (Current(s).Some? && !Current(s).value.Queued? ==> Current(s).value.started > s.invalidatedAt)
  }

  lemma PublishedSeen(s: State, value: Snapshot)
    ensures forall l :: l in s.listeners ==> l in Published(s, value).seen && Published(s, value).seen[l] == value
  {
  }

  predicate KeepsResolution(c: Chain, d: Chain) {
    Resolution(Some(c)).Some? ==> Resolution(Some(d)) == Resolution(Some(c)) && d.started == c.started
  }

  /** A chain's items stay its own while only other chains, or later points of this one, change. */
  lemma KeepsItems(s: State, t: State)
    requires s.snapshot.items.Some? ==> exists g :: LoadedBy(s, g, s.snapshot.items.value)
    requires t.snapshot.items == s.snapshot.items && t.invalidatedAt == s.invalidatedAt
    requires forall g :: g in s.chains ==> g in t.chains && KeepsResolution(s.chains[g], t.chains[g])
    ensures t.snapshot.items.Some? ==> exists g :: LoadedBy(t, g, t.snapshot.items.value)
  {
    if s.snapshot.items.Some? {
      var g :| LoadedBy(s, g, s.snapshot.items.value);
      assert LoadedBy(t, g, t.snapshot.items.value);
    }
  }

  lemma RefreshInv(s: State, force: bool)
    requires Inv(s)
    ensures Inv(Refreshed(s, force))
  {
    var t := Refreshed(s, force);
    if t != s {
      PublishedSeen(s.(generation := s.generation + 1), t.snapshot);
      assert s.generation + 1 !in s.chains;
      KeepsItems(s, t);
    }
  }

  lemma InvalidateInv(s: State)
    requires Inv(s)
    ensures Inv(Step(s, Invalidate))
  {
    hide Inv, Published, Refreshed, Invalidated;
    TickInv(s);
    InvalidatedInv(s.(clock := s.clock + 1));
    RefreshInv(Invalidated(s.(clock := s.clock + 1)), false);
  }

  lemma InvalidatedInv(s: State)
    requires Inv(s)
    ensures Inv(Invalidated(s))
  {
    var t := Invalidated(s);
    PublishedSeen(s.(generation := s.generation + 1, pending := None, invalidatedAt := s.clock), EMPTY);
    assert Current(t) == None;
  }

  lemma HandleInv(s: State, g: nat, outcome: Outcome)
    requires Inv(s)
    ensures Inv(Step(s, Handle(g, outcome)))
  {
    var t := Step(s, Handle(g, outcome));
    if g in s.chains && s.chains[g].Running? {
      if g == s.generation {
        PublishedSeen(s, t.snapshot);
        if outcome.Fulfilled? {
          assert LoadedBy(t, g, outcome.items);
        } else {
          KeepsItems(s, t);
        }
      } else {
        KeepsItems(s, t);
      }
    } else {
      KeepsItems(s, t);
    }
  }

  lemma StepInv(s: State, a: Action)
    requires Inv(s)
    ensures Inv(Step(s, a))
  {
    hide Inv, Refreshed, Invalidated, Published, HandledSnapshot;
    match a
    case Refresh(force) =>
      TickInv(s);
      RefreshInv(s.(clock := s.clock + 1), force);
    case Invalidate => InvalidateInv(s);
    case Handle(g, outcome) => HandleInv(s, g, outcome);
    case Subscribe(_) => ListenersInv(s, a);
    case Unsubscribe(_) => ListenersInv(s, a);
    case CallLoad(g) => CallLoadInv(s, g);
    case Finally(g) => FinallyInv(s, g);
  }

  lemma ListenersInv(s: State, a: Action)
    requires Inv(s) && (a.Subscribe? || a.Unsubscribe?)
    ensures Inv(Step(s, a))
  {
    KeepsItems(s, Step(s, a));
  }

  lemma TickInv(s: State)
    requires Inv(s)
    ensures Inv(s.(clock := s.clock + 1))
  {
    KeepsItems(s, s.(clock := s.clock + 1));
  }

  lemma CallLoadInv(s: State, g: nat)
    requires Inv(s)
    ensures Inv(Step(s, CallLoad(g)))
  {
    KeepsItems(s, Step(s, CallLoad(g)));
  }

  lemma FinallyInv(s: State, g: nat)
    requires Inv(s)
    ensures Inv(Step(s, Finally(g)))
  {
    KeepsItems(s, Step(s, Finally(g)));
  }

  lemma {:induction false} RunInv(s: State, acts: seq<Action>)
    requires Inv(s)
    ensures Inv(Run(s, acts))
    decreases |acts|
  {
    hide Inv, Step;
    if acts != [] {
      StepInv(s, acts[0]);
      RunInv(Step(s, acts[0]), acts[1..]);
    }
  }

  /** In every reachable state: what is shown is nothing, or comes from a load called after the last
      invalidation; it is loading exactly while the current generation's load is unresolved; the promise
      kept is the current generation's, exactly while its chain is unfinished; every listener was last called with what
      is shown; what the current load brought is shown; and failure, with the start of its message, shows exactly when
      the current load was rejected. */
  lemma EveryReachableList(acts: seq<Action>)
    ensures var s := Run(Start(), acts);
            && (s.snapshot.items.None? || exists g :: LoadedBy(s, g, s.snapshot.items.value))
            && (s.snapshot.loading <==> Unresolved(Current(s)))
            && (s.pending.Some? <==> Current(s).Some? && !Current(s).value.Finished?)
            && (s.pending.Some? ==> s.pending.value == s.generation)
            && (Resolution(Current(s)).Some? && Resolution(Current(s)).value.Fulfilled? ==>
                  s.snapshot.items == Some(Resolution(Current(s)).value.items))
            && (forall l :: l in s.listeners ==> l in s.seen && s.seen[l] == s.snapshot)
            && (s.snapshot.failed <==> Resolution(Current(s)).Some? && Resolution(Current(s)).value.Rejected?)
            && (s.snapshot.failed ==> s.snapshot.error.Some?
                                      && FirstOf(s.snapshot.error.value, Resolution(Current(s)).value.message))
            && (!s.snapshot.failed ==> s.snapshot.error.None?)
  {
    RunInv(Start(), acts);
  }

  /** What is shown of an error message: its first 300 characters. */
  predicate FirstOf(shown: string, message: string) {
    shown <= message && |shown| == if |message| < 300 then |message| else 300
  }

  /** No permanent empty-on-error cache, over any stretch of any run without an invalidation: what was shown stays shown,
      through failures, refreshes and stale loads, until a load is fulfilled, and then something is still shown. */
  lemma FailureKeepsItems(acts: seq<Action>, more: seq<Action>)
    requires Invalidate !in more
    ensures var s, t := Run(Start(), acts), Run(Start(), acts + more);
            && (s.snapshot.items.Some? ==> t.snapshot.items.Some?)
            && ((forall i :: 0 <= i < |more| && more[i].Handle? ==> more[i].outcome.Rejected?) ==>
                t.snapshot.items == s.snapshot.items)
  {
    RunAppend(Start(), acts, more);
    ItemsKept(Run(Start(), acts), more);
  }

  lemma {:induction false} RunAppend(s: State, a: seq<Action>, b: seq<Action>)
    ensures Run(s, a + b) == Run(Run(s, a), b)
    decreases |a|
  {
    hide Step;
    if a == [] {
      assert a + b == b;
    } else {
      assert (a + b)[1..] == a[1..] + b;
      RunAppend(Step(s, a[0]), a[1..], b);
    }
  }

  lemma {:induction false} ItemsKept(s: State, more: seq<Action>)
    requires Invalidate !in more
    ensures s.snapshot.items.Some? ==> Run(s, more).snapshot.items.Some?
    ensures (forall i :: 0 <= i < |more| && more[i].Handle? ==> more[i].outcome.Rejected?) ==>
              Run(s, more).snapshot.items == s.snapshot.items
    decreases |more|
  {
    hide Step;
    if more != [] {
      assert more[0] in more;
      StepKeepsItems(s, more[0]);
      ItemsKept(Step(s, more[0]), more[1..]);
    }
  }

  lemma StepKeepsItems(s: State, a: Action)
    requires a != Invalidate
    ensures s.snapshot.items.Some? ==> Step(s, a).snapshot.items.Some?
    ensures (a.Handle? ==> a.outcome.Rejected?) ==> Step(s, a).snapshot.items == s.snapshot.items
  {
  }

  /** After a failure a plain refresh loads again exactly when the failed chain's `finally` has run; before that it
      joins the failed promise and changes nothing but the time. */
  lemma RetryExactly(acts: seq<Action>)
    requires Run(Start(), acts).snapshot.failed
    ensures var s := Run(Start(), acts);
            var t := Step(s, Refresh(false));
            && Current(s).Some?
            && (t.generation == s.generation + 1 <==> Current(s).value.Finished?)
            && (Current(s).value.Finished? ==>
                  Current(t) == Some(Queued) && t.snapshot == Snapshot(s.snapshot.items, true, false, None))
            && (!Current(s).value.Finished? ==> t == s.(clock := s.clock + 1))
  {
    RunInv(Start(), acts);
  }

  /** The window in which it does not: the failure is published by `catch`, the promise is let go by `finally`. */
  lemma RefreshInTheWindowIsLost(message: string)
    ensures var s := Run(Start(), [Refresh(false), CallLoad(1), Handle(1, Rejected(message))]);
            s.snapshot.failed && !s.snapshot.loading && Step(s, Refresh(false)).chains == s.chains
  {
    var acts := [Refresh(false), CallLoad(1), Handle(1, Rejected(message))];
    assert acts[1..][1..] == [acts[2]] && acts[1..][1..][1..] == [];
    var s1 := Step(Start(), acts[0]);
    var s2 := Step(s1, acts[1]);
    var s3 := Step(s2, acts[2]);
    assert Run(Start(), acts) == Run(s1, acts[1..]) == Run(s2, acts[1..][1..]) == s3;
  }

  /** A refresh that asks for a fresh load always starts one, whatever is under way, which is stale from then on. */
  lemma ForcedRefreshLoads(acts: seq<Action>)
    ensures var s := Run(Start(), acts);
            var t := Step(s, Refresh(true));
            && t.generation == s.generation + 1 && t.generation !in s.chains && Current(t) == Some(Queued)
            && t.pending == Some(t.generation) && t.snapshot == Snapshot(s.snapshot.items, true, false, None)
  {
    RunInv(Start(), acts);
  }

  /** A listener that has left is not called again until it comes back. */
  lemma UnsubscribedIsSilent(acts: seq<Action>, l: Listener, more: seq<Action>)
    requires Subscribe(l) !in more
    ensures var s := Run(Start(), acts + [Unsubscribe(l)]); var t := Run(s, more);
            l !in t.listeners && (l in t.seen <==> l in s.seen) && (l in s.seen ==> t.seen[l] == s.seen[l])
  {
    var before := Run(Start(), acts);
    RunAppend(Start(), acts, [Unsubscribe(l)]);
    assert [Unsubscribe(l)][1..] == [];
    assert Run(before, [Unsubscribe(l)]) == Run(Step(before, Unsubscribe(l)), []) == Step(before, Unsubscribe(l));
    StaysSilent(Step(before, Unsubscribe(l)), l, more);
  }

  lemma {:induction false} StaysSilent(s: State, l: Listener, acts: seq<Action>)
    requires l !in s.listeners && Subscribe(l) !in acts
    ensures var t := Run(s, acts);
            l !in t.listeners && (l in t.seen <==> l in s.seen) && (l in s.seen ==> t.seen[l] == s.seen[l])
    decreases |acts|
  {
    if acts != [] {
      assert acts[0] in acts;
      SilentStep(s, l, acts[0]);
      hide Step;
      StaysSilent(Step(s, acts[0]), l, acts[1..]);
    }
  }

  lemma SilentStep(s: State, l: Listener, a: Action)
    requires l !in s.listeners && a != Subscribe(l)
    ensures var t := Step(s, a);
            l !in t.listeners && (l in t.seen <==> l in s.seen) && (l in s.seen ==> t.seen[l] == s.seen[l])
  {
  }

  /** Invalidation drops what was shown at once, makes every load under way stale, and loads again exactly when
      somebody listens. */
  lemma InvalidationReloads(acts: seq<Action>)
    ensures var s := Run(Start(), acts);
            var t := Step(s, Invalidate);
            && t.snapshot.items.None? && t.generation !in s.chains
            && (s.listeners != {} ==> Current(t) == Some(Queued) && t.snapshot.loading && t.pending == Some(t.generation))
            && (s.listeners == {} ==> Current(t) == None && t.snapshot == EMPTY && t.pending == None)
  {
    RunInv(Start(), acts);
    StepInv(Run(Start(), acts), Invalidate);
  }

  // ----- a stale load interferes with nothing

  /** A callback of chain `g`. */
  predicate IsCallback(a: Action, g: nat) {
    (a.CallLoad? || a.Handle? || a.Finally?) && a.g == g
  }

  /** The run with the callbacks of chain `g` taken out. */
  function WithoutChain(acts: seq<Action>, g: nat): seq<Action> {
    if acts == [] then []
    else (if IsCallback(acts[0], g) then [] else [acts[0]]) + WithoutChain(acts[1..], g)
  }

  /** Chains at the same point, whenever they got there. */
  predicate SamePoint(c: Chain, d: Chain) {
    match c
    case Queued => d.Queued?
    case Running(_) => d.Running?
    case Handled(_, outcome) => d.Handled? && d.outcome == outcome
    case Finished(_, outcome) => d.Finished? && d.outcome == outcome
  }

  /** Two lists nobody can tell apart, but for the time and for a chain `g` that is no longer current. */
  ghost predicate Alike(s: State, t: State, g: nat) {
    && s.snapshot == t.snapshot && s.listeners == t.listeners && s.generation == t.generation
    && s.pending == t.pending && s.seen == t.seen && g < s.generation
    && s.chains.Keys == t.chains.Keys
    && forall h :: h in s.chains && h != g ==> SamePoint(s.chains[h], t.chains[h])
  }

  lemma AlikePublished(s: State, t: State, g: nat, value: Snapshot)
    requires Alike(s, t, g)
    ensures Alike(Published(s, value), Published(t, value), g)
  {
  }

  lemma AlikeRefreshed(s: State, t: State, g: nat, force: bool)
    requires Alike(s, t, g)
    ensures Alike(Refreshed(s, force), Refreshed(t, force), g)
  {
    var n := s.generation + 1;
    var value := s.snapshot.(loading := true, failed := false, error := None);
    AlikePublished(s.(generation := n), t.(generation := n), g, value);
    hide Published;
  }

  lemma AlikeInvalidated(s: State, t: State, g: nat)
    requires Alike(s, t, g)
    ensures Alike(Invalidated(s), Invalidated(t), g)
  {
    var n := s.generation + 1;
    AlikePublished(s.(generation := n, pending := None, invalidatedAt := s.clock),
                   t.(generation := n, pending := None, invalidatedAt := t.clock), g, EMPTY);
  }

  lemma AlikeHandled(s: State, t: State, g: nat, h: nat, outcome: Outcome)
    requires Alike(s, t, g) && h != g
    ensures Alike(Step(s, Handle(h, outcome)), Step(t, Handle(h, outcome)), g)
  {
    if h in s.chains && s.chains[h].Running? {
      var s1 := s.(clock := s.clock + 1, chains := s.chains[h := Handled(s.chains[h].started, outcome)]);
      var t1 := t.(clock := t.clock + 1, chains := t.chains[h := Handled(t.chains[h].started, outcome)]);
      AlikePublished(s1, t1, g, HandledSnapshot(s.snapshot, outcome));
    }
    hide Published;
  }

  lemma AlikeStep(s: State, t: State, g: nat, a: Action)
    requires Alike(s, t, g) && !IsCallback(a, g)
    ensures Alike(Step(s, a), Step(t, a), g)
  {
    hide Published, Refreshed, Invalidated, HandledSnapshot;
    var s1, t1 := s.(clock := s.clock + 1), t.(clock := t.clock + 1);
    match a
    case Refresh(force) => AlikeRefreshed(s1, t1, g, force);
    case Invalidate =>
      AlikeInvalidated(s1, t1, g);
      AlikeRefreshed(Invalidated(s1), Invalidated(t1), g, false);
    case Handle(h, outcome) => AlikeHandled(s, t, g, h, outcome);
    case _ =>
  }

  lemma AlikeCallback(s: State, t: State, g: nat, a: Action)
    requires Alike(s, t, g) && IsCallback(a, g)
    ensures Alike(Step(s, a), t, g)
  {
  }

  lemma {:induction false} AlikeRuns(s: State, t: State, g: nat, acts: seq<Action>)
    requires Alike(s, t, g)
    ensures Alike(Run(s, acts), Run(t, WithoutChain(acts, g)), g)
    decreases |acts|
  {
    hide Step, Alike;
    if acts != [] {
      var rest := WithoutChain(acts[1..], g);
      if IsCallback(acts[0], g) {
        AlikeCallback(s, t, g, acts[0]);
        AlikeRuns(Step(s, acts[0]), t, g, acts[1..]);
        assert WithoutChain(acts, g) == rest;
      } else {
        AlikeStep(s, t, g, acts[0]);
        AlikeRuns(Step(s, acts[0]), Step(t, acts[0]), g, acts[1..]);
        assert WithoutChain(acts, g) == [acts[0]] + rest && ([acts[0]] + rest)[1..] == rest;
      }
    }
  }

  /** A load that is no longer the current generation's might as well never end: taking its callbacks out of any
      run changes nothing anyone can see, at no time. */
  lemma StaleLoadIsIgnored(s: State, g: nat, acts: seq<Action>)
    requires g < s.generation
    ensures var with, without := Run(s, acts), Run(s, WithoutChain(acts, g));
            && with.snapshot == without.snapshot && with.pending == without.pending
            && with.seen == without.seen && with.generation == without.generation && with.listeners == without.listeners
  {
    AlikeRuns(s, s, g, acts);
  }

  /** The object the web UI uses. The promise of a refresh is named by the generation it was made for. */
  class List {
    var snapshot: Snapshot
    var listeners: set<Listener>
    var generation: nat
    var pending: Option<nat>
    ghost var chains: map<nat, Chain>
    ghost var seen: map<Listener, Snapshot>
    ghost var clock: nat
    ghost var invalidatedAt: nat

    ghost function Value(): State
      reads this
    {
      State(snapshot, listeners, generation, pending, chains, seen, clock, invalidatedAt)
    }

    constructor ()
      ensures Value() == Start()
    {
      snapshot, listeners, generation, pending := EMPTY, {}, 0, None;
      chains, seen, clock, invalidatedAt := map[], map[], 0, 0;
    }

    /** `publish`: set the snapshot, then call each listener with it. */
    method Publish(value: Snapshot)
      modifies this`snapshot, this`seen
      ensures Value() == Published(old(Value()), value)
    {
      snapshot := value;
      var left := listeners;
      while left != {}
        invariant left <= listeners && snapshot == value
        invariant seen.Keys == old(seen).Keys + (listeners - left)
        invariant forall l :: l in seen ==> seen[l] == (if l in listeners - left then value else old(seen)[l])
        decreases left
      {
        var l :| l in left;
        left := left - {l};
        seen := seen[l := snapshot];
      }
      assert seen == Published(old(Value()), value).seen;
    }

    method RefreshNow(force: bool) returns (promise: nat)
      requires Inv(Value())
      modifies this
      ensures Value() == Step(old(Value()), Refresh(force)) && Inv(Value())
      ensures pending == Some(promise) && promise == generation
      ensures !force && old(pending).Some? ==> promise == old(generation)
    {
      StepInv(Value(), Refresh(force));
      clock := clock + 1;
      promise := StartRefresh(force);
    }

    /** `refresh`, also as `invalidate` calls it. */
    method StartRefresh(force: bool) returns (promise: nat)
      modifies this
      ensures Value() == Refreshed(old(Value()), force)
      ensures pending == Some(promise)
    {
      if pending.Some? && !force {
        return pending.value;
      }
      generation := generation + 1;
      var current := generation;
      Publish(snapshot.(loading := true, failed := false, error := None));
      chains := chains[current := Queued];
      pending := Some(current);
      promise := current;
    }

    method InvalidateNow()
      requires Inv(Value())
      modifies this
      ensures Value() == Step(old(Value()), Invalidate) && Inv(Value())
    {
      hide Inv, Published, Refreshed;
      StepInv(Value(), Invalidate);
      clock := clock + 1;
      generation := generation + 1;
      pending := None;
      invalidatedAt := clock;
      Publish(EMPTY);
      if listeners != {} {
        var _ := StartRefresh(false);
      }
    }

    method SubscribeNow(l: Listener)
      requires Inv(Value())
      modifies this
      ensures Value() == Step(old(Value()), Subscribe(l)) && Inv(Value())
    {
      hide Inv;
      StepInv(Value(), Subscribe(l));
      clock := clock + 1;
      listeners := listeners + {l};
      seen := seen[l := snapshot];
    }

    method UnsubscribeNow(l: Listener)
      requires Inv(Value())
      modifies this
      ensures Value() == Step(old(Value()), Unsubscribe(l)) && Inv(Value())
    {
      hide Inv;
      StepInv(Value(), Unsubscribe(l));
      clock := clock + 1;
      listeners := listeners - {l};
    }

    /** The queued microtask of chain `current` calls `load`. */
    method OnCallLoad(current: nat)
      requires Inv(Value()) && current in chains && chains[current] == Queued
      modifies this
      ensures Value() == Step(old(Value()), CallLoad(current)) && Inv(Value())
    {
      hide Inv;
      StepInv(Value(), CallLoad(current));
      clock := clock + 1;
      chains := chains[current := Running(clock)];
    }

    /** The `then` or `catch` callback of chain `current`. */
    method OnOutcome(current: nat, outcome: Outcome)
      requires Inv(Value()) && current in chains && chains[current].Running?
      modifies this
      ensures Value() == Step(old(Value()), Handle(current, outcome)) && Inv(Value())
    {
      hide Inv;
      StepInv(Value(), Handle(current, outcome));
      clock := clock + 1;
      chains := chains[current := Handled(chains[current].started, outcome)];
      if current == generation {
        match outcome
        case Fulfilled(items) =>
          Publish(Snapshot(Some(items), false, false, None));
        case Rejected(message) =>
          Publish(snapshot.(loading := false, failed := true, error := Some(Cut(message))));
      }
    }

    /** The `finally` callback of chain `current`. */
    method OnFinally(current: nat)
      requires Inv(Value()) && current in chains && chains[current].Handled?
      modifies this
      ensures Value() == Step(old(Value()), Finally(current)) && Inv(Value())
    {
      hide Inv;
      StepInv(Value(), Finally(current));
      clock := clock + 1;
      chains := chains[current := Finished(chains[current].started, chains[current].outcome)];
      if current == generation {
        pending := None;
      }
    }
  }
}
