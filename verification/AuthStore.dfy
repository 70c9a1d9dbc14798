/**
  The credential store that every AtomCode process shares: one `auth.toml`, one exclusive
  `auth-refresh.lock`, and a broker that hands out tokens. The protocol is a state machine whose
  steps are the points at which another process can get in between: each unlocked look at the file,
  each acquisition and release of the lock, each read, write and removal made under it, the sending of
  a refresh request, the broker's granting of it, and the arrival of the answer. A request that was
  sent can be granted at any time, also when its sender has given up waiting or has died.
*/
module AuthStore {
  import opened Bytes

  /** Tokens and account ids are only ever compared for equality. */
  type Token = nat
  type Account = nat
  type Pid = nat

  /** `AuthInfo`, without the fields no decision of the protocol looks at. */
  datatype Auth = Auth(access: Token, refresh: Option<Token>, user: Account)

  /** The two kinds of token a credential carries; what holds for both is said once. */
  datatype Kind = Access | Refresh

  function Tok(kind: Kind, auth: Auth): Option<Token> {
    if kind == Access then Some(auth.access) else auth.refresh
  }

  /** What `refresh_auth_if_current` is called with. */
  datatype Request = Request(rejected: Token, expected: Option<Account>)

  /** A transaction on the store: `refresh_auth_if_current`, `save_auth` after a login, `logout`. */
  datatype Op =
    | RefreshIfCurrent(req: Request)
    | SaveLogin(auth: Auth)
    | Logout

  datatype Result = Returned(auth: Auth) | Finished | Failed

  /** Where a process is. From `Holding` to `Leaving` it holds the lock. */
  datatype Proc =
    | Idle
    | Waiting(op: Op)
    | Holding(op: Op)
    | Calling(req: Request, auth: Auth)              // about to send
    | Awaiting(req: Request, auth: Auth, call: nat)  // sent, no answer yet
    | Granted(req: Request, grant: nat)              // has the answer, about to save
    | Leaving(op: Op, result: Result)

  /** A refresh request as it was sent, and the grant the broker gave it, if it has. */
  datatype Call = Call(rejected: Token, auth: Auth, granted: Option<nat>)

  /** A refresh the broker granted: `from` was sent, `to` is what the sender makes of the answer. */
  datatype Grant = Grant(rejected: Token, from: Auth, to: Auth)

  /** What the broker answers a refresh with; everything but the access token is optional. */
  datatype Response = Response(access: Token, refresh: Option<Token>, user: Option<Account>)

  /** How a write of the file ends. The rename is atomic; permissions are set after it and can fail. */
  datatype Write = Written | WrittenThenFailed | NotWritten

  /** A change of the file, as the history records it. */
  datatype Commit = LoggedIn(auth: Auth) | Refreshed(from: Auth, to: Auth) | LoggedOut

  /** The file and the lock, every process, and the history: the requests sent, the grants, the grants whose
      result was written to the file, the changes of the file, and all tokens ever issued. */
  datatype State = State(
    store: Option<Auth>,
    lock: Option<Pid>,
    procs: map<Pid, Proc>,
    calls: seq<Call>,
    grants: seq<Grant>,
    saved: set<nat>,
    log: seq<Commit>,
    issued: set<(Kind, Token)>
  ) {
    function At(p: Pid): Proc {
      if p in procs then procs[p] else Idle
    }

    function Put(p: Pid, proc: Proc): State {
      this.(procs := procs[p := proc])
    }
  }

  datatype Action =
    | BeginRefresh(p: Pid, rejected: Token, expected: Option<Account>) // with a token that was rejected
    | BeginGetValid(p: Pid)              // get_valid_auth_info, on a snapshot it finds expired
    | BeginLogin(p: Pid, auth: Auth)     // the broker issues a login's credential
    | BeginLogout(p: Pid)
    | Acquire(p: Pid)
    | Read(p: Pid, readable: bool)       // the re-read under the lock
    | Send(p: Pid)                       // the refresh request goes out
    | GrantCall(call: nat, r: Response)  // the broker grants a request that was sent
    | Receive(p: Pid)                    // the answer of a granted request arrives and parses
    | GiveUp(p: Pid)                     // a refusal, a timeout, a cut-off or unparseable answer
    | WriteFile(p: Pid, how: Write)
    | RemoveFile(p: Pid, removed: bool)
    | Release(p: Pid)
    | Crash(p: Pid)                      // the process dies; the system drops its lock

  predicate Unissued(s: State, kind: Kind, t: Option<Token>) {
    t.Some? ==> (kind, t.value) !in s.issued
  }

  function Issue(issued: set<(Kind, Token)>, access: Token, refresh: Option<Token>): set<(Kind, Token)> {
    issued + {(Access, access)} + (if refresh.Some? then {(Refresh, refresh.value)} else {})
  }

  /** `refresh_access_token_unlocked`'s new credential: what the answer leaves out is kept. */
  function Merge(auth: Auth, r: Response): Auth {
    Auth(r.access,
         if r.refresh.Some? then r.refresh else auth.refresh,
         if r.user.Some? then r.user.value else auth.user)
  }

  /** The decision of `refresh_auth_if_current` after its re-read. */
  function Decide(req: Request, stored: Option<Auth>): Proc {
    var op := RefreshIfCurrent(req);
    if stored.None? then Leaving(op, Failed)
    else if req.expected.Some? && stored.value.user != req.expected.value then Leaving(op, Failed)
    else if stored.value.access != req.rejected then Leaving(op, Returned(stored.value))
    else if stored.value.refresh.None? then Leaving(op, Failed)
    else Calling(req, stored.value)
  }

  /** One step, or `None` where the action is not possible. The broker never issues a token twice and
      grants a request once. */
  function Step(s: State, a: Action): Option<State> {
    match a
    case BeginRefresh(p, rejected, expected) =>
      if s.At(p) != Idle then None else Some(s.Put(p, Waiting(RefreshIfCurrent(Request(rejected, expected)))))
    case BeginGetValid(p) =>
      if s.At(p) != Idle || s.store.None? then None
      else Some(s.Put(p, Waiting(RefreshIfCurrent(Request(s.store.value.access, None)))))
    case BeginLogin(p, auth) =>
      if s.At(p) != Idle || !Unissued(s, Access, Some(auth.access)) || !Unissued(s, Refresh, auth.refresh) then None
      else Some(s.Put(p, Waiting(SaveLogin(auth))).(issued := Issue(s.issued, auth.access, auth.refresh)))
    case BeginLogout(p) =>
      if s.At(p) != Idle then None
      else if s.store.None? then Some(s)
      else Some(s.Put(p, Waiting(Logout)))
    case Acquire(p) =>
      if !s.At(p).Waiting? || s.lock.Some? then None
      else Some(s.Put(p, Holding(s.At(p).op)).(lock := Some(p)))
    case Read(p, readable) =>
      if !s.At(p).Holding? || !s.At(p).op.RefreshIfCurrent? then None
      else Some(s.Put(p, Decide(s.At(p).op.req, if readable then s.store else None)))
    case Send(p) =>
      if !s.At(p).Calling? then None
      else
        var Calling(req, auth) := s.At(p);
        Some(s.Put(p, Awaiting(req, auth, |s.calls|)).(calls := s.calls + [Call(req.rejected, auth, None)]))
    case GrantCall(k, r) =>
      if k >= |s.calls| || s.calls[k].granted.Some? || !Unissued(s, Access, Some(r.access))
         || !Unissued(s, Refresh, r.refresh) then None
      else
        var call := s.calls[k];
        Some(s.(calls := s.calls[k := call.(granted := Some(|s.grants|))],
                grants := s.grants + [Grant(call.rejected, call.auth, Merge(call.auth, r))],
                issued := Issue(s.issued, r.access, r.refresh)))
    case Receive(p) =>
      if !s.At(p).Awaiting? || s.At(p).call >= |s.calls| || s.calls[s.At(p).call].granted.None? then None
      else Some(s.Put(p, Granted(s.At(p).req, s.calls[s.At(p).call].granted.value)))
    case GiveUp(p) =>
      if !s.At(p).Awaiting? then None else Some(s.Put(p, Leaving(RefreshIfCurrent(s.At(p).req), Failed)))
    case WriteFile(p, how) =>
      var proc := s.At(p);
      if proc.Granted? && proc.grant < |s.grants| then
        var op, grant := RefreshIfCurrent(proc.req), s.grants[proc.grant];
        if how == NotWritten then Some(s.Put(p, Leaving(op, Failed)))
        else Some(s.Put(p, Leaving(op, if how == Written then Returned(grant.to) else Failed))
                   .(store := Some(grant.to), saved := s.saved + {proc.grant},
                       log := s.log + [Refreshed(grant.from, grant.to)]))
      else if proc.Holding? && proc.op.SaveLogin? then
        if how == NotWritten then Some(s.Put(p, Leaving(proc.op, Failed)))
        else Some(s.Put(p, Leaving(proc.op, if how == Written then Finished else Failed))
                   .(store := Some(proc.op.auth), log := s.log + [LoggedIn(proc.op.auth)]))
      else None
    case RemoveFile(p, removed) =>
      if s.At(p) != Holding(Logout) then None
      else if s.store.None? then Some(s.Put(p, Leaving(Logout, Finished)))
      else if !removed then Some(s.Put(p, Leaving(Logout, Failed)))
      else Some(s.Put(p, Leaving(Logout, Finished)).(store := None, log := s.log + [LoggedOut]))
    case Release(p) =>
      if !s.At(p).Leaving? then None else Some(s.Put(p, Idle).(lock := None))
    case Crash(p) =>
      Some(s.Put(p, Idle).(lock := if s.lock == Some(p) then None else s.lock))
  }

  /** A start: a file left by an earlier login, or none, and no process under way. */
  ghost predicate Init(s: State) {
    && s.lock.None? && s.procs == map[] && s.calls == [] && s.grants == [] && s.saved == {}
    && s.log == (if s.store.Some? then [LoggedIn(s.store.value)] else [])
    && (s.store.Some? ==> Issue({}, s.store.value.access, s.store.value.refresh) <= s.issued)
  }

  /** A run: any interleaving of any number of processes and the broker. */
  function Run(s: State, acts: seq<Action>): Option<State>
    decreases |acts|
  {
    if acts == [] then Some(s)
    else match Step(s, acts[0])
         case None => None
         case Some(t) => Run(t, acts[1..])
  }

  // ----- the invariant

  predicate Critical(proc: Proc) {
    proc.Holding? || proc.Calling? || proc.Awaiting? || proc.Granted? || proc.Leaving?
  }

  /** The lock has one holder, and it is the process between acquiring and releasing. */
  ghost predicate Exclusive(s: State) {
    forall p: Pid :: Critical(s.At(p)) <==> s.lock == Some(p)
  }

  /** Grant `i` answers the request `req`, made for `auth`, and has not been written. */
  ghost predicate Answers(s: State, req: Request, auth: Auth, i: nat) {
    i < |s.grants| && i !in s.saved && s.grants[i].rejected == req.rejected && s.grants[i].from == auth
  }

  /** A caller that named an account is about the credential of that account. */
  ghost predicate Expected(req: Request, auth: Auth) {
    req.expected.Some? ==> auth.user == req.expected.value
  }

  /** `auth` is the written result of a refresh of the account that `req` named. */
  ghost predicate RefreshResult(s: State, req: Request, auth: Auth, i: nat) {
    && i in s.saved && i < |s.grants| && s.grants[i].to == auth && s.grants[i].rejected == req.rejected
    && Expected(req, s.grants[i].from)
  }

  /** What a process that has read the file relies on: nobody changed it since. */
  ghost predicate Settled(s: State, proc: Proc) {
    match proc
    case Calling(req, auth) =>
      s.store == Some(auth) && auth.refresh.Some? && req.rejected == auth.access && Expected(req, auth)
    case Awaiting(req, auth, k) =>
      && s.store == Some(auth) && auth.refresh.Some? && req.rejected == auth.access && Expected(req, auth)
      && k < |s.calls| && s.calls[k].auth == auth && s.calls[k].rejected == req.rejected
      && (s.calls[k].granted.Some? ==> Answers(s, req, auth, s.calls[k].granted.value))
    case Granted(req, i) =>
      && i < |s.grants| && s.store == Some(s.grants[i].from) && Answers(s, req, s.grants[i].from, i)
      && Expected(req, s.grants[i].from)
    case Leaving(op, Returned(auth)) =>
      && s.store == Some(auth)
      && op.RefreshIfCurrent? && op.req.rejected != auth.access
      && (Expected(op.req, auth) || exists i: nat :: RefreshResult(s, op.req, auth, i))
    case Leaving(op, Finished) =>
      (op.SaveLogin? && s.store == Some(op.auth)) || (op.Logout? && s.store.None?)
    case _ => true
  }

  ghost predicate Reliant(s: State) {
    forall p: Pid :: Settled(s, s.At(p))
  }

  predicate Changed(kind: Kind, g: Grant) {
    Tok(kind, g.to) != Tok(kind, g.from)
  }

  /** Where a token that was issued and not yet written to the file is: with a login, or in a grant. */
  datatype Slot = OfLogin(p: Pid) | OfGrant(i: nat)

  function Held(kind: Kind, s: State, slot: Slot): Option<Token> {
    match slot
    case OfLogin(p) =>
      (match s.At(p)
       case Waiting(SaveLogin(auth)) => Tok(kind, auth)
       case Holding(SaveLogin(auth)) => Tok(kind, auth)
       case _ => None)
    case OfGrant(i) =>
      if i < |s.grants| && i !in s.saved && Changed(kind, s.grants[i]) then Tok(kind, s.grants[i].to) else None
  }

  predicate Issued(s: State, kind: Kind, t: Option<Token>) {
    t.Some? ==> (kind, t.value) in s.issued
  }

  predicate Differ(t: Option<Token>, u: Option<Token>) {
    t.Some? ==> t != u
  }

  function Stored(kind: Kind, s: State): Option<Token> {
    if s.store.None? then None else Tok(kind, s.store.value)
  }

  /** Every token in play was issued, and a token not yet written is nobody else's. */
  ghost predicate Owned(s: State, kind: Kind) {
    && Issued(s, kind, Stored(kind, s))
    && (forall x: Slot :: Issued(s, kind, Held(kind, s, x)))
    && (forall x: Slot :: Differ(Held(kind, s, x), Stored(kind, s)))
    && (forall x: Slot, y: Slot :: x != y ==> Differ(Held(kind, s, x), Held(kind, s, y)))
  }

  /** A token that was sent is no longer held by anyone who could write it, and once the result of a grant that
      replaced it is in the file, the file does not hold it either. */
  ghost predicate Spent(s: State, kind: Kind) {
    && (forall k :: 0 <= k < |s.calls| ==>
          Tok(kind, s.calls[k].auth).Some? && Issued(s, kind, Tok(kind, s.calls[k].auth)))
    && (forall k, x: Slot :: 0 <= k < |s.calls| ==> Differ(Held(kind, s, x), Tok(kind, s.calls[k].auth)))
    && (forall i :: i in s.saved && i < |s.grants| && Changed(kind, s.grants[i]) ==>
          Stored(kind, s) != Tok(kind, s.grants[i].from))
  }

  /** Two grants that both replaced one token. */
  ghost predicate BoughtTwice(s: State, kind: Kind, i: nat, j: nat) {
    && i < |s.grants| && j < |s.grants|
    && Changed(kind, s.grants[i]) && Changed(kind, s.grants[j])
    && Tok(kind, s.grants[i].from) == Tok(kind, s.grants[j].from)
  }

  /** No token was replaced in the file twice. */
  ghost predicate ReplacedOnce(s: State, kind: Kind) {
    forall i, j :: i in s.saved && j in s.saved && i != j ==> !BoughtTwice(s, kind, i, j)
  }

  ghost predicate Tokens(s: State, kind: Kind) {
    Owned(s, kind) && Spent(s, kind) && ReplacedOnce(s, kind)
  }

  /** The file as its history leaves it. */
  function Replay(log: seq<Commit>): Option<Auth> {
    if log == [] then None
    else match log[|log| - 1]
         case LoggedIn(auth) => Some(auth)
         case Refreshed(_, to) => Some(to)
         case LoggedOut => None
  }

  /** A serial history: each refresh replaced exactly the credential that was there. */
  ghost predicate Serial(log: seq<Commit>) {
    forall i :: 0 <= i < |log| && log[i].Refreshed? ==> Replay(log[..i]) == Some(log[i].from)
  }

  /** The history is serial and ends in the file as it is. */
  ghost predicate Serialised(s: State) {
    Serial(s.log) && Replay(s.log) == s.store
  }

  ghost predicate WasSent(s: State, auth: Auth) {
    exists k :: 0 <= k < |s.calls| && s.calls[k].auth == auth
  }

  /** Requests asked with the access token that was rejected. */
  ghost predicate CallsBooked(s: State) {
    forall k :: 0 <= k < |s.calls| ==> s.calls[k].rejected == s.calls[k].auth.access
  }

  /** Grants belong to requests, and each changes the access token that was rejected. */
  ghost predicate GrantsBooked(s: State) {
    && (forall i :: 0 <= i < |s.grants| ==>
          Changed(Access, s.grants[i]) && s.grants[i].rejected == s.grants[i].from.access)
    && (forall i :: 0 <= i < |s.grants| ==> WasSent(s, s.grants[i].from))
    && (forall i :: i in s.saved ==> i < |s.grants|)
  }

  ghost predicate Books(s: State) {
    CallsBooked(s) && GrantsBooked(s)
  }

  ghost predicate Inv(s: State) {
    Exclusive(s) && Reliant(s) && Tokens(s, Access) && Tokens(s, Refresh) && Serialised(s) && Books(s)
  }

  // ----- every step keeps it

  lemma InitInv(s: State)
    requires Init(s)
    ensures Inv(s)
  {
  }

  /** Whose step it is. */
  function Mover(a: Action): Option<Pid> {
    if a.GrantCall? then None else Some(a.p)
  }

  lemma StepMoves(s: State, a: Action, t: State)
    requires Step(s, a) == Some(t)
    ensures forall q: Pid :: Some(q) != Mover(a) ==> t.At(q) == s.At(q)
    ensures s.issued <= t.issued && s.saved <= t.saved
    ensures |s.grants| <= |t.grants| <= |s.grants| + 1 && t.grants[..|s.grants|] == s.grants
    ensures |s.calls| <= |t.calls|
  {
  }

  lemma StepExclusive(s: State, a: Action, t: State)
    requires Exclusive(s) && Step(s, a) == Some(t)
    ensures Exclusive(t)
  {
    StepMoves(s, a, t);
  }

  /** Other processes' steps, and the broker's, leave what a process relies on as it was. */
  lemma StepOthersSettled(s: State, a: Action, t: State, q: Pid)
    requires Exclusive(s) && Reliant(s) && Books(s) && Step(s, a) == Some(t) && Some(q) != Mover(a)
    ensures Settled(t, t.At(q))
  {
    StepMoves(s, a, t);
    var proc := s.At(q);
    assert Settled(s, proc);
    assert Critical(proc) <==> s.lock == Some(q);
    if a.GrantCall? {
      assert t.store == s.store && t.saved == s.saved;
      if proc.Leaving? && proc.result.Returned? && !Expected(proc.op.req, proc.result.auth) {
        var i: nat :| RefreshResult(s, proc.op.req, proc.result.auth, i);
        assert RefreshResult(t, proc.op.req, proc.result.auth, i);
      }
    } else if Critical(proc) {
      assert Critical(s.At(a.p)) <==> s.lock == Some(a.p);
      assert t.store == s.store && t.saved == s.saved && t.grants == s.grants && t.calls == s.calls;
      if proc.Leaving? && proc.result.Returned? && !Expected(proc.op.req, proc.result.auth) {
        var i: nat :| RefreshResult(s, proc.op.req, proc.result.auth, i);
        assert RefreshResult(t, proc.op.req, proc.result.auth, i);
      }
    }
  }

  lemma StepOwnSettled(s: State, a: Action, t: State)
    requires Reliant(s) && Books(s) && Step(s, a) == Some(t) && Mover(a).Some?
    ensures Settled(t, t.At(a.p))
  {
    var proc := s.At(a.p);
    assert Settled(s, proc);
    if a.WriteFile? && proc.Granted? && a.how == Written {
      var g := s.grants[proc.grant];
      assert RefreshResult(t, proc.req, g.to, proc.grant);
    }
  }

  lemma StepReliant(s: State, a: Action, t: State)
    requires Exclusive(s) && Reliant(s) && Books(s) && Step(s, a) == Some(t)
    ensures Reliant(t)
  {
    hide Exclusive, Reliant, Books, Step, Settled;
    forall q: Pid
      ensures Settled(t, t.At(q))
    {
      if Some(q) == Mover(a) {
        StepOwnSettled(s, a, t);
      } else {
        StepOthersSettled(s, a, t, q);
      }
    }
    ReliantIs(t);
  }

  lemma ReliantIs(s: State)
    requires forall p: Pid :: Settled(s, s.At(p))
    ensures Reliant(s)
  {
  }

  lemma StepSerialised(s: State, a: Action, t: State)
    requires Reliant(s) && Serialised(s) && Step(s, a) == Some(t)
    ensures Serialised(t)
  {
    if t.log != s.log {
      assert Settled(s, s.At(a.p));
      var last := t.log[|s.log|];
      assert t.log == s.log + [last];
      forall i | 0 <= i < |t.log| && t.log[i].Refreshed?
        ensures Replay(t.log[..i]) == Some(t.log[i].from)
      {
        assert t.log[..i] == s.log[..i];
        assert s.log[..|s.log|] == s.log;
      }
    }
  }

  lemma StepCallsBooked(s: State, a: Action, t: State)
    requires Reliant(s) && CallsBooked(s) && Step(s, a) == Some(t)
    ensures CallsBooked(t)
  {
    if a.Send? {
      assert Settled(s, s.At(a.p));
    }
  }

  lemma StepGrantsBooked(s: State, a: Action, t: State)
    requires Owned(s, Access) && Spent(s, Access) && Books(s) && Reliant(s) && Step(s, a) == Some(t)
    ensures GrantsBooked(t)
  {
    hide Owned, Spent, Step;
    forall i | 0 <= i < |t.grants|
      ensures Changed(Access, t.grants[i]) && t.grants[i].rejected == t.grants[i].from.access
      ensures WasSent(t, t.grants[i].from)
    {
      StepGrants(s, a, t, i);
    }
    StepMoves(s, a, t);
    forall i | i in t.saved
      ensures i < |t.grants|
    {
      if i !in s.saved {
        StepSaves(s, a, t, i);
      }
    }
  }

  /** A grant is of a request, and brings an access token never issued before. */
  lemma StepGrants(s: State, a: Action, t: State, i: nat)
    requires Owned(s, Access) && Spent(s, Access) && Books(s) && Step(s, a) == Some(t) && i < |t.grants|
    ensures Changed(Access, t.grants[i]) && t.grants[i].rejected == t.grants[i].from.access
    ensures WasSent(t, t.grants[i].from)
  {
    if i < |s.grants| {
      assert t.grants[i] == s.grants[i];
      assert WasSent(s, s.grants[i].from);
      var k :| 0 <= k < |s.calls| && s.calls[k].auth == s.grants[i].from;
      assert t.calls[k].auth == t.grants[i].from;
    } else {
      assert t.calls[a.call].auth == t.grants[i].from;
    }
  }

  // ----- tokens

  /** The slot a step fills or empties. */
  ghost function SlotOf(s: State, a: Action): Slot {
    if a.GrantCall? then OfGrant(|s.grants|)
    else if s.At(a.p).Granted? then OfGrant(s.At(a.p).grant)
    else OfLogin(a.p)
  }

  /** A step leaves every other slot alone; its own it fills with a token never issued before, or empties; and
      what the file then holds is what it held, nothing, or what that slot held. */
  ghost predicate MovesTokens(s: State, t: State, kind: Kind, z: Slot) {
    && (forall x: Slot :: x != z ==> Held(kind, t, x) == Held(kind, s, x) || Held(kind, t, x) == None)
    && (var f := Held(kind, t, z);
        f == None || f == Held(kind, s, z) || (Unissued(s, kind, f) && Issued(t, kind, f)))
    && (|| Stored(kind, t) == Stored(kind, s)
        || Stored(kind, t) == None
        || (Stored(kind, t) == Held(kind, s, z) && Held(kind, t, z) == None))
  }

  lemma StepHeld(s: State, a: Action, t: State, kind: Kind)
    requires Reliant(s) && Books(s) && Step(s, a) == Some(t)
    ensures MovesTokens(s, t, kind, SlotOf(s, a))
  {
    if a.GrantCall? {
      GrantHeld(s, a, t, kind);
    } else if a.WriteFile? {
      WriteHeld(s, a, t, kind);
    } else {
      QuietHeld(s, a, t, kind);
    }
  }

  lemma GrantHeld(s: State, a: Action, t: State, kind: Kind)
    requires Books(s) && Step(s, a) == Some(t) && a.GrantCall?
    ensures MovesTokens(s, t, kind, SlotOf(s, a))
  {
    forall x: Slot | x != SlotOf(s, a)
      ensures Held(kind, t, x) == Held(kind, s, x)
    {
      assert x.OfGrant? && x.i < |s.grants| ==> t.grants[x.i] == s.grants[x.i];
    }
  }

  lemma WriteHeld(s: State, a: Action, t: State, kind: Kind)
    requires Reliant(s) && Step(s, a) == Some(t) && a.WriteFile?
    ensures MovesTokens(s, t, kind, SlotOf(s, a))
  {
    assert Settled(s, s.At(a.p));
    forall q: Pid | q != a.p
      ensures t.At(q) == s.At(q)
    {
    }
  }

  lemma QuietHeld(s: State, a: Action, t: State, kind: Kind)
    requires Step(s, a) == Some(t) && !a.GrantCall? && !a.WriteFile?
    ensures MovesTokens(s, t, kind, SlotOf(s, a))
  {
    StepMoves(s, a, t);
    QuietSlot(s, a, t, kind);
    hide Step;
    forall x: Slot | x != SlotOf(s, a)
      ensures Held(kind, t, x) == Held(kind, s, x) || Held(kind, t, x) == None
    {
    }
  }

  lemma QuietSlot(s: State, a: Action, t: State, kind: Kind)
    requires Step(s, a) == Some(t) && !a.GrantCall? && !a.WriteFile?
    ensures t.grants == s.grants && t.saved == s.saved && (t.store == s.store || t.store.None?)
    ensures var f := Held(kind, t, OfLogin(a.p));
            f == None || f == Held(kind, s, OfLogin(a.p)) || (Unissued(s, kind, f) && Issued(t, kind, f))
    ensures s.At(a.p).Granted? ==> Held(kind, t, OfLogin(a.p)) == None
  {
  }

  lemma StepOwned(s: State, a: Action, t: State, kind: Kind)
    requires Reliant(s) && Books(s) && Owned(s, kind) && Step(s, a) == Some(t)
    ensures Owned(t, kind)
  {
    hide Step, Reliant, Books, Owned, MovesTokens;
    StepMoves(s, a, t);
    StepHeld(s, a, t, kind);
    OwnedMoves(s, t, kind, SlotOf(s, a));
  }

  lemma OwnedMoves(s: State, t: State, kind: Kind, z: Slot)
    requires Owned(s, kind) && MovesTokens(s, t, kind, z) && s.issued <= t.issued
    ensures Owned(t, kind)
  {
    hide Held, Stored;
    assert Issued(s, kind, Held(kind, s, z)) && Differ(Held(kind, s, z), Stored(kind, s));
    forall x: Slot
      ensures Issued(t, kind, Held(kind, t, x)) && Differ(Held(kind, t, x), Stored(kind, t))
    {
      assert Issued(s, kind, Held(kind, s, x)) && Differ(Held(kind, s, x), Stored(kind, s));
      assert x != z ==> Differ(Held(kind, s, x), Held(kind, s, z));
    }
    forall x: Slot, y: Slot | x != y
      ensures Differ(Held(kind, t, x), Held(kind, t, y))
    {
      assert Issued(s, kind, Held(kind, s, x)) && Issued(s, kind, Held(kind, s, y));
      assert Differ(Held(kind, s, x), Held(kind, s, y));
    }
  }

  /** A request is sent only for the credential in the file. */
  lemma StepCalls(s: State, a: Action, t: State, k: nat)
    requires Reliant(s) && Step(s, a) == Some(t) && k < |t.calls|
    ensures if k < |s.calls| then t.calls[k].auth == s.calls[k].auth
            else s.store == Some(t.calls[k].auth) && t.calls[k].auth.refresh.Some?
  {
    if a.Send? {
      assert Settled(s, s.At(a.p));
    }
  }

  lemma StepSent(s: State, a: Action, t: State, kind: Kind, k: nat, x: Slot)
    requires Reliant(s) && Books(s) && Owned(s, kind) && Spent(s, kind) && Step(s, a) == Some(t) && k < |t.calls|
    ensures Tok(kind, t.calls[k].auth).Some? && Issued(t, kind, Tok(kind, t.calls[k].auth))
    ensures Differ(Held(kind, t, x), Tok(kind, t.calls[k].auth))
  {
    StepMoves(s, a, t);
    StepHeld(s, a, t, kind);
    StepCalls(s, a, t, k);
    hide Step, Reliant, Books, Held;
    assert Differ(Held(kind, s, x), Stored(kind, s));
    if k < |s.calls| {
      assert Differ(Held(kind, s, x), Tok(kind, s.calls[k].auth));
    } else {
      assert Tok(kind, t.calls[k].auth) == Stored(kind, s);
    }
  }

  /** A grant becomes saved by its own write, which puts its result in the place of what it was for. */
  lemma StepSaves(s: State, a: Action, t: State, i: nat)
    requires Reliant(s) && Step(s, a) == Some(t) && i in t.saved && i !in s.saved
    ensures i < |s.grants| && t.grants == s.grants && s.store == Some(s.grants[i].from) && t.store == Some(s.grants[i].to)
    ensures t.saved == s.saved + {i}
  {
    assert Settled(s, s.At(a.p));
  }

  lemma StepSpent(s: State, a: Action, t: State, kind: Kind)
    requires Reliant(s) && Books(s) && Owned(s, kind) && Spent(s, kind) && Step(s, a) == Some(t)
    ensures Spent(t, kind)
  {
    forall k, x: Slot | 0 <= k < |t.calls|
      ensures Tok(kind, t.calls[k].auth).Some? && Issued(t, kind, Tok(kind, t.calls[k].auth))
      ensures Differ(Held(kind, t, x), Tok(kind, t.calls[k].auth))
    {
      StepSent(s, a, t, kind, k, x);
    }
    forall i | i in t.saved && i < |t.grants| && Changed(kind, t.grants[i])
      ensures Stored(kind, t) != Tok(kind, t.grants[i].from)
    {
      StepReplaced(s, a, t, kind, i);
    }
    assert forall k :: 0 <= k < |t.calls| ==> Differ(Held(kind, t, OfLogin(0)), Tok(kind, t.calls[k].auth));
  }

  lemma StepReplaced(s: State, a: Action, t: State, kind: Kind, i: nat)
    requires Reliant(s) && Books(s) && Owned(s, kind) && Spent(s, kind) && Step(s, a) == Some(t)
    requires i in t.saved && i < |t.grants| && Changed(kind, t.grants[i])
    ensures Stored(kind, t) != Tok(kind, t.grants[i].from)
  {
    StepMoves(s, a, t);
    if i in s.saved {
      assert t.grants[i] == t.grants[..|s.grants|][i] == s.grants[i];
      StepHeld(s, a, t, kind);
      assert WasSent(s, s.grants[i].from);
      var k :| 0 <= k < |s.calls| && s.calls[k].auth == s.grants[i].from;
      assert Differ(Held(kind, s, SlotOf(s, a)), Tok(kind, s.calls[k].auth));
      assert Tok(kind, s.calls[k].auth).Some?;
    } else {
      StepSaves(s, a, t, i);
    }
  }

  lemma StepReplacedOnce(s: State, a: Action, t: State, kind: Kind)
    requires Reliant(s) && Books(s) && Spent(s, kind) && ReplacedOnce(s, kind) && Step(s, a) == Some(t)
    ensures ReplacedOnce(t, kind)
  {
    hide Step, Reliant;
    StepMoves(s, a, t);
    forall i, j | i in t.saved && j in t.saved && i != j
      ensures !BoughtTwice(t, kind, i, j)
    {
      if i !in s.saved {
        StepSaves(s, a, t, i);
      }
      if j !in s.saved {
        StepSaves(s, a, t, j);
      }
      assert i in s.saved ==> t.grants[i] == t.grants[..|s.grants|][i] == s.grants[i];
      assert j in s.saved ==> t.grants[j] == t.grants[..|s.grants|][j] == s.grants[j];
      if i in s.saved && j in s.saved {
        assert !BoughtTwice(s, kind, i, j);
      }
    }
  }

  lemma StepTokens(s: State, a: Action, t: State, kind: Kind)
    requires Reliant(s) && Books(s) && Tokens(s, kind) && Step(s, a) == Some(t)
    ensures Tokens(t, kind)
  {
    hide Step, Reliant, Books, Owned, Spent, ReplacedOnce;
    StepOwned(s, a, t, kind);
    StepSpent(s, a, t, kind);
    StepReplacedOnce(s, a, t, kind);
  }

  /** Every step of every process, and of the broker, keeps the invariant. */
  lemma StepInv(s: State, a: Action, t: State)
    requires Inv(s) && Step(s, a) == Some(t)
    ensures Inv(t)
  {
    hide Step, Exclusive, Reliant, Owned, Spent, ReplacedOnce, Serialised, CallsBooked, GrantsBooked;
    StepExclusive(s, a, t);
    StepReliant(s, a, t);
    StepSerialised(s, a, t);
    StepCallsBooked(s, a, t);
    StepGrantsBooked(s, a, t);
    StepTokens(s, a, t, Access);
    StepTokens(s, a, t, Refresh);
  }

  lemma {:induction false} RunInv(s: State, acts: seq<Action>, t: State)
    requires Inv(s) && Run(s, acts) == Some(t)
    ensures Inv(t)
    decreases |acts|
  {
    hide Step, Inv;
    if acts != [] {
      var next := Step(s, acts[0]).value;
      StepInv(s, acts[0], next);
      RunInv(next, acts[1..], t);
    }
  }

  // ----- what the protocol promises, over every run

  /** A state some run leads to. */
  ghost predicate Reachable(s: State) {
    exists s0, acts :: Init(s0) && Run(s0, acts) == Some(s)
  }

  lemma ReachableInv(s: State)
    requires Reachable(s)
    ensures Inv(s)
  {
    hide Inv, Step;
    var s0, acts :| Init(s0) && Run(s0, acts) == Some(s);
    InitInv(s0);
    RunInv(s0, acts, s);
  }

  /** At most one process is between acquiring and releasing the lock. */
  lemma MutualExclusion(s: State, p: Pid, q: Pid)
    requires Reachable(s) && Critical(s.At(p)) && Critical(s.At(q))
    ensures p == q
  {
    ReachableInv(s);
  }

  /** The credential sent to the broker is the one in the file at that moment, it carries a refresh
      token, and its access token is the one the caller had rejected. */
  lemma SentTokenIsStored(s: State, p: Pid)
    requires Reachable(s) && Step(s, Send(p)).Some?
    ensures s.store == Some(s.At(p).auth) && s.At(p).auth.refresh.Some?
    ensures s.At(p).auth.access == s.At(p).req.rejected
  {
    ReachableInv(s);
    assert Settled(s, s.At(p));
  }

  /** A process has the answer of grant `i`, or will have it if it waits. */
  ghost predicate InHand(s: State, p: Pid, i: nat) {
    || (s.At(p).Granted? && s.At(p).grant == i)
    || (s.At(p).Awaiting? && s.At(p).call < |s.calls| && s.calls[s.At(p).call].granted == Some(i))
  }

  /** Grant `i` has not been lost: its result is in the file's history, or a process still has it coming. */
  ghost predicate Kept(s: State, i: nat) {
    i in s.saved || exists p: Pid :: InHand(s, p, i)
  }

  /** A process that has an answer coming has the lock, and the file still holds what it asked for. */
  lemma InHandIsCurrent(s: State, p: Pid, i: nat)
    requires Inv(s) && InHand(s, p, i)
    ensures s.lock == Some(p) && i < |s.grants| && i !in s.saved && s.store == Some(s.grants[i].from)
  {
    assert Settled(s, s.At(p));
    assert Critical(s.At(p)) <==> s.lock == Some(p);
  }

  /** Of two grants that replaced the same token, at most one was kept. A rejected access token that buys two
      refreshes has lost one of the answers on the way to the file. */
  lemma RefreshBoughtTwice(s: State, i: nat, j: nat)
    requires Reachable(s) && i < |s.grants| && j < |s.grants| && i != j
    ensures s.grants[i].rejected == s.grants[j].rejected ==> !Kept(s, i) || !Kept(s, j)
    ensures s.grants[i].from.refresh == s.grants[j].from.refresh && Kept(s, i) && Kept(s, j) ==>
              !Changed(Refresh, s.grants[i]) || !Changed(Refresh, s.grants[j])
  {
    ReachableInv(s);
    if Kept(s, i) && Kept(s, j) {
      KeptOnce(s, Access, i, j);
      KeptOnce(s, Refresh, i, j);
    }
  }

  lemma KeptOnce(s: State, kind: Kind, i: nat, j: nat)
    requires Inv(s) && i < |s.grants| && j < |s.grants| && i != j && Kept(s, i) && Kept(s, j)
    ensures !BoughtTwice(s, kind, i, j)
  {
    assert ReplacedOnce(s, kind) && Spent(s, kind);
    if i !in s.saved {
      var p: Pid :| InHand(s, p, i);
      InHandIsCurrent(s, p, i);
      if j !in s.saved {
        var q: Pid :| InHand(s, q, j);
        InHandIsCurrent(s, q, j);
      }
    } else if j !in s.saved {
      var q: Pid :| InHand(s, q, j);
      InHandIsCurrent(s, q, j);
    } else {
      assert !BoughtTwice(s, kind, i, j);
    }
  }

  /** When no granted refresh is lost, however many callers hold the same rejected token, they cause at most
      one; and with rotation no refresh token is accepted twice. */
  lemma OneRefreshPerRejectedToken(s: State)
    requires Reachable(s) && forall i: nat :: i < |s.grants| ==> Kept(s, i)
    ensures forall i, j :: 0 <= i < j < |s.grants| ==> s.grants[i].rejected != s.grants[j].rejected
    ensures (forall i :: 0 <= i < |s.grants| ==> Changed(Refresh, s.grants[i])) ==>
              forall i, j :: 0 <= i < j < |s.grants| ==> s.grants[i].from.refresh != s.grants[j].from.refresh
  {
    hide Reachable, Kept;
    forall i, j | 0 <= i < j < |s.grants|
      ensures s.grants[i].rejected != s.grants[j].rejected
      ensures Changed(Refresh, s.grants[i]) && Changed(Refresh, s.grants[j]) ==>
          s.grants[i].from.refresh != s.grants[j].from.refresh
    {
      RefreshBoughtTwice(s, i, j);
    }
  }

  /** Once the refresh of a rejected token has reached the file, every other caller that rejected that token,
      whenever it gets the lock, sends nothing: it is given what is stored then, if it can be read and is of
      the account it asked for. */
  lemma WaiterAdoptsWinner(s: State, i: nat, p: Pid, readable: bool)
    requires Reachable(s) && i in s.saved && i < |s.grants|
    requires s.At(p).Holding? && s.At(p).op.RefreshIfCurrent? && s.At(p).op.req.rejected == s.grants[i].rejected
    ensures Step(s, Read(p, readable)).Some?
    ensures var after := Step(s, Read(p, readable)).value.At(p); var op := s.At(p).op;
            && after.Leaving?
            && (readable && s.store.Some? && Expected(op.req, s.store.value) ==>
                after == Leaving(op, Returned(s.store.value)))
  {
    ReachableInv(s);
    assert Spent(s, Access);
  }

  /** `auth` is the written result of a refresh, of the account that `req` named, whose answer named another. */
  ghost predicate AccountChanged(s: State, req: Request, auth: Auth, i: nat) {
    RefreshResult(s, req, auth, i) && s.grants[i].to.user != s.grants[i].from.user
  }

  /** What a caller that has the lock does with what it reads. It sends the stored credential exactly when that can be
      read, is of the account it named, is the rejected one and can be refreshed; it is given the stored credential
      exactly when that can be read, is of that account and is not the rejected one; otherwise it fails. The file stays
      as it is. */
  lemma ReadDecides(s: State, p: Pid, req: Request, readable: bool)
    requires Reachable(s) && s.At(p) == Holding(RefreshIfCurrent(req))
    ensures Step(s, Read(p, readable)).Some?
    ensures var t := Step(s, Read(p, readable)).value;
            var found := readable && s.store.Some? && (req.expected.Some? ==> req.expected.value == s.store.value.user);
            var rejected := found && s.store.value.access == req.rejected;
            && t.store == s.store && t.lock == Some(p)
            && (t.At(p).Calling? <==> rejected && s.store.value.refresh.Some?)
            && (t.At(p).Calling? ==> t.At(p) == Calling(req, s.store.value))
            && (found && !rejected ==> t.At(p) == Leaving(RefreshIfCurrent(req), Returned(s.store.value)))
            && (!found || (rejected && s.store.value.refresh.None?) ==> t.At(p) == Leaving(RefreshIfCurrent(req), Failed))
  {
    ReachableInv(s);
    assert Critical(s.At(p)) <==> s.lock == Some(p);
  }

  /** What the holder of `from` makes of an answer: the new access token, and of the rest what the answer gives, the
      old where it gives nothing. */
  ghost predicate Answered(from: Auth, r: Response, to: Auth) {
    && to.access == r.access
    && (r.refresh.Some? ==> to.refresh == r.refresh) && (r.refresh.None? ==> to.refresh == from.refresh)
    && (r.user.Some? ==> to.user == r.user.value) && (r.user.None? ==> to.user == from.user)
  }

  /** A rotated refresh token reaches the file: whenever the broker grants a request with `r`, and however the run goes
      on, once the process that has that grant writes, the file holds what the answer gave, in the place of what was
      sent. */
  lemma AnswerReachesFile(s: State, k: nat, r: Response, acts: seq<Action>, t: State, p: Pid, how: Write)
    requires Reachable(s) && Step(s, GrantCall(k, r)).Some?
    requires Run(Step(s, GrantCall(k, r)).value, acts) == Some(t)
    requires t.At(p).Granted? && t.At(p).grant == |s.grants| && how != NotWritten
    ensures k < |s.calls| && Step(t, WriteFile(p, how)).Some?
    ensures var u := Step(t, WriteFile(p, how)).value;
            && t.store == Some(s.calls[k].auth) && u.store.Some? && Answered(s.calls[k].auth, r, u.store.value)
            && u.log == t.log + [Refreshed(s.calls[k].auth, u.store.value)]
            && u.At(p).Leaving? && u.At(p).result == if how == Written then Returned(u.store.value) else Failed
  {
    var a := GrantCall(k, r);
    var s1 := Step(s, a).value;
    GrantIsAnswer(s, k, r);
    var before := Advance(s, a);
    hide Step, Reachable, Settled, Inv;
    GrantsStay(s1, acts, t);
    ReachableRun(s1, acts, t);
    HolderWrites(t, p, how);
  }

  lemma GrantIsAnswer(s: State, k: nat, r: Response)
    requires Step(s, GrantCall(k, r)).Some?
    ensures var t := Step(s, GrantCall(k, r)).value; var n := |s.grants|;
            && k < |s.calls| && |t.grants| == n + 1
            && t.grants[n].from == s.calls[k].auth && Answered(s.calls[k].auth, r, t.grants[n].to)
  {
  }

  lemma {:induction false} GrantsStay(s: State, acts: seq<Action>, t: State)
    requires Run(s, acts) == Some(t)
    ensures s.grants <= t.grants
    decreases |acts|
  {
    hide Step;
    if acts != [] {
      var next := Step(s, acts[0]).value;
      StepMoves(s, acts[0], next);
      GrantsStay(next, acts[1..], t);
      assert s.grants == next.grants[..|s.grants|] <= next.grants;
    }
  }

  lemma {:induction false} ReachableRun(s: State, acts: seq<Action>, t: State)
    requires Reachable(s) && Run(s, acts) == Some(t)
    ensures Reachable(t)
    decreases |acts|
  {
    hide Step, Reachable;
    if acts != [] {
      var next := Advance(s, acts[0]);
      ReachableRun(next, acts[1..], t);
    }
  }

  lemma HolderWrites(t: State, p: Pid, how: Write)
    requires Reachable(t) && t.At(p).Granted? && how != NotWritten
    ensures t.At(p).grant < |t.grants| && t.store == Some(t.grants[t.At(p).grant].from)
    ensures Step(t, WriteFile(p, how)).Some?
    ensures var u := Step(t, WriteFile(p, how)).value; var g := t.grants[t.At(p).grant];
            && u.store == Some(g.to) && u.log == t.log + [Refreshed(g.from, g.to)]
            && u.At(p).Leaving? && u.At(p).result == if how == Written then Returned(g.to) else Failed
  {
    ReachableInv(t);
    assert Settled(t, t.At(p));
  }

  /** A caller is given the credential in the file, never the one it had rejected; and, if it named an account, one of
      that account exactly when no answer to a refresh of the rejected token for that account named another. */
  lemma ReturnedIsStoredAndNew(s: State, p: Pid)
    requires Reachable(s) && s.At(p).Leaving? && s.At(p).result.Returned?
    ensures var auth := s.At(p).result.auth; var op := s.At(p).op;
            && s.store == Some(auth)
            && op.RefreshIfCurrent? && auth.access != op.req.rejected
            && (Expected(op.req, auth) || exists i: nat :: RefreshResult(s, op.req, auth, i))
            && (op.req.expected.Some? ==>
                  (Expected(op.req, auth) <==> !exists i: nat :: AccountChanged(s, op.req, auth, i)))
  {
    ReachableInv(s);
    assert Settled(s, s.At(p));
    hide Inv;
    var auth, req := s.At(p).result.auth, s.At(p).op.req;
    if !Expected(req, auth) {
      var i: nat :| RefreshResult(s, req, auth, i);
      assert AccountChanged(s, req, auth, i);
    }
  }

  /** A login or logout that reports success has taken effect, and nothing has changed it while the lock is held. */
  lemma FinishedTookEffect(s: State, p: Pid)
    requires Reachable(s) && s.At(p).Leaving? && s.At(p).result.Finished?
    ensures var op := s.At(p).op;
            (op.SaveLogin? && s.store == Some(op.auth)) || (op.Logout? && s.store.None?)
  {
    ReachableInv(s);
    assert Settled(s, s.At(p));
  }

  /** The whole run is one serial history of logins, logouts and refreshes, each refresh replacing
      exactly the credential that was there, and the file is what that history leaves. */
  lemma StoreIsSerialised(s: State)
    requires Reachable(s)
    ensures Serial(s.log) && Replay(s.log) == s.store
  {
    ReachableInv(s);
  }

  function Credential(c: Commit): Option<Auth> {
    Replay([c])
  }

  /** `log[k]` is the latest login, and every later change is a refresh of what the change before it left. */
  ghost predicate Lineage(log: seq<Commit>, k: nat) {
    && k < |log| && log[k].LoggedIn?
    && forall i :: k < i < |log| ==> log[i].Refreshed? && Credential(log[i - 1]) == Some(log[i].from)
  }

  /** A stored credential is the latest login's or descends from it by refreshes alone. */
  lemma StoredDescendsFromLogin(s: State)
    requires Reachable(s) && s.store.Some?
    ensures exists k :: Lineage(s.log, k)
  {
    StoreIsSerialised(s);
    var k := FindLineage(s.log);
  }

  lemma {:induction false} FindLineage(log: seq<Commit>) returns (k: nat)
    requires Serial(log) && Replay(log).Some?
    ensures Lineage(log, k)
  {
    var n := |log| - 1;
    if log[n].LoggedIn? {
      k := n;
    } else {
      var before := log[..n];
      SerialPrefix(log, n);
      k := FindLineage(before);
      ExtendLineage(log, k);
    }
  }

  lemma SerialPrefix(log: seq<Commit>, n: nat)
    requires Serial(log) && n <= |log|
    ensures Serial(log[..n])
  {
    forall i | 0 <= i < n && log[..n][i].Refreshed?
      ensures Replay(log[..n][..i]) == Some(log[..n][i].from)
    {
      assert log[..n][..i] == log[..i];
    }
  }

  lemma ExtendLineage(log: seq<Commit>, k: nat)
    requires |log| > 0 && Lineage(log[..|log| - 1], k)
    requires log[|log| - 1].Refreshed? && Replay(log[..|log| - 1]) == Some(log[|log| - 1].from)
    ensures Lineage(log, k)
  {
    var before := log[..|log| - 1];
    assert forall i :: 0 <= i < |before| ==> before[i] == log[i];
    assert before[|before| - 1] == log[|log| - 2];
  }

  lemma {:induction false} LogGrows(s: State, acts: seq<Action>, t: State)
    requires Run(s, acts) == Some(t)
    ensures s.log <= t.log
    decreases |acts|
  {
    if acts != [] {
      LogGrows(Step(s, acts[0]).value, acts[1..], t);
    }
  }

  /** Once a logout has taken effect the store stays empty until a login saves: no refresh, however
      long in flight, brings a credential back. */
  lemma LogoutStays(s: State, acts: seq<Action>, t: State)
    requires Reachable(s) && s.store.None? && Run(s, acts) == Some(t)
    requires forall i :: |s.log| <= i < |t.log| ==> !t.log[i].LoggedIn?
    ensures t.store.None?
    ensures forall i :: |s.log| <= i < |t.log| ==> t.log[i].LoggedOut?
  {
    ReachableInv(s);
    RunInv(s, acts, t);
    LogGrows(s, acts, t);
    EmptyStays(t.log, |s.log|, |t.log|);
    assert t.log[..|t.log|] == t.log && t.log[..|s.log|] == s.log;
  }

  lemma {:induction false} EmptyStays(log: seq<Commit>, m: nat, n: nat)
    requires Serial(log) && m <= n <= |log| && Replay(log[..m]) == None
    requires forall i :: m <= i < n ==> !log[i].LoggedIn?
    ensures Replay(log[..n]) == None
    ensures forall i :: m <= i < n ==> log[i].LoggedOut?
  {
    if m < n {
      EmptyStays(log, m, n - 1);
      assert log[..n][n - 1] == log[n - 1];
    }
  }

  // ----- what an undisturbed transaction does

  lemma RunThree(s: State, a: Action, b: Action, c: Action)
    requires Step(s, a).Some? && Step(Step(s, a).value, b).Some?
    ensures Run(s, [a, b, c]) == Step(Step(Step(s, a).value, b).value, c)
  {
    hide Step;
    assert [a, b, c][1..] == [b, c] && [b, c][1..] == [c] && [c][1..] == [];
    var t := Step(s, a).value;
    var u := Step(t, b).value;
    assert Run(s, [a, b, c]) == Run(t, [b, c]) == Run(u, [c]);
    if Step(u, c).Some? {
      assert Run(Step(u, c).value, []) == Step(u, c);
    }
  }

  /** A login saves what the broker issued, unless its write fails before the rename, and reports success exactly when
      the whole write succeeded. */
  lemma LoginRuns(s: State, p: Pid, auth: Auth, how: Write)
    requires s.lock.None? && s.At(p) == Idle
    requires Unissued(s, Access, Some(auth.access)) && Unissued(s, Refresh, auth.refresh)
    ensures var t := Run(s, [BeginLogin(p, auth), Acquire(p), WriteFile(p, how)]);
            && t.Some? && t.value.store == (if how == NotWritten then s.store else Some(auth))
            && t.value.At(p).Leaving? && (t.value.At(p).result == Finished <==> how == Written)
  {
    RunThree(s, BeginLogin(p, auth), Acquire(p), WriteFile(p, how));
  }

  /** A logout empties the file, unless it cannot be removed, and reports success exactly when the file is gone; with
      nobody logged in it does nothing. */
  lemma LogoutRuns(s: State, p: Pid, removed: bool)
    requires s.lock.None? && s.At(p) == Idle
    ensures s.store.None? ==> Step(s, BeginLogout(p)) == Some(s)
    ensures s.store.Some? ==>
              var t := Run(s, [BeginLogout(p), Acquire(p), RemoveFile(p, removed)]);
              && t.Some? && t.value.store == (if removed then None else s.store)
              && t.value.At(p).Leaving? && (t.value.At(p).result == Finished <==> t.value.store.None?)
  {
    if s.store.Some? {
      RunThree(s, BeginLogout(p), Acquire(p), RemoveFile(p, removed));
    }
  }

  /** A logout that finds somebody else has logged out meanwhile has nothing to remove, and succeeds. */
  lemma LogoutFindsNothing(s: State, p: Pid, removed: bool)
    requires s.At(p) == Holding(Logout) && s.store.None?
    ensures var t := Step(s, RemoveFile(p, removed));
            t.Some? && t.value.store.None? && t.value.At(p) == Leaving(Logout, Finished) && t.value.log == s.log
  {
  }

  /** A refresh before expiry, undisturbed, goes on to send the stored credential, of whatever account, as the one that
      no longer does. */
  lemma ProactiveRefreshRuns(s: State, p: Pid)
    requires s.lock.None? && s.At(p) == Idle && s.store.Some? && s.store.value.refresh.Some?
    ensures var t := Run(s, [BeginGetValid(p), Acquire(p), Read(p, true)]);
            && t.Some? && t.value.At(p) == Calling(Request(s.store.value.access, None), s.store.value)
            && t.value.store == s.store
  {
    RunThree(s, BeginGetValid(p), Acquire(p), Read(p, true));
  }

  // ----- the lock is always given back

  /** How many steps of its own a process has left, at most, until it gives the lock back: one more while an answer
      of the broker may still have to be taken and saved. */
  function StepsLeft(proc: Proc, answered: bool): nat {
    var more := if answered then 1 else 0;
    match proc
    case Holding(op) => if op.RefreshIfCurrent? then 4 + more else 2
    case Calling(_, _) => 3 + more
    case Awaiting(_, _, _) => 2 + more
    case Granted(_, _) => 2
    case Leaving(_, _) => 1
    case _ => 0
  }

  /** How many of the steps are `p`'s. */
  function Moves(acts: seq<Action>, p: Pid): nat {
    if acts == [] then 0 else (if Mover(acts[0]) == Some(p) then 1 else 0) + Moves(acts[1..], p)
  }

  /** Every step of the holder's own gives the lock back or brings it nearer to that; no other step changes
      where it is. */
  lemma HolderStep(s: State, a: Action, t: State, p: Pid)
    requires Exclusive(s) && s.lock == Some(p) && Step(s, a) == Some(t)
    ensures Mover(a) != Some(p) ==> t.At(p) == s.At(p)
    ensures Mover(a) == Some(p) ==> t.lock.None? || StepsLeft(t.At(p), true) < StepsLeft(s.At(p), true)
    ensures t.lock.None? || t.lock == Some(p)
  {
    assert Critical(s.At(p));
    if Mover(a).Some? {
      assert Critical(s.At(a.p)) <==> s.lock == Some(a.p);
    }
  }

  /** At some point of the run the lock is free. */
  ghost predicate Frees(s: State, acts: seq<Action>) {
    exists n :: 0 <= n <= |acts| && Run(s, acts[..n]).Some? && Run(s, acts[..n]).value.lock.None?
  }

  /** The lock is always given back: in every run in which its holder makes five steps, or dies, whatever the broker
      answers, whoever else moves and however the writes end, the lock is free at some point. */
  lemma HolderReleases(s: State, acts: seq<Action>, p: Pid)
    requires Reachable(s) && s.lock == Some(p) && Run(s, acts).Some?
    requires Moves(acts, p) >= 5 || Crash(p) in acts
    ensures Frees(s, acts)
  {
    ReachableInv(s);
    assert StepsLeft(s.At(p), true) <= 5;
    hide Step, Inv, StepsLeft, Frees;
    ReleasesWithin(s, acts, p);
  }

  lemma {:induction false} ReleasesWithin(s: State, acts: seq<Action>, p: Pid)
    requires Inv(s) && s.lock == Some(p) && Run(s, acts).Some?
    requires Moves(acts, p) >= StepsLeft(s.At(p), true) || Crash(p) in acts
    ensures Frees(s, acts)
    decreases |acts|
  {
    hide Step, Exclusive, Frees, StepsLeft;
    HolderIsCritical(s, p);
    var a := acts[0];
    var t := Step(s, a).value;
    StepInv(s, a, t);
    HolderStep(s, a, t, p);
    if t.lock.None? {
      FreesAtOnce(s, acts, t);
    } else {
      if a == Crash(p) {
        CrashFrees(s, p);
      }
      ReleasesWithin(t, acts[1..], p);
      FreesLater(s, acts, t);
    }
  }

  lemma HolderIsCritical(s: State, p: Pid)
    requires Exclusive(s) && s.lock == Some(p)
    ensures StepsLeft(s.At(p), true) > 0
  {
    assert Critical(s.At(p));
  }

  lemma CrashFrees(s: State, p: Pid)
    requires s.lock == Some(p)
    ensures Step(s, Crash(p)).Some? && Step(s, Crash(p)).value.lock.None?
  {
  }

  lemma FreesAtOnce(s: State, acts: seq<Action>, t: State)
    requires acts != [] && Step(s, acts[0]) == Some(t) && t.lock.None?
    ensures Frees(s, acts)
  {
    hide Step;
    assert acts[..1][0] == acts[0] && acts[..1][1..] == [];
    assert Run(t, []) == Some(t);
    assert Run(s, acts[..1]) == Some(t);
  }

  lemma FreesLater(s: State, acts: seq<Action>, t: State)
    requires acts != [] && Step(s, acts[0]) == Some(t) && Frees(t, acts[1..])
    ensures Frees(s, acts)
  {
    hide Step;
    var n :| 0 <= n <= |acts| - 1 && Run(t, acts[1..][..n]).Some? && Run(t, acts[1..][..n]).value.lock.None?;
    assert acts[..n + 1][1..] == acts[1..][..n];
    assert Run(s, acts[..n + 1]) == Run(t, acts[1..][..n]);
  }

  /** The step that gets it there. */
  function WayOut(p: Pid, proc: Proc): Action {
    match proc
    case Holding(RefreshIfCurrent(_)) => Read(p, true)
    case Holding(SaveLogin(_)) => WriteFile(p, Written)
    case Holding(Logout) => RemoveFile(p, true)
    case Calling(_, _) => Send(p)
    case Awaiting(_, _, _) => GiveUp(p)
    case Granted(_, _) => WriteFile(p, Written)
    case _ => Release(p)
  }

  lemma WayOutIsStep(s: State, p: Pid)
    requires Inv(s) && s.lock == Some(p)
    ensures var t := Step(s, WayOut(p, s.At(p)));
            && t.Some?
            && if s.At(p).Leaving? then t.value.lock.None?
               else t.value.lock == Some(p) && StepsLeft(t.value.At(p), false) < StepsLeft(s.At(p), false)
  {
    assert Critical(s.At(p)) && Settled(s, s.At(p));
  }

  /** And the holder can always make them: from any reachable state it alone can give the lock back, in at most four
      steps, without the broker, any other process or a crash. */
  lemma HolderIsNotStuck(s: State, p: Pid) returns (acts: seq<Action>)
    requires Reachable(s) && s.lock == Some(p)
    ensures |acts| <= 4 && (forall i :: 0 <= i < |acts| ==> Mover(acts[i]) == Some(p) && !acts[i].Crash?)
    ensures Run(s, acts).Some? && Run(s, acts).value.lock.None?
  {
    ReachableInv(s);
    acts := GetOut(s, p);
    assert StepsLeft(s.At(p), false) <= 4;
  }

  lemma {:induction false} GetOut(s: State, p: Pid) returns (acts: seq<Action>)
    requires Inv(s) && s.lock == Some(p)
    ensures |acts| <= StepsLeft(s.At(p), false)
    ensures forall i :: 0 <= i < |acts| ==> Mover(acts[i]) == Some(p) && !acts[i].Crash?
    ensures Run(s, acts).Some? && Run(s, acts).value.lock.None?
    decreases StepsLeft(s.At(p), false)
  {
    hide Step, Inv, StepsLeft;
    var a := WayOut(p, s.At(p));
    WayOutIsStep(s, p);
    var t := Step(s, a).value;
    assert Mover(a) == Some(p) && !a.Crash?;
    if s.At(p).Leaving? {
      acts := [a];
      assert acts[1..] == [];
      assert Run(t, []) == Some(t);
      LeavingIsOne(s, p);
    } else {
      StepInv(s, a, t);
      var rest := GetOut(t, p);
      acts := [a] + rest;
      assert acts[1..] == rest;
    }
  }

  lemma LeavingIsOne(s: State, p: Pid)
    requires s.At(p).Leaving?
    ensures StepsLeft(s.At(p), false) == 1
  {
  }

  // ----- what the promises need of the broker

  lemma Advance(s: State, a: Action) returns (t: State)
    requires Reachable(s) && Step(s, a).Some?
    ensures Some(t) == Step(s, a) && Reachable(t)
  {
    hide Step;
    var s0, acts :| Init(s0) && Run(s0, acts) == Some(s);
    t := Step(s, a).value;
    RunExtends(s0, acts, s, a);
  }

  lemma {:induction false} RunExtends(s0: State, acts: seq<Action>, s: State, a: Action)
    requires Run(s0, acts) == Some(s)
    ensures Run(s0, acts + [a]) == Step(s, a)
    decreases |acts|
  {
    hide Step;
    if acts == [] {
      assert [a][1..] == [] && acts + [a] == [a];
    } else {
      RunExtends(Step(s0, acts[0]).value, acts[1..], s, a);
      assert (acts + [a])[1..] == acts[1..] + [a];
    }
  }

  const LOGGED_IN: Auth := Auth(1, Some(10), 7)
  const START: State :=
    State(Some(LOGGED_IN), None, map[], [], [], {}, [LoggedIn(LOGGED_IN)], {(Access, 1), (Refresh, 10)})

  lemma StartReachable()
    ensures Reachable(START)
  {
    assert Init(START) && Run(START, []) == Some(START);
  }

  /** `p`, holding the rejected token, sends its request. */
  lemma Ask(s: State, p: Pid, req: Request) returns (t: State)
    requires Reachable(s) && s.lock.None? && s.At(p) == Idle
    requires s.store.Some? && s.store.value.access == req.rejected && s.store.value.refresh.Some?
    requires Expected(req, s.store.value)
    ensures Reachable(t)
    ensures t.At(p) == Awaiting(req, s.store.value, |s.calls|)
    ensures t.calls == s.calls + [Call(req.rejected, s.store.value, None)]
    ensures t.(procs := s.procs, calls := s.calls, lock := s.lock) == s && t.lock == Some(p)
    ensures forall q: Pid :: q != p ==> t.At(q) == s.At(q)
  {
    hide Reachable;
    var t1 := Advance(s, BeginRefresh(p, req.rejected, req.expected));
    var t2 := Advance(t1, Acquire(p));
    var t3 := Advance(t2, Read(p, true));
    t := Advance(t3, Send(p));
  }

  /** The request is granted, the answer arrives and is saved, and the lock is given back. */
  lemma Answer(s: State, p: Pid, r: Response) returns (t: State)
    requires Reachable(s) && s.At(p).Awaiting? && s.At(p).call < |s.calls| && s.calls[s.At(p).call].granted.None?
    requires Unissued(s, Access, Some(r.access)) && Unissued(s, Refresh, r.refresh)
    ensures Reachable(t)
    ensures var call := s.calls[s.At(p).call]; var n := |s.grants|; var to := Merge(call.auth, r);
            && t.At(p) == Leaving(RefreshIfCurrent(s.At(p).req), Returned(to))
            && t.grants == s.grants + [Grant(call.rejected, call.auth, to)] && t.saved == s.saved + {n}
            && t.store == Some(to) && t.lock == s.lock && t.calls == s.calls[s.At(p).call := call.(granted := Some(n))]
            && t.issued == Issue(s.issued, r.access, r.refresh)
    ensures forall q: Pid :: q != p ==> t.At(q) == s.At(q)
  {
    hide Reachable;
    var t1 := Advance(s, GrantCall(s.At(p).call, r));
    var t2 := Advance(t1, Receive(p));
    t := Advance(t2, WriteFile(p, Written));
  }

  /** `p` gives up waiting and gives the lock back. */
  lemma Abandon(s: State, p: Pid) returns (t: State)
    requires Reachable(s) && s.At(p).Awaiting?
    ensures Reachable(t) && t.lock.None? && t.(procs := s.procs, lock := s.lock) == s
    ensures forall q: Pid :: q != p ==> t.At(q) == s.At(q)
  {
    hide Reachable;
    var t1 := Advance(s, GiveUp(p));
    t := Advance(t1, Release(p));
  }

  /** The promise of one refresh per rejected token does need every grant to be kept. Here the first caller
      times out, the second one refreshes and saves, and only then does the broker get to the first request. */
  lemma LateGrantAfterTimeout() returns (s: State)
    ensures Reachable(s) && |s.grants| == 2
    ensures s.grants[0].rejected == s.grants[1].rejected && s.grants[0].from.refresh == s.grants[1].from.refresh
    ensures 0 in s.saved && 1 !in s.saved
  {
    hide Reachable;
    StartReachable();
    var s1 := Ask(START, 0, Request(1, None));
    assert s1.At(1) == START.At(1);
    var s2 := Abandon(s1, 0);
    assert s2.At(1) == s1.At(1);
    var s3 := Ask(s2, 1, Request(1, None));
    var s4 := Answer(s3, 1, Response(2, Some(11), None));
    s := Advance(s4, GrantCall(0, Response(3, Some(12), None)));
  }

  /** Or the first request is granted and its answer lost, and the second caller, finding the old credential,
      asks again. */
  lemma LostAnswerRefreshesTwice() returns (s: State)
    ensures Reachable(s) && |s.grants| == 2
    ensures s.grants[0].rejected == s.grants[1].rejected && s.grants[0].from.refresh == s.grants[1].from.refresh
    ensures 0 !in s.saved && 1 in s.saved
  {
    hide Reachable;
    StartReachable();
    var s1 := Ask(START, 0, Request(1, None));
    assert s1.At(1) == START.At(1);
    var s2 := Advance(s1, GrantCall(0, Response(2, Some(11), None)));
    var s3 := Abandon(s2, 0);
    assert s3.At(1) == s2.At(1);
    var s4 := Ask(s3, 1, Request(1, None));
    s := Answer(s4, 1, Response(3, Some(12), None));
  }

  /** And it needs rotation for refresh tokens: a broker that leaves the refresh token out of its answer
      sees the same one again at the next refresh. */
  lemma UnrotatedTokenIsSentAgain() returns (s: State)
    ensures Reachable(s) && |s.grants| == 2 && s.saved == {0, 1}
    ensures s.grants[0].from.refresh == s.grants[1].from.refresh
  {
    hide Reachable;
    StartReachable();
    var s1 := Ask(START, 0, Request(1, None));
    var s2 := Answer(s1, 0, Response(2, None, None));
    var s3 := Advance(s2, Release(0));
    var s4 := Ask(s3, 0, Request(2, None));
    s := Answer(s4, 0, Response(3, Some(12), None));
  }

  /** With rotation the next refresh sends the new refresh token, and the broker sees no token twice. */
  lemma RotatedTokenIsSentNext() returns (s: State)
    ensures Reachable(s) && |s.grants| == 2 && s.saved == {0, 1}
    ensures |s.calls| == 2 && s.calls[0].auth.refresh == Some(10) && s.calls[1].auth.refresh == Some(11)
    ensures s.store == Some(Auth(3, Some(12), 7))
  {
    hide Reachable;
    StartReachable();
    var s1 := Ask(START, 0, Request(1, None));
    var s2 := Answer(s1, 0, Response(2, Some(11), None));
    var s3 := Advance(s2, Release(0));
    var s4 := Ask(s3, 0, Request(2, None));
    s := Answer(s4, 0, Response(3, Some(12), None));
  }

  /** The account check is made on what is stored, before the refresh: a broker that answers for another account
      has its answer saved and returned. */
  lemma AnotherAccountIsReturned() returns (s: State)
    ensures Reachable(s) && s.At(0).Leaving? && s.At(0).result.Returned?
    ensures s.At(0).op.RefreshIfCurrent? && s.At(0).op.req.expected == Some(7) && s.At(0).result.auth.user == 8
  {
    hide Reachable;
    StartReachable();
    var s1 := Ask(START, 0, Request(1, Some(7)));
    s := Answer(s1, 0, Response(2, Some(11), Some(8)));
  }
}
