/**
  The login poller: a detached thread that asks the broker whether the browser flow is done and sends
  each answer over a channel, and the foreground loop of `login` that drains the channel between looks
  at the keyboard. A state machine over the steps of both threads.
*/
module LoginPoller {

  /** What `check_once` answers: `Ok(Pending)`, `Ok(Authorized)` or an error. */
  datatype Outcome = Pending | Authorized | CheckFailed

  /** The poller thread. Once `Stopped` its end of the channel is closed. */
  datatype Poller = Checking | Sending(outcome: Outcome) | Sleeping | Stopped

  datatype Foreground =
    | Receiving                 // about to `try_recv`
    | Listening                 // waiting for ESC or the timeout
    | Confirmed                 // left the loop; about to exchange the state for a token
    | Exchanged                 // `finish` was called
    | Failed                    // the poller's error is returned
    | Cancelled                 // "login cancelled by user"
    | StoppedUnexpectedly       // "login poller stopped unexpectedly"

  datatype State = State(
    hasClient: bool,
    poller: Poller,
    panicked: bool,
    queue: seq<Outcome>,
    receiverAlive: bool,
    foreground: Foreground,
    sent: seq<Outcome>,        // history: everything the channel ever carried
    received: seq<Outcome>     // history: everything taken from it
  )

  datatype Action = Check(outcome: Outcome) | Send | Wake | Panic | TryReceive | Listen(escape: bool) | Exchange

  function Start(hasClient: bool): State {
    State(hasClient, Checking, false, [], true, Receiving, [], [])
  }

  function Step(s: State, a: Action): State {
    match a
    case Check(outcome) =>
      if s.poller != Checking then s
      else s.(poller := Sending(if s.hasClient then outcome else Pending))
    case Send =>
      if !s.poller.Sending? then s
      else if !s.receiverAlive then s.(poller := Stopped)
      else
        var o := s.poller.outcome;
        s.(queue := s.queue + [o], sent := s.sent + [o],
           poller := if o == Pending && s.hasClient then Sleeping else Stopped)
    case Wake =>
      if s.poller != Sleeping then s else s.(poller := Checking)
    case Panic =>
      if s.poller == Stopped then s else s.(poller := Stopped, panicked := true)
    case TryReceive =>
      if s.foreground != Receiving then s
      else if s.queue == [] then
        if s.poller == Stopped then s.(foreground := StoppedUnexpectedly, receiverAlive := false)
        else s.(foreground := Listening)
      else
        var t := s.(queue := s.queue[1..], received := s.received + [s.queue[0]]);
        (match s.queue[0]
         case Authorized => t.(foreground := Confirmed, receiverAlive := false)
         case Pending => t.(foreground := Listening)
         case CheckFailed => t.(foreground := Failed, receiverAlive := false))
    case Listen(escape) =>
      if s.foreground != Listening then s
      else if escape then s.(foreground := Cancelled, receiverAlive := false)
      else s.(foreground := Receiving)
    case Exchange =>
      if s.foreground != Confirmed then s else s.(foreground := Exchanged)
  }

  function Run(s: State, acts: seq<Action>): State
    decreases |acts|
  {
    if acts == [] then s else Run(Step(s, acts[0]), acts[1..])
  }

  /** Answers that only the last of which may say anything but "not yet". */
  predicate PendingThenOne(answers: seq<Outcome>) {
    forall i :: 0 <= i < |answers| - 1 ==> answers[i] == Pending
  }

  predicate Final(answers: seq<Outcome>) {
    |answers| > 0 && answers[|answers| - 1] != Pending
  }

  /** What every step of both threads keeps. */
  predicate Inv(s: State) {
    && s.received + s.queue == s.sent
    && PendingThenOne(s.sent)
    // a final answer is the poller's last act, and it stops for nothing else
    && (Final(s.sent) ==> s.poller == Stopped)
    && (s.poller == Stopped && s.hasClient && !s.panicked ==> Final(s.sent) || !s.receiverAlive)
    // the foreground goes on exactly as long as it has seen no final answer
    && (s.foreground == Receiving || s.foreground == Listening ==> s.receiverAlive && !Final(s.received))
    && (s.foreground == Confirmed || s.foreground == Exchanged ==>
          |s.received| > 0 && s.received[|s.received| - 1] == Authorized && !s.receiverAlive)
    && (s.foreground == Failed ==> |s.received| > 0 && s.received[|s.received| - 1] == CheckFailed && !s.receiverAlive)
    && (s.foreground == StoppedUnexpectedly ==> !s.hasClient || s.panicked)
    // the receiver lives as long as the loop
    && (s.receiverAlive <==> s.foreground == Receiving || s.foreground == Listening)
  }

  lemma StepInv(s: State, a: Action)
    requires Inv(s)
    ensures Inv(Step(s, a))
  {
    match a
    case Check(_) =>
    case Send => SendInv(s);
    case Wake =>
    case Panic =>
    case TryReceive => ReceiveInv(s);
    case Listen(_) =>
    case Exchange =>
  }

  lemma SendInv(s: State)
    requires Inv(s)
    ensures Inv(Step(s, Send))
  {
    var t := Step(s, Send);
    if s.poller.Sending? && s.receiverAlive {
      assert t.received + t.queue == t.sent;
      assert forall i :: 0 <= i < |s.sent| ==> t.sent[i] == s.sent[i];
    }
  }

  lemma ReceiveInv(s: State)
    requires Inv(s)
    ensures Inv(Step(s, TryReceive))
  {
    if s.foreground == Receiving {
      if s.queue == [] {
        ReceiveNothingInv(s);
      } else {
        ReceiveOneInv(s);
      }
    }
  }

  /** An empty channel: every answer sent has been received, so a poller that stopped had no final one. */
  lemma ReceiveNothingInv(s: State)
    requires Inv(s) && s.foreground == Receiving && s.queue == []
    ensures Inv(Step(s, TryReceive))
  {
    hide PendingThenOne;
    assert s.received + [] == s.received;
    assert s.received == s.sent;
  }

  lemma ReceiveOneInv(s: State)
    requires Inv(s) && s.foreground == Receiving && s.queue != []
    ensures Inv(Step(s, TryReceive))
  {
    hide PendingThenOne;
    Shift(s.received, s.queue);
  }

  lemma Shift<T>(taken: seq<T>, left: seq<T>)
    requires left != []
    ensures (taken + [left[0]]) + left[1..] == taken + left
  {
  }

  lemma {:induction false} RunInv(s: State, acts: seq<Action>)
    requires Inv(s)
    ensures Inv(Run(s, acts))
    decreases |acts|
  {
    hide Step, Inv;
    if acts != [] {
      StepInv(s, acts[0]);
      RunInv(Step(s, acts[0]), acts[1..]);
    }
  }

  lemma {:induction false} ClientIsFixed(s: State, acts: seq<Action>)
    ensures Run(s, acts).hasClient == s.hasClient
    decreases |acts|
  {
    if acts != [] {
      ClientIsFixed(Step(s, acts[0]), acts[1..]);
    }
  }

  /** In every run the channel carries `Pending` answers and then at most one that is not, in order and
      without loss, and once there is one nothing follows it. */
  lemma ChannelCarriesPendingThenOne(hasClient: bool, acts: seq<Action>)
    ensures var s := Run(Start(hasClient), acts);
            && s.received + s.queue == s.sent && PendingThenOne(s.sent) && (Final(s.sent) ==> s.poller == Stopped)
            && (s.receiverAlive <==> s.foreground == Receiving || s.foreground == Listening)
  {
    RunInv(Start(hasClient), acts);
  }

  /** With a client, and a poller that does not panic, `login` never reports a poller that stopped unexpectedly. */
  lemma NeverStopsUnexpectedly(acts: seq<Action>)
    requires Panic !in acts
    ensures Run(Start(true), acts).foreground != StoppedUnexpectedly
  {
    RunInv(Start(true), acts);
    ClientIsFixed(Start(true), acts);
    NoPanic(Start(true), acts);
  }

  lemma {:induction false} NoPanic(s: State, acts: seq<Action>)
    requires Panic !in acts
    ensures Run(s, acts).panicked == s.panicked
    decreases |acts|
  {
    if acts != [] {
      assert acts[0] in acts;
      NoPanic(Step(s, acts[0]), acts[1..]);
    }
  }

  /** Both conditions are needed: without a client the poller reports `Pending` once and stops, and a panic
      closes the channel. */
  lemma StopsUnexpectedlyOtherwise()
    ensures exists acts :: Panic !in acts && Run(Start(false), acts).foreground == StoppedUnexpectedly
    ensures exists acts :: Run(Start(true), acts).foreground == StoppedUnexpectedly
  {
    var acts := [Check(Pending), Send, TryReceive, Listen(false), TryReceive];
    var s1 := Step(Start(false), acts[0]);
    var s2 := Step(s1, acts[1]);
    var s3 := Step(s2, acts[2]);
    var s4 := Step(s3, acts[3]);
    RunFive(Start(false), acts);
    assert Step(s4, acts[4]).foreground == StoppedUnexpectedly;
    var panic := [Panic, TryReceive];
    assert panic[1..] == [TryReceive] && panic[1..][1..] == [];
    assert Run(Start(true), panic) == Step(Step(Start(true), Panic), TryReceive);
  }

  lemma RunFive(s: State, a: seq<Action>)
    requires |a| == 5
    ensures Run(s, a) == Step(Step(Step(Step(Step(s, a[0]), a[1]), a[2]), a[3]), a[4])
  {
    hide Step;
    RunFour(Step(s, a[0]), a[1..]);
  }

  /** The token exchange happens only after `Authorized` was received, after nothing but `Pending`,
      and from then on the poller reaches nobody. */
  lemma ExchangeOnlyAfterAuthorized(hasClient: bool, acts: seq<Action>)
    ensures var s := Run(Start(hasClient), acts);
            s.foreground == Confirmed || s.foreground == Exchanged ==>
              && !s.receiverAlive && s.queue == []
              && |s.received| > 0 && s.received[|s.received| - 1] == Authorized
              && forall i :: 0 <= i < |s.received| - 1 ==> s.received[i] == Pending
  {
    var s := Run(Start(hasClient), acts);
    RunInv(Start(hasClient), acts);
    if s.foreground == Confirmed || s.foreground == Exchanged {
      var n := |s.received|;
      assert s.sent[n - 1] == s.received[n - 1];
      assert s.sent[..n] == s.received;
      assert n - 1 == |s.sent| - 1;
    }
  }

  /** The escape key ends the login: whatever comes after it, nothing more is received and no token is asked for. */
  lemma EscapeEndsLogin(hasClient: bool, acts: seq<Action>, more: seq<Action>)
    requires Run(Start(hasClient), acts).foreground == Listening
    ensures var s := Run(Start(hasClient), acts); var t := Run(Step(s, Listen(true)), more);
            t.foreground == Cancelled && t.received == s.received && t.sent == s.sent
  {
    CancelledStays(Step(Run(Start(hasClient), acts), Listen(true)), more);
  }

  lemma {:induction false} CancelledStays(s: State, acts: seq<Action>)
    requires s.foreground == Cancelled && !s.receiverAlive
    ensures var t := Run(s, acts);
            t.foreground == Cancelled && !t.receiverAlive && t.received == s.received && t.sent == s.sent
    decreases |acts|
  {
    if acts != [] {
      CancelledStays(Step(s, acts[0]), acts[1..]);
    }
  }

  /** What holds as long as there is no client. */
  predicate Clientless(s: State) {
    && !s.hasClient && s.poller != Sleeping && (s.poller.Sending? ==> s.poller.outcome == Pending)
    && (s.sent == [] || (s.sent == [Pending] && s.poller == Stopped))
    && (forall i :: 0 <= i < |s.queue| ==> s.queue[i] == Pending)
    && (s.foreground == Receiving || s.foreground == Listening || s.foreground == Cancelled
        || s.foreground == StoppedUnexpectedly)
  }

  /** Without a client the poller says `Pending` once and stops, and the login neither succeeds nor fails. */
  lemma WithoutClient(acts: seq<Action>)
    ensures var s := Run(Start(false), acts);
            && (s.sent == [] || (s.sent == [Pending] && s.poller == Stopped))
            && (s.foreground == Receiving || s.foreground == Listening || s.foreground == Cancelled
                || s.foreground == StoppedUnexpectedly)
  {
    ClientlessRun(Start(false), acts);
  }

  lemma {:induction false} ClientlessRun(s: State, acts: seq<Action>)
    requires Clientless(s)
    ensures Clientless(Run(s, acts))
    decreases |acts|
  {
    if acts != [] {
      ClientlessStep(s, acts[0]);
      hide Step, Clientless;
      ClientlessRun(Step(s, acts[0]), acts[1..]);
    }
  }

  lemma ClientlessStep(s: State, a: Action)
    requires Clientless(s)
    ensures Clientless(Step(s, a))
  {
  }

  // ----- a session that is authorized at the first check

  /** Before the first check nothing has been sent and nobody has left but by the escape key. */
  predicate Unchecked(s: State) {
    && s.hasClient && !s.panicked && s.poller == Checking && s.sent == [] && s.queue == [] && s.received == []
    && (s.foreground == Receiving || s.foreground == Listening || s.foreground == Cancelled)
    && (s.receiverAlive <==> s.foreground != Cancelled)
  }

  /** After a first check that said yes, that yes is all there is to send, and it is under way or sent or moot. */
  predicate SaidYes(s: State) {
    && s.hasClient && !s.panicked
    && (|| (s.poller == Sending(Authorized) && s.sent == [])
        || (s.poller == Stopped && s.sent == [Authorized])
        || (s.poller == Stopped && s.sent == [] && s.foreground == Cancelled))
    && s.received + s.queue == s.sent
    && (s.foreground == Receiving || s.foreground == Listening ==> s.received == [] && s.receiverAlive)
    && s.foreground != Failed && s.foreground != StoppedUnexpectedly
    && (s.receiverAlive || s.foreground == Cancelled || s.received == [Authorized])
  }

  lemma {:induction false} UncheckedRun(s: State, acts: seq<Action>)
    requires Unchecked(s) && forall i :: 0 <= i < |acts| ==> !acts[i].Check? && acts[i] != Panic
    ensures Unchecked(Run(s, acts))
    decreases |acts|
  {
    if acts != [] {
      UncheckedRun(Step(s, acts[0]), acts[1..]);
    }
  }

  lemma SaidYesStep(s: State, a: Action)
    requires SaidYes(s) && a != Panic
    ensures SaidYes(Step(s, a))
  {
    match a
    case TryReceive =>
      if s.foreground == Receiving {
        assert s.received == [] && s.received + s.queue == s.queue;
        if s.queue != [] {
          assert s.queue == [Authorized] && s.queue[1..] == [];
          assert Step(s, a).received == [Authorized];
        }
      }
    case Send =>
      if s.poller.Sending? && s.receiverAlive {
        assert s.received == [] && s.queue == [] by {
          assert |s.received + s.queue| == 0;
        }
      }
    case _ =>
  }

  lemma {:induction false} SaidYesRun(s: State, acts: seq<Action>)
    requires SaidYes(s) && Panic !in acts
    ensures SaidYes(Run(s, acts))
    decreases |acts|
  {
    hide SaidYes, Step;
    if acts != [] {
      assert acts[0] in acts;
      SaidYesStep(s, acts[0]);
      SaidYesRun(Step(s, acts[0]), acts[1..]);
    }
  }

  lemma {:induction false} RunAppend(s: State, a: seq<Action>, b: seq<Action>)
    ensures Run(s, a + b) == Run(Run(s, a), b)
    decreases |a|
  {
    hide Step;
    if a == [] {
      assert a + b == b;
    } else {
      assert (a + b)[1..] == a[1..] + b;
      RunAppend(Step(s, a[0]), a[1..], b);
    }
  }

  /** In every run whose first check answers `Authorized`, no `Pending` is ever sent and the login neither fails nor
      reports a stopped poller; and at any point, unless the person has cancelled, one more step of each kind ends
      in the token exchange. */
  lemma AuthorizedAtOnce(before: seq<Action>, after: seq<Action>)
    requires (forall i :: 0 <= i < |before| ==> !before[i].Check? && before[i] != Panic) && Panic !in after
    ensures var s := Run(Start(true), before + [Check(Authorized)] + after);
            && (s.sent == [] || s.sent == [Authorized])
            && s.foreground != Failed && s.foreground != StoppedUnexpectedly
            && (s.foreground != Cancelled ==> Run(s, [Send, Listen(false), TryReceive, Exchange]).foreground == Exchanged)
  {
    FirstYes(before, after);
    var s := Run(Start(true), before + [Check(Authorized)] + after);
    hide Run, Step;
    if s.foreground != Cancelled {
      FinishLogin(s);
    }
  }

  lemma FirstYes(before: seq<Action>, after: seq<Action>)
    requires (forall i :: 0 <= i < |before| ==> !before[i].Check? && before[i] != Panic) && Panic !in after
    ensures SaidYes(Run(Start(true), before + [Check(Authorized)] + after))
  {
    hide Run;
    var s0 := Run(Start(true), before);
    UncheckedRun(Start(true), before);
    RunAppend(Start(true), before + [Check(Authorized)], after);
    RunAppend(Start(true), before, [Check(Authorized)]);
    RunOne(s0, Check(Authorized));
    SaidYesRun(Step(s0, Check(Authorized)), after);
  }

  lemma RunOne(s: State, a: Action)
    ensures Run(s, [a]) == Step(s, a)
  {
    hide Step;
    assert [a][1..] == [];
  }

  lemma FinishLogin(s: State)
    requires SaidYes(s) && s.foreground != Cancelled
    ensures Run(s, [Send, Listen(false), TryReceive, Exchange]).foreground == Exchanged
  {
    LastStretch(s);
    hide Step, SaidYes;
    RunFour(s, [Send, Listen(false), TryReceive, Exchange]);
  }

  /** Once the yes is sent and the foreground looks, it takes it. */
  lemma LastStretch(s: State)
    requires SaidYes(s) && s.foreground != Cancelled
    ensures Step(Step(Step(Step(s, Send), Listen(false)), TryReceive), Exchange).foreground == Exchanged
  {
    var t := Step(s, Send);
    SaidYesStep(s, Send);
    var u := Step(t, Listen(false));
    assert u.foreground == Receiving || u.foreground == Confirmed || u.foreground == Exchanged;
    if u.foreground == Receiving {
      assert t.received + t.queue == t.queue;
      assert u.queue == [Authorized];
    }
  }

  lemma RunFour(s: State, a: seq<Action>)
    requires |a| == 4
    ensures Run(s, a) == Step(Step(Step(Step(s, a[0]), a[1]), a[2]), a[3])
  {
    hide Step;
    assert a[1..][1..] == a[2..] && a[2..][1..] == a[3..] && a[3..][1..] == [];
    var t := Step(s, a[0]);
    assert Run(s, a) == Run(t, a[1..]) == Run(Step(t, a[1]), a[2..]);
    var u := Step(Step(t, a[1]), a[2]);
    assert Run(Step(t, a[1]), a[2..]) == Run(u, a[3..]) == Run(Step(u, a[3]), []);
  }

  // ----- a login that goes on can still succeed

  /** Steps of the foreground that take one answer after another off the channel. */
  lemma {:induction false} Drain(s: State) returns (acts: seq<Action>)
    requires s.foreground == Receiving && s.receiverAlive && s.queue != []
    requires PendingThenOne(s.queue) && s.queue[|s.queue| - 1] == Authorized
    ensures Run(s, acts).foreground == Confirmed && Panic !in acts
    decreases |s.queue|
  {
    if |s.queue| == 1 {
      acts := [TryReceive];
      RunOne(s, TryReceive);
    } else {
      var t := Step(Step(s, TryReceive), Listen(false));
      assert s.queue[0] == Pending && t.queue == s.queue[1..];
      var more := Drain(t);
      acts := [TryReceive, Listen(false)] + more;
      RunAppend(s, [TryReceive, Listen(false)], more);
      RunTwo(s, TryReceive, Listen(false));
    }
  }

  lemma RunTwo(s: State, a: Action, b: Action)
    ensures Run(s, [a, b]) == Step(Step(s, a), b)
  {
    hide Step;
    assert [a, b][1..] == [b];
    RunOne(Step(s, a), b);
  }

  /** The poller gets to send a yes, if it has not sent a final answer: it wakes, checks and sends. */
  lemma SendsYes(s: State) returns (acts: seq<Action>)
    requires s.hasClient && s.receiverAlive && s.poller != Stopped
    requires s.poller.Sending? ==> s.poller.outcome == Pending
    ensures Panic !in acts
    ensures var t := Run(s, acts);
            && t.foreground == s.foreground && t.receiverAlive && PendingTail(s.queue, t.queue)
  {
    var before := if s.poller.Sending? then [Send, Wake] else [Wake];
    var t := Run(s, before);
    if s.poller.Sending? {
      RunTwo(s, Send, Wake);
    } else {
      RunOne(s, Wake);
    }
    assert t.poller == Checking;
    RunTwo(t, Check(Authorized), Send);
    RunAppend(s, before, [Check(Authorized), Send]);
    acts := before + [Check(Authorized), Send];
    assert s.poller.Sending? ==> s.queue + [Pending] + [Authorized] == s.queue + [Pending, Authorized];
  }

  /** `after` is `before` with the yes at its end, at most one `Pending` in between. */
  predicate PendingTail(before: seq<Outcome>, after: seq<Outcome>) {
    after == before + [Authorized] || after == before + [Pending, Authorized]
  }

  /** In every run with a client, as long as the poller has not stopped, was not told that the check failed, and the
      foreground still loops, the login can still end in the token exchange, whatever was answered so far. */
  lemma CanStillSucceed(acts: seq<Action>) returns (more: seq<Action>)
    requires var s := Run(Start(true), acts);
             && s.receiverAlive && s.poller != Stopped && (s.poller.Sending? ==> s.poller.outcome == Pending)
    ensures Run(Start(true), acts + more).foreground == Exchanged && Panic !in more
  {
    var s := Run(Start(true), acts);
    RunInv(Start(true), acts);
    ClientIsFixed(Start(true), acts);
    NothingFinalYet(s);
    assert s.foreground == Receiving || s.foreground == Listening;
    hide Inv, Run;
    var yes := SendsYes(s);
    var t := Run(s, yes);
    var rest := Confirms(t);
    RunAppend(s, yes, rest);
    RunAppend(s, yes + rest, [Exchange]);
    RunOne(Run(t, rest), Exchange);
    more := yes + rest + [Exchange];
    RunAppend(Start(true), acts, more);
  }

  /** With the yes at the end of the channel, the foreground gets to it. */
  lemma Confirms(s: State) returns (acts: seq<Action>)
    requires (s.foreground == Receiving || s.foreground == Listening) && s.receiverAlive && s.queue != []
    requires PendingThenOne(s.queue) && s.queue[|s.queue| - 1] == Authorized
    ensures Run(s, acts).foreground == Confirmed && Panic !in acts
  {
    RunOne(s, Listen(false));
    var drained := Drain(Step(s, Listen(false)));
    RunAppend(s, [Listen(false)], drained);
    acts := [Listen(false)] + drained;
  }

  lemma NothingFinalYet(s: State)
    requires Inv(s) && s.poller != Stopped
    ensures forall i :: 0 <= i < |s.queue| ==> s.queue[i] == Pending
  {
    forall i | 0 <= i < |s.queue|
      ensures s.queue[i] == Pending
    {
      assert s.sent[|s.received| + i] == s.queue[i];
    }
  }
}
