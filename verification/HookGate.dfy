/**
  The PreToolUse gate of the hook engine: the matching hooks are asked one after the other, the most
  restrictive answer wins, the first denial ends it, and rewrites of the arguments are applied as they come.
*/
module HookGate {
  import opened Bytes
  import Glob

  /** `deny` */
  const DENY: Str := [100, 101, 110, 121]
  /** `ask` */
  const ASK: Str := [97, 115, 107]
  /** `allow` */
  const ALLOW: Str := [97, 108, 108, 111, 119]
  /** `block` */
  const BLOCK: Str := [98, 108, 111, 99, 107]
  /** `modify` */
  const MODIFY: Str := [109, 111, 100, 105, 102, 121]
  /** `blocked by hook` */
  const BLOCKED_BY_HOOK: Str := [98, 108, 111, 99, 107, 101, 100, 32, 98, 121, 32, 104, 111, 111, 107]
  /** `approved (hook ask)` */
  const APPROVED: Str := [97, 112, 112, 114, 111, 118, 101, 100, 32, 40, 104, 111, 111, 107, 32, 97, 115, 107, 41]
  /** `denied by approval prompt (hook ask): ` */
  const REFUSED: Str := [
    100, 101, 110, 105, 101, 100, 32, 98, 121, 32, 97, 112, 112, 114, 111, 118, 97, 108, 32,
    112, 114, 111, 109, 112, 116, 32, 40, 104, 111, 111, 107, 32, 97, 115, 107, 41, 58, 32]

  datatype Event = PreToolUse | PostToolUse | PostToolUseFailure | OtherEvent

  /** `hookSpecificOutput`. A JSON value is the text it is written out as. */
  datatype Specific = Specific(
    permission: Option<Str>, permissionReason: Option<Str>, updatedInput: Option<Str>, updatedToolOutput: Option<Str>)

  /** `Decision`: what a hook's last line of output says, when it is JSON of that shape. */
  datatype Decision = Decision(
    action: Option<Str>, decision: Option<Str>, reason: Option<Str>, args: Option<Str>, specific: Option<Specific>)

  /** A finished hook process. */
  datatype HookRun = HookRun(exitCode: Option<int>, stdout: Str, stderr: Str, decided: Option<Decision>)

  /** A configured hook, with what running it on this call gives; `None` when it could not be started or timed
      out. Every hook is sent the same payload, made before the first one runs, so no answer depends on
      another hook's rewrite. */
  datatype Hook = Hook(event: Event, matcher: Option<Str>, run: Option<HookRun>)

  /** `BeforeOutcome`. */
  datatype Outcome =
    | Proceed
    | Allow(reason: Option<Str>)
    | Ask(reason: Option<Str>)
    | Deny(why: Str)
    | DenyTurn(why: Str)
    | DenyTurnWithIntervention(why: Str, intervention: Str)

  function Rank(o: Outcome): nat {
    match o
    case Proceed => 0
    case Allow(_) => 1
    case Ask(_) => 2
    case Deny(_) => 3
    case DenyTurn(_) => 4
    case DenyTurnWithIntervention(_, _) => 4
  }

  predicate IsDeny(o: Outcome) {
    o.Deny? || o.DenyTurn? || o.DenyTurnWithIntervention?
  }

  function Stronger(a: Outcome, b: Outcome): Outcome {
    if Rank(b) >= Rank(a) then b else a
  }

  // ----- one hook

  /** What an interpreter or a shell prints when the hook's command itself did not start. */
  const SIGNATURES: seq<Str> := [
    [99, 97, 110, 39, 116, 32, 111, 112, 101, 110, 32, 102, 105, 108, 101] /* can't open file */,
    [99, 111, 109, 109, 97, 110, 100, 32, 110, 111, 116, 32, 102, 111, 117, 110, 100] /* command not found */,
    [99, 97, 110, 110, 111, 116, 32, 101, 120, 101, 99, 117, 116, 101] /* cannot execute */,
    [77, 111, 100, 117, 108, 101, 78, 111, 116, 70, 111, 117, 110, 100, 69, 114, 114, 111, 114] /* ModuleNotFoundError */,
    [78, 111, 32, 109, 111, 100, 117, 108, 101, 32, 110, 97, 109, 101, 100] /* No module named */,
    [73, 109, 112, 111, 114, 116, 69, 114, 114, 111, 114] /* ImportError */
  ]

  predicate IsLaunchFailure(text: Str) {
    exists i | 0 <= i < |SIGNATURES| :: Contains(text, SIGNATURES[i])
  }

  /** `deliberate_block_reason`: what a bare exit 2 says, unless it says nothing or that the hook is broken. */
  function DeliberateReason(stdout: Str, stderr: Str): Option<Str> {
    var reason := if Trim(stdout) != [] then Trim(stdout) else Trim(stderr);
    if reason == [] || IsLaunchFailure(reason) then None else Some(reason)
  }

  function Permission(d: Decision): Option<Str> {
    if d.specific.Some? then d.specific.value.permission else None
  }

  function DenyReason(d: Decision, tool: Str): Str {
    if d.specific.Some? && d.specific.value.permissionReason.Some? then d.specific.value.permissionReason.value
    else if d.reason.Some? then d.reason.value
    else BLOCKED_BY_HOOK + [32, 40] + tool + [41]
  }

  /** The gate one hook asks for. */
  function Answer(run: Option<HookRun>, tool: Str): Outcome {
    if run.None? then Proceed
    else if run.value.decided.Some? then
      var d := run.value.decided.value;
      if Permission(d) == Some(DENY) || d.decision == Some(BLOCK) || d.action == Some(BLOCK) then
        Deny(DenyReason(d, tool))
      else if Permission(d) == Some(ASK) then Ask(None)
      else if Permission(d) == Some(ALLOW) || d.action == Some(ALLOW) then Allow(None)
      else Proceed
    else if run.value.exitCode == Some(2) && DeliberateReason(run.value.stdout, run.value.stderr).Some? then
      Deny(DeliberateReason(run.value.stdout, run.value.stderr).value)
    else Proceed
  }

  /** The arguments one hook puts in place of the call's. */
  function Rewrite(run: Option<HookRun>): Option<Str> {
    if run.None? || run.value.decided.None? then None
    else
      var d := run.value.decided.value;
      if d.specific.Some? && d.specific.value.updatedInput.Some? then d.specific.value.updatedInput
      else if d.action == Some(MODIFY) then d.args else None
  }

  // ----- the fold

  /** The hooks of an event that match a tool, in their order. */
  function Matching(hooks: seq<Hook>, event: Event, tool: Str): seq<Hook> {
    if hooks == [] then []
    else
      var most, last := hooks[..|hooks| - 1], hooks[|hooks| - 1];
      Matching(most, event, tool) + if last.event == event && Glob.MatchesTool(last.matcher, tool) then [last] else []
  }

  /** `matched` is `hooks` at these places, which are, in order, those of the event whose matcher takes the tool. */
  ghost predicate Picks(hooks: seq<Hook>, event: Event, tool: Str, matched: seq<Hook>, places: seq<nat>) {
    && |places| == |matched|
    && (forall k :: 0 <= k < |places| ==> places[k] < |hooks| && matched[k] == hooks[places[k]])
    && (forall j, k :: 0 <= j < k < |places| ==> places[j] < places[k])
    && (forall i :: 0 <= i < |hooks| ==>
          (i in places <==> hooks[i].event == event && Glob.MatchesTool(hooks[i].matcher, tool)))
  }

  lemma {:induction false} MatchingPicks(hooks: seq<Hook>, event: Event, tool: Str) returns (places: seq<nat>)
    ensures Picks(hooks, event, tool, Matching(hooks, event, tool), places)
  {
    hide Glob.MatchesTool, Picks;
    if hooks == [] {
      places := [];
      PicksNothing(event, tool);
    } else {
      var n := |hooks| - 1;
      var most := MatchingPicks(hooks[..n], event, tool);
      if hooks[n].event == event && Glob.MatchesTool(hooks[n].matcher, tool) {
        places := most + [n];
        PicksLast(hooks, event, tool, Matching(hooks[..n], event, tool), most);
      } else {
        places := most;
        assert Matching(hooks, event, tool) == Matching(hooks[..n], event, tool);
        PicksNotLast(hooks, event, tool, Matching(hooks[..n], event, tool), most);
      }
    }
  }

  lemma PicksNothing(event: Event, tool: Str)
    ensures Picks([], event, tool, [], [])
  {
  }

  lemma PicksLast(hooks: seq<Hook>, event: Event, tool: Str, matched: seq<Hook>, places: seq<nat>)
    requires hooks != [] && Picks(hooks[..|hooks| - 1], event, tool, matched, places)
    requires var last := hooks[|hooks| - 1]; last.event == event && Glob.MatchesTool(last.matcher, tool)
    ensures Picks(hooks, event, tool, matched + [hooks[|hooks| - 1]], places + [|hooks| - 1])
  {
    hide Glob.MatchesTool;
    var n := |hooks| - 1;
    assert forall i :: 0 <= i < n ==> hooks[..n][i] == hooks[i];
    assert forall i :: 0 <= i < n ==> (i in places + [n] <==> i in places);
    assert (places + [n])[|places|] == n;
  }

  lemma PicksNotLast(hooks: seq<Hook>, event: Event, tool: Str, matched: seq<Hook>, places: seq<nat>)
    requires hooks != [] && Picks(hooks[..|hooks| - 1], event, tool, matched, places)
    requires var last := hooks[|hooks| - 1]; !(last.event == event && Glob.MatchesTool(last.matcher, tool))
    ensures Picks(hooks, event, tool, matched, places)
  {
    hide Glob.MatchesTool;
    var n := |hooks| - 1;
    assert forall i :: 0 <= i < n ==> hooks[..n][i] == hooks[i];
    assert n !in places;
  }

  method SelectMatching(hooks: seq<Hook>, event: Event, tool: Str)
    returns (matched: seq<Hook>, ghost places: seq<nat>)
    ensures Picks(hooks, event, tool, matched, places)
    ensures matched == Matching(hooks, event, tool)
  {
    hide Picks;
    matched := [];
    for i := 0 to |hooks|
      invariant matched == Matching(hooks[..i], event, tool)
    {
      assert hooks[..i + 1][..i] == hooks[..i];
      if hooks[i].event == event {
        var hit := Glob.MatchTool(hooks[i].matcher, tool);
        if hit {
          matched := matched + [hooks[i]];
        }
      }
    }
    assert hooks[..|hooks|] == hooks;
    places := MatchingPicks(hooks, event, tool);
  }

  function Answers(hooks: seq<Hook>, tool: Str): (answers: seq<Outcome>)
    ensures |answers| == |hooks|
  {
    seq(|hooks|, i requires 0 <= i < |hooks| => Answer(hooks[i].run, tool))
  }

  /** How many hooks run: all, or up to and with the first that denies. */
  function Asked(answers: seq<Outcome>): (n: nat)
    ensures n <= |answers|
    ensures forall i :: 0 <= i < n - 1 ==> !IsDeny(answers[i])
    ensures n < |answers| ==> n > 0 && IsDeny(answers[n - 1])
  {
    if answers == [] then 0
    else if IsDeny(answers[0]) then 1
    else
      var rest := Asked(answers[1..]);
      assert forall i :: 0 < i < rest ==> answers[i] == answers[1..][i - 1];
      1 + rest
  }

  /** The arguments after these hooks: the last rewrite among them, or what they were. */
  function Rewritten(hooks: seq<Hook>, arguments: Str): Str {
    if hooks == [] then arguments
    else
      var last := Rewrite(hooks[|hooks| - 1].run);
      if last.Some? then last.value else Rewritten(hooks[..|hooks| - 1], arguments)
  }

  /** The arguments the matching hooks leave when they are asked in this order: the last rewrite among those that run. */
  function LeftBy(matched: seq<Hook>, tool: Str, arguments: Str): Str {
    Rewritten(matched[..Asked(Answers(matched, tool))], arguments)
  }

  /** The most restrictive of all answers: one of them, or `Proceed`, and none outranks it; a denial is the first. */
  predicate IsGate(gate: Outcome, answers: seq<Outcome>) {
    && (forall i :: 0 <= i < |answers| ==> Rank(answers[i]) <= Rank(gate))
    && (gate == Proceed || gate in answers)
    && (IsDeny(gate) ==> Asked(answers) > 0 && gate == answers[Asked(answers) - 1])
  }

  class ToolCall {
    const id: Str
    const name: Str
    var arguments: Str

    constructor (id: Str, name: Str, arguments: Str)
      ensures this.id == id && this.name == name && this.arguments == arguments
    {
      this.id, this.name, this.arguments := id, name, arguments;
    }
  }

  /** `pre_tool_gate`. */
  method PreToolGate(hooks: seq<Hook>, call: ToolCall) returns (gate: Outcome)
    modifies call`arguments
    ensures var matched := Matching(hooks, PreToolUse, call.name);
            && IsGate(gate, Answers(matched, call.name))
            && call.arguments == LeftBy(matched, call.name, old(call.arguments))
    ensures GateOver(hooks, call.name, gate)
    ensures ArgumentsOver(hooks, call.name, old(call.arguments), call.arguments)
  {
    hide GateOver, ArgumentsOver, Picks;
    hide Rewrite, Answer, Asked, Rewritten, Matching;
    gate := Proceed;
    var matched;
    ghost var places;
    matched, places := SelectMatching(hooks, PreToolUse, call.name);
    ghost var answers := Answers(matched, call.name);
    NoneRewritten(matched, call.arguments);
    var i := 0;
    while i < |matched| && !IsDeny(gate)
      invariant i <= |matched|
      invariant forall j :: 0 <= j < i ==> Rank(answers[j]) <= Rank(gate)
      invariant gate == Proceed || gate in answers[..i]
      invariant forall j :: 0 <= j < i - 1 ==> !IsDeny(answers[j])
      invariant IsDeny(gate) ==> i > 0 && gate == answers[i - 1]
      invariant call.arguments == Rewritten(matched[..i], old(call.arguments))
    {
      var hook := matched[i];
      if hook.run.Some? {
        var rewrite := Rewrite(hook.run);
        if rewrite.Some? {
          call.arguments := rewrite.value;
        }
      }
      RewrittenStep(matched, i, old(call.arguments));
      var answer := Answer(hook.run, call.name);
      AnswerRank(hook.run, call.name);
      assert answer == answers[i];
      assert answers[..i + 1] == answers[..i] + [answer];
      gate := Stronger(gate, answer);
      i := i + 1;
    }
    AskedIs(answers, i);
    AnswersRanked(matched, call.name);
    assert IsDeny(gate) ==> gate in answers;
    GateIsOver(hooks, call.name, gate);
    ArgumentsAreOver(hooks, call.name, old(call.arguments));
  }

  lemma AnswerRank(run: Option<HookRun>, tool: Str)
    ensures Rank(Answer(run, tool)) <= 3
    ensures run.None? ==> Answer(run, tool) == Proceed && Rewrite(run) == None
    ensures IsDeny(Answer(run, tool)) <==> Rank(Answer(run, tool)) == 3
  {
  }

  lemma AnswersRanked(hooks: seq<Hook>, tool: Str)
    ensures forall i :: 0 <= i < |hooks| ==> Rank(Answers(hooks, tool)[i]) <= 3
  {
    forall i | 0 <= i < |hooks|
      ensures Rank(Answers(hooks, tool)[i]) <= 3
    {
      AnswerRank(hooks[i].run, tool);
    }
  }

  lemma NoneRewritten(hooks: seq<Hook>, arguments: Str)
    ensures Rewritten(hooks[..0], arguments) == arguments
  {
  }

  lemma RewrittenStep(hooks: seq<Hook>, i: nat, arguments: Str)
    requires i < |hooks|
    ensures Rewritten(hooks[..i + 1], arguments) ==
            if Rewrite(hooks[i].run).Some? then Rewrite(hooks[i].run).value else Rewritten(hooks[..i], arguments)
  {
    assert hooks[..i + 1][..i] == hooks[..i];
  }

  /** `n` is where the asking stops: no denial before its last, and a denial there unless it is the end. */
  lemma {:induction false} AskedIs(answers: seq<Outcome>, n: nat)
    requires n <= |answers| && (forall i :: 0 <= i < n - 1 ==> !IsDeny(answers[i]))
    requires n < |answers| ==> n > 0 && IsDeny(answers[n - 1])
    ensures Asked(answers) == n
  {
    if answers != [] && n > 1 {
      assert !IsDeny(answers[0]);
      assert forall i :: 0 <= i < n - 1 ==> answers[1..][i] == answers[i + 1];
      AskedIs(answers[1..], n - 1);
    } else if answers != [] && !IsDeny(answers[0]) {
      AskedIs(answers[1..], n - 1);
    }
  }

  // ----- what stopping early changes, and what it does not

  /** The fold over every hook, without stopping. */
  function FoldAll(answers: seq<Outcome>): Outcome {
    if answers == [] then Proceed else Stronger(FoldAll(answers[..|answers| - 1]), answers[|answers| - 1])
  }

  lemma {:induction false} FoldAllIsMax(answers: seq<Outcome>)
    ensures forall i :: 0 <= i < |answers| ==> Rank(answers[i]) <= Rank(FoldAll(answers))
    ensures FoldAll(answers) == Proceed || FoldAll(answers) in answers
  {
    if answers != [] {
      var most := answers[..|answers| - 1];
      FoldAllIsMax(most);
      assert forall i :: 0 <= i < |most| ==> most[i] == answers[i];
    }
  }

  /** Stopping at the first denial gives the same kind of outcome as asking every hook, and so does asking
      them in any other order. */
  lemma GateKindIsOrderFree(gate: Outcome, answers: seq<Outcome>, reordered: seq<Outcome>)
    requires IsGate(gate, answers) && multiset(answers) == multiset(reordered)
    ensures Rank(gate) == Rank(FoldAll(reordered))
  {
    FoldAllIsMax(reordered);
    var all := FoldAll(reordered);
    assert forall o :: o in answers <==> o in multiset(answers);
    assert forall o :: o in reordered <==> o in multiset(reordered);
    if all != Proceed {
      assert all in answers;
    }
    if gate != Proceed {
      assert gate in reordered;
    }
  }

  /** The shapes hooks answer with: a kind, or a reason to deny. */
  predicate HookShaped(answers: seq<Outcome>) {
    forall i :: 0 <= i < |answers| ==>
      answers[i] == Proceed || answers[i] == Allow(None) || answers[i] == Ask(None) || answers[i].Deny?
  }

  /** The gate is settled by the answers alone. */
  lemma GateIsDetermined(g: Outcome, h: Outcome, answers: seq<Outcome>)
    requires IsGate(g, answers) && IsGate(h, answers) && HookShaped(answers)
    ensures g == h
  {
    GateKindIsOrderFree(g, answers, answers);
    GateKindIsOrderFree(h, answers, answers);
  }

  /** No denial differs from another. */
  predicate OneReason(answers: seq<Outcome>) {
    forall i, j :: 0 <= i < |answers| && 0 <= j < |answers| && IsDeny(answers[i]) && IsDeny(answers[j]) ==>
      answers[i] == answers[j]
  }

  /** Whatever order the hooks are asked in, the gate is the same. */
  ghost predicate GateOrderFree(answers: seq<Outcome>) {
    forall reordered: seq<Outcome>, g: Outcome, h: Outcome ::
      multiset(reordered) == multiset(answers) && IsGate(g, answers) && IsGate(h, reordered) ==> g == h
  }

  /** The order of the hooks changes the gate: of two that deny, the first one's reason is given. */
  lemma ReasonDependsOnOrder(a: Str, b: Str)
    ensures IsGate(Deny(a), [Deny(a), Deny(b)]) && IsGate(Deny(b), [Deny(b), Deny(a)])
    ensures multiset([Deny(a), Deny(b)]) == multiset([Deny(b), Deny(a)])
  {
    AskedIs([Deny(a), Deny(b)], 1);
    AskedIs([Deny(b), Deny(a)], 1);
  }

  /** The gate does not depend on the order of the hooks exactly when those that deny all give one reason. */
  lemma GateOrderFreeExactly(answers: seq<Outcome>)
    requires HookShaped(answers)
    ensures GateOrderFree(answers) <==> OneReason(answers)
  {
    if OneReason(answers) {
      forall reordered: seq<Outcome>, g: Outcome, h: Outcome |
        multiset(reordered) == multiset(answers) && IsGate(g, answers) && IsGate(h, reordered)
        ensures g == h
      {
        OneReasonOneGate(answers, reordered, g, h);
      }
    } else {
      var i, j :| 0 <= i < |answers| && 0 <= j < |answers| && IsDeny(answers[i]) && IsDeny(answers[j])
                  && answers[i] != answers[j];
      FirstInLine(answers, i);
      FirstInLine(answers, j);
      var x, y := answers[i], answers[j];
      var g := SomeGate(answers);
      assert GateOrderFree(answers) ==> g == x && g == y;
    }
  }

  lemma OneReasonOneGate(answers: seq<Outcome>, reordered: seq<Outcome>, g: Outcome, h: Outcome)
    requires HookShaped(answers) && OneReason(answers) && multiset(reordered) == multiset(answers)
    requires IsGate(g, answers) && IsGate(h, reordered)
    ensures g == h
  {
    GateKindIsOrderFree(g, answers, reordered);
    GateKindIsOrderFree(h, reordered, reordered);
    assert forall o :: o in reordered ==> o in multiset(reordered);
    assert h == Proceed || h in answers;
    assert g == Proceed || g in answers;
  }

  /** Any denial can be made the first. */
  function Promoted<T>(s: seq<T>, i: nat): seq<T>
    requires i < |s|
  {
    [s[i]] + s[..i] + s[i + 1..]
  }

  lemma PromotedIsReordered<T>(s: seq<T>, i: nat)
    requires i < |s|
    ensures multiset(Promoted(s, i)) == multiset(s)
  {
    assert s == s[..i] + [s[i]] + s[i + 1..];
  }

  lemma FirstInLine(answers: seq<Outcome>, i: nat)
    requires HookShaped(answers) && i < |answers| && IsDeny(answers[i])
    ensures multiset(Promoted(answers, i)) == multiset(answers) && IsGate(answers[i], Promoted(answers, i))
  {
    PromotedIsReordered(answers, i);
    var r := Promoted(answers, i);
    assert r[0] == answers[i];
    AskedIs(r, 1);
    forall k | 0 <= k < |r|
      ensures Rank(r[k]) <= 3
    {
      assert r[k] in multiset(r);
      assert r[k] in answers;
    }
  }

  /** There always is a gate. */
  lemma SomeGate(answers: seq<Outcome>) returns (g: Outcome)
    requires HookShaped(answers)
    ensures IsGate(g, answers)
  {
    FoldAllIsMax(answers);
    g := FoldAll(answers);
    if IsDeny(g) {
      var i :| 0 <= i < |answers| && answers[i] == g;
      var n := Asked(answers);
      assert n > 0 && IsDeny(answers[n - 1]) by {
        if n == |answers| {
          assert i >= n - 1;
        }
      }
      g := answers[n - 1];
    }
  }

  // ----- the gate in terms of what the hooks print

  /** What a hook without a decision says: its trimmed output, or failing that its trimmed error output. */
  function Said(run: Option<HookRun>): Str {
    if run.None? then []
    else if Trim(run.value.stdout) != [] then Trim(run.value.stdout)
    else Trim(run.value.stderr)
  }

  /** A bare exit 2 that is meant: it says something, and nothing that reads like a failed launch. */
  predicate Refuses(run: Option<HookRun>) {
    && run.Some? && run.value.exitCode == Some(2) && Said(run) != []
    && forall i :: 0 <= i < |SIGNATURES| ==> !Contains(Said(run), SIGNATURES[i])
  }

  /** The permission a hook prints for the call. */
  predicate Permits(d: Decision, word: Str) {
    d.specific.Some? && d.specific.value.permission == Some(word)
  }

  /** A hook says no: in its decision, in any of the three ways, or by a deliberate exit 2 without one. */
  predicate SaysNo(run: Option<HookRun>) {
    run.Some? &&
    if run.value.decided.Some? then
      var d := run.value.decided.value;
      Permits(d, DENY) || d.decision == Some(BLOCK) || d.action == Some(BLOCK)
    else Refuses(run)
  }

  predicate SaysAsk(run: Option<HookRun>) {
    run.Some? && run.value.decided.Some? && Permits(run.value.decided.value, ASK)
  }

  predicate SaysAllow(run: Option<HookRun>) {
    run.Some? && run.value.decided.Some? &&
    (Permits(run.value.decided.value, ALLOW) || run.value.decided.value.action == Some(ALLOW))
  }

  /** Why a hook says no: the reason with the permission, else the decision's own, else that a hook blocked the tool;
      without a decision, what it said. */
  predicate SaysWhy(run: Option<HookRun>, tool: Str, why: Str) {
    run.Some? &&
    match run.value.decided
    case None => why == Said(run)
    case Some(d) =>
      if d.specific.Some? && d.specific.value.permissionReason.Some? then d.specific.value.permissionReason == Some(why)
      else if d.reason.Some? then d.reason == Some(why)
      else why == BLOCKED_BY_HOOK + [32, 40] + tool + [41]
  }

  /** The arguments a hook prints: an updated input, or else those of a `modify`. */
  predicate Prints(run: Option<HookRun>, text: Str) {
    && run.Some? && run.value.decided.Some?
    && var d := run.value.decided.value;
       || (d.specific.Some? && d.specific.value.updatedInput == Some(text))
       || (!(d.specific.Some? && d.specific.value.updatedInput.Some?) && d.action == Some(MODIFY) && d.args == Some(text))
  }

  lemma AnswerMeans(run: Option<HookRun>, tool: Str)
    ensures SaysNo(run) <==> IsDeny(Answer(run, tool))
    ensures SaysNo(run) ==> Answer(run, tool).Deny? && SaysWhy(run, tool, Answer(run, tool).why)
    ensures Rank(Answer(run, tool)) == if SaysNo(run) then 3
                                       else if SaysAsk(run) then 2
                                       else if SaysAllow(run) then 1
                                       else 0
  {
    hide Said, Refuses;
    if run.Some? && run.value.decided.None? {
      AnswerWithoutDecision(run, tool);
    }
  }

  lemma RewriteMeans(run: Option<HookRun>)
    ensures forall text :: Rewrite(run) == Some(text) <==> Prints(run, text)
  {
  }

  /** The hook at `i` is one for the call. */
  predicate Concerned(hooks: seq<Hook>, tool: Str, i: int) {
    0 <= i < |hooks| && hooks[i].event == PreToolUse && Glob.MatchesTool(hooks[i].matcher, tool)
  }

  /** The hook at `i` runs: it is one for the call, and none before it said no. */
  ghost predicate Runs(hooks: seq<Hook>, tool: Str, i: int) {
    Concerned(hooks, tool, i) && forall j :: j < i && Concerned(hooks, tool, j) ==> !SaysNo(hooks[j].run)
  }

  /** The gate over the configured hooks and what they print: one that says no denies, for the reason of the first
      that does; failing that one that asks makes it ask; failing that one that allows makes it allow. */
  ghost predicate GateOver(hooks: seq<Hook>, tool: Str, gate: Outcome) {
    var no := exists i :: Concerned(hooks, tool, i) && SaysNo(hooks[i].run);
    var ask := exists i :: Concerned(hooks, tool, i) && SaysAsk(hooks[i].run);
    var allow := exists i :: Concerned(hooks, tool, i) && SaysAllow(hooks[i].run);
    && (no ==> gate.Deny?)
    && (forall i :: Runs(hooks, tool, i) && SaysNo(hooks[i].run) ==> gate.Deny? && SaysWhy(hooks[i].run, tool, gate.why))
    && (!no && ask ==> gate.Ask?)
    && (!no && !ask && allow ==> gate.Allow?)
    && (!no && !ask && !allow ==> gate.Proceed?)
  }

  /** The hook at `i` is the last of those that run to print arguments. */
  ghost predicate LastPrints(hooks: seq<Hook>, tool: Str, text: Str, i: int) {
    && Runs(hooks, tool, i) && Prints(hooks[i].run, text)
    && forall j, other :: j > i && Runs(hooks, tool, j) ==> !Prints(hooks[j].run, other)
  }

  /** The arguments over the configured hooks: those the last hook to print any printed, among the hooks that run. */
  ghost predicate ArgumentsOver(hooks: seq<Hook>, tool: Str, before: Str, after: Str) {
    if exists i, text :: Runs(hooks, tool, i) && Prints(hooks[i].run, text)
    then exists i :: LastPrints(hooks, tool, after, i)
    else after == before
  }

  /** The hooks that run are the matching ones up to the first denial. */
  lemma RunsAre(hooks: seq<Hook>, tool: Str, places: seq<nat>, k: nat)
    requires var matched := Matching(hooks, PreToolUse, tool);
             Picks(hooks, PreToolUse, tool, matched, places) && k < |places|
    ensures Runs(hooks, tool, places[k]) <==> k < Asked(Answers(Matching(hooks, PreToolUse, tool), tool))
  {
    hide Matching, Glob.MatchesTool, SaysNo, Answer, Asked;
    var matched := Matching(hooks, PreToolUse, tool);
    var answers := Answers(matched, tool);
    var n := Asked(answers);
    forall m | 0 <= m < |matched|
      ensures Concerned(hooks, tool, places[m]) && (SaysNo(hooks[places[m]].run) <==> IsDeny(answers[m]))
    {
      assert places[m] in places;
      AnswerMeans(matched[m].run, tool);
    }
    if k < n {
      forall j | j < places[k] && Concerned(hooks, tool, j)
        ensures !SaysNo(hooks[j].run)
      {
        assert j in places;
        var m :| 0 <= m < |places| && places[m] == j;
        assert m < k;
      }
    } else {
      assert IsDeny(answers[n - 1]) && places[n - 1] < places[k];
    }
  }

  /** A matching hook is one for the call, and the other way round. */
  lemma ConcernedAre(hooks: seq<Hook>, tool: Str, matched: seq<Hook>, places: seq<nat>)
    requires Picks(hooks, PreToolUse, tool, matched, places)
    ensures |places| == |matched|
    ensures forall k :: 0 <= k < |places| ==> Concerned(hooks, tool, places[k]) && hooks[places[k]] == matched[k]
    ensures forall i :: Concerned(hooks, tool, i) ==> exists k :: 0 <= k < |places| && places[k] == i
  {
    hide Glob.MatchesTool;
    assert forall k :: 0 <= k < |places| ==> places[k] in places;
  }

  lemma GateIsOver(hooks: seq<Hook>, tool: Str, gate: Outcome)
    requires IsGate(gate, Answers(Matching(hooks, PreToolUse, tool), tool))
    ensures GateOver(hooks, tool, gate)
  {
    hide Matching, Glob.MatchesTool, Answer, Asked, SaysNo, SaysAsk, SaysAllow, SaysWhy, Picks, IsGate;
    var matched := Matching(hooks, PreToolUse, tool);
    var places := MatchingPicks(hooks, PreToolUse, tool);
    ConcernedAre(hooks, tool, matched, places);
    GateMeans(matched, tool, gate);
    GateShape(matched, tool, gate);
    forall i | Runs(hooks, tool, i) && SaysNo(hooks[i].run)
      ensures gate.Deny? && SaysWhy(hooks[i].run, tool, gate.why)
    {
      FirstNoGives(hooks, tool, gate, places, i);
    }
  }

  /** The first that says no gives the gate. */
  lemma FirstNoGives(hooks: seq<Hook>, tool: Str, gate: Outcome, places: seq<nat>, i: int)
    requires IsGate(gate, Answers(Matching(hooks, PreToolUse, tool), tool))
    requires Picks(hooks, PreToolUse, tool, Matching(hooks, PreToolUse, tool), places)
    requires Runs(hooks, tool, i) && SaysNo(hooks[i].run)
    ensures gate.Deny? && SaysWhy(hooks[i].run, tool, gate.why)
  {
    hide Matching, Glob.MatchesTool, Answer, Asked, SaysNo, SaysWhy, Picks;
    var matched := Matching(hooks, PreToolUse, tool);
    var answers := Answers(matched, tool);
    ConcernedAre(hooks, tool, matched, places);
    var k :| 0 <= k < |places| && places[k] == i;
    RunsAre(hooks, tool, places, k);
    AnswerMeans(matched[k].run, tool);
    assert IsDeny(answers[k]) && Rank(answers[k]) == 3;
    assert k == Asked(answers) - 1;
    GateShape(matched, tool, gate);
    assert IsDeny(gate);
  }

  lemma RunsConcerned(hooks: seq<Hook>, tool: Str, i: int)
    requires Runs(hooks, tool, i)
    ensures Concerned(hooks, tool, i)
  {
  }

  lemma GateShape(hooks: seq<Hook>, tool: Str, gate: Outcome)
    requires IsGate(gate, Answers(hooks, tool))
    ensures gate.Proceed? || gate.Allow? || gate.Ask? || gate.Deny?
  {
    hide Answer, Asked;
    if gate != Proceed {
      var k :| 0 <= k < |hooks| && Answers(hooks, tool)[k] == gate;
      AnswerRank(hooks[k].run, tool);
    }
  }

  /** The arguments are as they were when nobody rewrites, or the last rewrite. */
  lemma {:induction false} LastRewrite(hooks: seq<Hook>, arguments: Str) returns (last: Option<nat>)
    ensures last.None? ==> Rewritten(hooks, arguments) == arguments
    ensures last.None? ==> forall k :: 0 <= k < |hooks| ==> Rewrite(hooks[k].run).None?
    ensures last.Some? ==> last.value < |hooks| && Rewrite(hooks[last.value].run) == Some(Rewritten(hooks, arguments))
    ensures last.Some? ==> forall k :: last.value < k < |hooks| ==> Rewrite(hooks[k].run).None?
  {
    hide Rewrite;
    if hooks == [] {
      last := None;
    } else {
      var n := |hooks| - 1;
      if Rewrite(hooks[n].run).Some? {
        last := Some(n);
      } else {
        last := LastRewrite(hooks[..n], arguments);
        assert forall k :: 0 <= k < n ==> hooks[..n][k] == hooks[k];
      }
    }
  }

  lemma ArgumentsAreOver(hooks: seq<Hook>, tool: Str, before: Str)
    ensures ArgumentsOver(hooks, tool, before, LeftBy(Matching(hooks, PreToolUse, tool), tool, before))
  {
    hide Matching, Glob.MatchesTool, Asked, Rewrite, Prints, Rewritten, SaysNo, Picks, Answers;
    var matched := Matching(hooks, PreToolUse, tool);
    var n := Asked(Answers(matched, tool));
    var places := MatchingPicks(hooks, PreToolUse, tool);
    var ran := matched[..n];
    ConcernedAre(hooks, tool, matched, places);
    var after := Rewritten(ran, before);
    var last := LastRewrite(ran, before);
    PlacesAscend(hooks, tool, matched, places);
    if last.Some? {
      var k := last.value;
      RunsAre(hooks, tool, places, k);
      RewriteMeans(ran[k].run);
      forall j, other | j > places[k] && Runs(hooks, tool, j)
        ensures !Prints(hooks[j].run, other)
      {
        var m := RanAt(hooks, tool, matched, places, j);
        RewriteMeans(ran[m].run);
      }
      assert LastPrints(hooks, tool, after, places[k]);
    } else {
      forall i, text | Runs(hooks, tool, i)
        ensures !Prints(hooks[i].run, text)
      {
        var m := RanAt(hooks, tool, matched, places, i);
        RewriteMeans(ran[m].run);
      }
    }
  }

  lemma RanAt(hooks: seq<Hook>, tool: Str, matched: seq<Hook>, places: seq<nat>, i: int) returns (m: nat)
    requires matched == Matching(hooks, PreToolUse, tool) && Picks(hooks, PreToolUse, tool, matched, places)
    requires Runs(hooks, tool, i)
    ensures m < Asked(Answers(matched, tool)) && m < |places| && places[m] == i && matched[m] == hooks[i]
  {
    hide Matching, Asked, SaysNo, Answers, Glob.MatchesTool;
    ConcernedAre(hooks, tool, matched, places);
    m :| m < |places| && places[m] == i;
    RunsAre(hooks, tool, places, m);
  }

  lemma PlacesAscend(hooks: seq<Hook>, tool: Str, matched: seq<Hook>, places: seq<nat>)
    requires Picks(hooks, PreToolUse, tool, matched, places)
    ensures forall j, k :: 0 <= j < |places| && 0 <= k < |places| ==> (places[j] < places[k] <==> j < k)
  {
    forall j, k | 0 <= j < |places| && 0 <= k < |places|
      ensures places[j] < places[k] <==> j < k
    {
      if j != k {
        assert if j < k then places[j] < places[k] else places[k] < places[j];
      }
    }
  }

  /** Over all matching hooks and all they say: one no denies the call; failing that one `ask` makes it an ask;
      failing that one `allow` allows it. A hook that says several things does not get in its own way. */
  lemma GateMeans(hooks: seq<Hook>, tool: Str, gate: Outcome)
    requires IsGate(gate, Answers(hooks, tool))
    ensures IsDeny(gate) <==> exists i :: 0 <= i < |hooks| && SaysNo(hooks[i].run)
    ensures gate.Ask? <==> !IsDeny(gate) && exists i :: 0 <= i < |hooks| && SaysAsk(hooks[i].run)
    ensures gate.Allow? <==> !IsDeny(gate) && !gate.Ask? && exists i :: 0 <= i < |hooks| && SaysAllow(hooks[i].run)
  {
    var answers := Answers(hooks, tool);
    forall i | 0 <= i < |hooks|
      ensures Rank(answers[i]) == if SaysNo(hooks[i].run) then 3
                                  else if SaysAsk(hooks[i].run) then 2
                                  else if SaysAllow(hooks[i].run) then 1
                                  else 0
    {
      AnswerMeans(hooks[i].run, tool);
    }
    hide Answers, SaysNo, SaysAsk, SaysAllow, Asked;
    if gate != Proceed {
      var i :| 0 <= i < |answers| && answers[i] == gate;
    }
  }

  predicate FirstRefusal(hooks: seq<Hook>, i: nat) {
    i < |hooks| && Refuses(hooks[i].run) && forall j :: 0 <= j < i ==> !Refuses(hooks[j].run)
  }

  /** When no hook prints a decision, the gate denies in the words of the first that means its exit 2, proceeds if
      there is none, and never asks or allows; and the arguments stay as they were. */
  lemma GateWithoutDecisions(hooks: seq<Hook>, tool: Str, arguments: Str, gate: Outcome)
    requires IsGate(gate, Answers(hooks, tool))
    requires forall i :: 0 <= i < |hooks| && hooks[i].run.Some? ==> hooks[i].run.value.decided.None?
    ensures (forall i :: 0 <= i < |hooks| ==> !Refuses(hooks[i].run)) ==> gate == Proceed
    ensures forall i: nat :: FirstRefusal(hooks, i) ==> gate == Deny(Said(hooks[i].run))
    ensures LeftBy(hooks, tool, arguments) == arguments
  {
    var answers := Answers(hooks, tool);
    hide Answer, Refuses, Said, Rewrite, Asked;
    forall i | 0 <= i < |hooks|
      ensures answers[i] == if Refuses(hooks[i].run) then Deny(Said(hooks[i].run)) else Proceed
      ensures Rewrite(hooks[i].run) == None
    {
      AnswerWithoutDecision(hooks[i].run, tool);
    }
    hide Answers;
    forall i: nat | FirstRefusal(hooks, i)
      ensures gate == Deny(Said(hooks[i].run))
    {
      assert answers[i] == Deny(Said(hooks[i].run));
      AskedIs(answers, i + 1);
    }
    RewrittenIs(hooks[..Asked(answers)], arguments);
  }

  lemma AnswerWithoutDecision(run: Option<HookRun>, tool: Str)
    requires run.Some? ==> run.value.decided.None?
    ensures Answer(run, tool) == if Refuses(run) then Deny(Said(run)) else Proceed
    ensures Rewrite(run) == None
  {
    hide Trim, Contains;
  }

  // ----- what else depends on the order

  /** Without the short circuit the last denial's reason would be given instead of the first's. */
  lemma {:induction false} FoldAllKeepsLastReason(answers: seq<Outcome>, last: nat)
    requires HookShaped(answers) && last < |answers| && IsDeny(answers[last])
    requires forall i :: last < i < |answers| ==> !IsDeny(answers[i])
    ensures FoldAll(answers) == answers[last]
    decreases |answers|
  {
    var most := answers[..|answers| - 1];
    assert forall i :: 0 <= i < |most| ==> most[i] == answers[i];
    if last < |answers| - 1 {
      FoldAllKeepsLastReason(most, last);
    } else {
      FoldAllIsMax(most);
      if FoldAll(most) != Proceed {
        var i :| 0 <= i < |most| && most[i] == FoldAll(most);
        assert answers[i] == FoldAll(most);
      }
    }
  }

  /** How many hooks run does not depend on their order exactly when none of them denies or all do. */
  lemma AskedOrderFreeExactly(answers: seq<Outcome>)
    ensures (forall reordered: seq<Outcome> :: multiset(reordered) == multiset(answers) ==>
               Asked(reordered) == Asked(answers))
       <==> || (forall i :: 0 <= i < |answers| ==> !IsDeny(answers[i]))
            || (forall i :: 0 <= i < |answers| ==> IsDeny(answers[i]))
  {
    if forall i :: 0 <= i < |answers| ==> !IsDeny(answers[i]) {
      forall reordered: seq<Outcome> | multiset(reordered) == multiset(answers)
        ensures Asked(reordered) == Asked(answers)
      {
        SameKind(answers, reordered, false);
        AskedIs(answers, |answers|);
        AskedIs(reordered, |answers|);
      }
    } else if forall i :: 0 <= i < |answers| ==> IsDeny(answers[i]) {
      forall reordered: seq<Outcome> | multiset(reordered) == multiset(answers)
        ensures Asked(reordered) == Asked(answers)
      {
        SameKind(answers, reordered, true);
        AskedIs(answers, 1);
        AskedIs(reordered, 1);
      }
    } else {
      var i :| 0 <= i < |answers| && IsDeny(answers[i]);
      var j :| 0 <= j < |answers| && !IsDeny(answers[j]);
      PromotedIsReordered(answers, i);
      PromotedIsReordered(answers, j);
      var x, y := Promoted(answers, i), Promoted(answers, j);
      assert x[0] == answers[i] && y[0] == answers[j];
      AskedIs(x, 1);
      assert Asked(y) >= 2 by {
        if Asked(y) < |y| {
          assert IsDeny(y[Asked(y) - 1]);
        } else {
          assert |y| >= 2;
        }
      }
    }
  }

  lemma SameKind(answers: seq<Outcome>, reordered: seq<Outcome>, deny: bool)
    requires multiset(reordered) == multiset(answers) && forall i :: 0 <= i < |answers| ==> IsDeny(answers[i]) == deny
    ensures |reordered| == |answers| && forall i :: 0 <= i < |reordered| ==> IsDeny(reordered[i]) == deny
  {
    assert |answers| == |multiset(answers)| == |multiset(reordered)| == |reordered|;
    forall i | 0 <= i < |reordered|
      ensures IsDeny(reordered[i]) == deny
    {
      assert reordered[i] in multiset(reordered);
      assert reordered[i] in answers;
    }
  }

  /** No rewrite differs from another. */
  predicate OneRewrite(hooks: seq<Hook>) {
    forall i, j :: 0 <= i < |hooks| && 0 <= j < |hooks| && Rewrite(hooks[i].run).Some? && Rewrite(hooks[j].run).Some? ==>
      Rewrite(hooks[i].run) == Rewrite(hooks[j].run)
  }

  predicate Denies(h: Hook, tool: Str) {
    IsDeny(Answer(h.run, tool))
  }

  /** What one hook alone makes of the arguments. */
  function Leaves(h: Hook, arguments: Str): Str {
    if Rewrite(h.run).Some? then Rewrite(h.run).value else arguments
  }

  /** Hooks whose order does not matter to the arguments. Where some deny: all that deny leave the same text, and if
      one of them rewrites nothing, no hook rewrites to anything new. Where none does: no two rewrites differ. */
  ghost predicate OneResult(hooks: seq<Hook>, tool: Str, arguments: Str) {
    if exists d :: d in hooks && Denies(d, tool) then
      && (forall d, e :: d in hooks && e in hooks && Denies(d, tool) && Denies(e, tool) ==>
            Leaves(d, arguments) == Leaves(e, arguments))
      && (forall d, h :: d in hooks && Denies(d, tool) && Rewrite(d.run).None? && h in hooks ==>
            Leaves(h, arguments) == arguments)
    else OneRewrite(hooks)
  }

  ghost predicate ArgumentsOrderFree(hooks: seq<Hook>, tool: Str, arguments: Str) {
    forall reordered: seq<Hook> :: multiset(reordered) == multiset(hooks) ==>
      LeftBy(reordered, tool, arguments) == LeftBy(hooks, tool, arguments)
  }

  /** The arguments the gate leaves do not depend on the order of the hooks exactly when that holds. */
  lemma ArgumentsOrderFreeExactly(hooks: seq<Hook>, tool: Str, arguments: Str)
    ensures ArgumentsOrderFree(hooks, tool, arguments) <==> OneResult(hooks, tool, arguments)
  {
    hide Answers, Asked, Rewrite, LeftBy, Denies, Leaves, OneRewrite, OneResult, ArgumentsOrderFree;
    if OneResult(hooks, tool, arguments) {
      OneResultSuffices(hooks, tool, arguments);
    }
    if ArgumentsOrderFree(hooks, tool, arguments) {
      OneResultIsNeeded(hooks, tool, arguments);
    }
  }

  lemma OneResultSuffices(hooks: seq<Hook>, tool: Str, arguments: Str)
    requires OneResult(hooks, tool, arguments)
    ensures ArgumentsOrderFree(hooks, tool, arguments)
  {
    hide Answers, Asked, Rewrite, LeftBy, Denies, Leaves, OneRewrite, OneResult;
    forall reordered: seq<Hook> | multiset(reordered) == multiset(hooks)
      ensures LeftBy(reordered, tool, arguments) == LeftBy(hooks, tool, arguments)
    {
      SameHooks(hooks, reordered);
      if exists d :: d in hooks && Denies(d, tool) {
        var d := LeftByADenier(hooks, hooks, tool, arguments);
        var e := LeftByADenier(hooks, reordered, tool, arguments);
        DeniersLeave(hooks, tool, arguments, d, e);
      } else {
        LeftByAll(hooks, tool, arguments);
        LeftByAll(reordered, tool, arguments);
        OneRewriteLeft(hooks, reordered, tool, arguments);
      }
    }
  }

  lemma DeniersLeave(hooks: seq<Hook>, tool: Str, arguments: Str, d: Hook, e: Hook)
    requires OneResult(hooks, tool, arguments) && d in hooks && e in hooks && Denies(d, tool) && Denies(e, tool)
    ensures Leaves(d, arguments) == Leaves(e, arguments)
  {
    hide Denies, Leaves, OneRewrite;
  }

  lemma SameHooks(hooks: seq<Hook>, reordered: seq<Hook>)
    requires multiset(reordered) == multiset(hooks)
    ensures forall h :: h in reordered <==> h in hooks
  {
    assert forall h :: h in hooks <==> h in multiset(hooks);
    assert forall h :: h in reordered <==> h in multiset(reordered);
  }

  /** The first to deny is the last to run. */
  lemma LeftByFirst(hooks: seq<Hook>, tool: Str, arguments: Str, k: nat)
    requires k < |hooks| && Denies(hooks[k], tool) && forall i :: 0 <= i < k ==> !Denies(hooks[i], tool)
    ensures LeftBy(hooks, tool, arguments) ==
            if Rewrite(hooks[k].run).Some? then Rewrite(hooks[k].run).value else Rewritten(hooks[..k], arguments)
  {
    hide Rewrite, Asked, Answer;
    var answers := Answers(hooks, tool);
    assert forall i :: 0 <= i < |hooks| ==> IsDeny(answers[i]) == Denies(hooks[i], tool);
    AskedIs(answers, k + 1);
    RewrittenStep(hooks, k, arguments);
  }

  lemma LeftByAll(hooks: seq<Hook>, tool: Str, arguments: Str)
    requires forall h :: h in hooks ==> !Denies(h, tool)
    ensures LeftBy(hooks, tool, arguments) == Rewritten(hooks, arguments)
  {
    hide Rewrite, Asked, Answer;
    var answers := Answers(hooks, tool);
    forall i | 0 <= i < |hooks|
      ensures !IsDeny(answers[i])
    {
      assert hooks[i] in hooks && !Denies(hooks[i], tool);
    }
    AskedIs(answers, |hooks|);
    assert hooks[..|hooks|] == hooks;
  }

  lemma FirstDenier(hooks: seq<Hook>, tool: Str) returns (k: nat)
    requires exists d :: d in hooks && Denies(d, tool)
    ensures k < |hooks| && Denies(hooks[k], tool) && forall i :: 0 <= i < k ==> !Denies(hooks[i], tool)
  {
    hide Denies;
    var d :| d in hooks && Denies(d, tool);
    k :| k < |hooks| && hooks[k] == d;
    while exists j: nat :: j < k && Denies(hooks[j], tool)
      invariant k < |hooks| && Denies(hooks[k], tool)
      decreases k
    {
      var j: nat :| j < k && Denies(hooks[j], tool);
      k := j;
    }
  }

  /** Where the condition holds, whatever order the hooks are asked in, what is left is what some denier leaves. */
  lemma LeftByADenier(hooks: seq<Hook>, reordered: seq<Hook>, tool: Str, arguments: Str) returns (d: Hook)
    requires OneResult(hooks, tool, arguments) && (forall h :: h in reordered <==> h in hooks)
    requires exists e :: e in hooks && Denies(e, tool)
    ensures d in hooks && Denies(d, tool) && LeftBy(reordered, tool, arguments) == Leaves(d, arguments)
  {
    hide Denies, LeftBy, Rewrite, OneRewrite;
    var e :| e in hooks && Denies(e, tool);
    assert e in reordered;
    var k := FirstDenier(reordered, tool);
    d := reordered[k];
    LeftByFirst(reordered, tool, arguments, k);
    if Rewrite(d.run).None? {
      forall h | h in reordered[..k] && Rewrite(h.run).Some?
        ensures Rewrite(h.run).value == arguments
      {
        assert h in reordered;
        assert Leaves(h, arguments) == arguments;
      }
      RewrittenIs(reordered[..k], arguments);
    }
  }

  lemma OneRewriteLeft(hooks: seq<Hook>, reordered: seq<Hook>, tool: Str, arguments: Str)
    requires OneResult(hooks, tool, arguments) && (forall h :: h in reordered <==> h in hooks)
    requires forall d :: d in hooks ==> !Denies(d, tool)
    ensures Rewritten(reordered, arguments) == Rewritten(hooks, arguments)
  {
    hide Rewrite, Denies;
    RewrittenIs(hooks, arguments);
    RewrittenIs(reordered, arguments);
  }

  lemma OneResultIsNeeded(hooks: seq<Hook>, tool: Str, arguments: Str)
    requires ArgumentsOrderFree(hooks, tool, arguments)
    ensures OneResult(hooks, tool, arguments)
  {
    hide Rewrite, LeftBy, Denies, Leaves, OneRewrite, ArgumentsOrderFree;
    if exists d :: d in hooks && Denies(d, tool) {
      forall d, e | d in hooks && e in hooks && Denies(d, tool) && Denies(e, tool)
        ensures Leaves(d, arguments) == Leaves(e, arguments)
      {
        DenierAlone(hooks, tool, arguments, d);
        DenierAlone(hooks, tool, arguments, e);
      }
      forall d, h | d in hooks && Denies(d, tool) && Rewrite(d.run).None? && h in hooks
        ensures Leaves(h, arguments) == arguments
      {
        DenierAlone(hooks, tool, arguments, d);
        SilentDenier(d, arguments);
        if Denies(h, tool) {
          DenierAlone(hooks, tool, arguments, h);
        } else {
          RewriteBeforeDenier(hooks, tool, arguments, d, h);
        }
      }
    } else {
      RewritesAgree(hooks, tool, arguments);
    }
  }

  lemma SilentDenier(d: Hook, arguments: Str)
    requires Rewrite(d.run).None?
    ensures Leaves(d, arguments) == arguments
  {
  }

  /** Any denier can be asked first, and then it alone runs. */
  lemma DenierAlone(hooks: seq<Hook>, tool: Str, arguments: Str, d: Hook)
    requires ArgumentsOrderFree(hooks, tool, arguments) && d in hooks && Denies(d, tool)
    ensures LeftBy(hooks, tool, arguments) == Leaves(d, arguments)
  {
    hide Rewrite, LeftBy, Denies;
    var i :| 0 <= i < |hooks| && hooks[i] == d;
    PromotedIsReordered(hooks, i);
    var first := Promoted(hooks, i);
    assert first[0] == d;
    LeftByFirst(first, tool, arguments, 0);
  }

  /** Any other hook can be asked right before a denier that rewrites nothing. */
  lemma RewriteBeforeDenier(hooks: seq<Hook>, tool: Str, arguments: Str, d: Hook, h: Hook)
    requires ArgumentsOrderFree(hooks, tool, arguments)
    requires d in hooks && Denies(d, tool) && Rewrite(d.run).None? && h in hooks && !Denies(h, tool)
    ensures LeftBy(hooks, tool, arguments) == Leaves(h, arguments)
  {
    hide Rewrite, LeftBy, Denies;
    var i :| 0 <= i < |hooks| && hooks[i] == d;
    PromotedIsReordered(hooks, i);
    var once := Promoted(hooks, i);
    SameHooks(hooks, once);
    var j :| 0 <= j < |once| && once[j] == h;
    assert once[0] == d && j > 0;
    PromotedIsReordered(once, j);
    var twice := Promoted(once, j);
    assert twice[0] == h && twice[1] == d;
    LeftByFirst(twice, tool, arguments, 1);
    assert twice[..1] == [h];
    RewrittenStep(twice, 0, arguments);
  }

  /** The order of the hooks changes the arguments: what a hook rewrites stays when a denial comes after it and is not
      made when it comes before. */
  lemma ArgumentsDependOnOrder(h: Hook, d: Hook, tool: Str, arguments: Str)
    requires !Denies(h, tool) && Denies(d, tool) && Rewrite(d.run).None?
    ensures LeftBy([h, d], tool, arguments) == Leaves(h, arguments)
    ensures LeftBy([d, h], tool, arguments) == arguments
  {
    hide Rewrite, LeftBy, Denies;
    LeftByFirst([h, d], tool, arguments, 1);
    LeftByFirst([d, h], tool, arguments, 0);
    assert [h, d][..1] == [h];
    RewrittenStep([h, d], 0, arguments);
  }

  lemma RewritesAgree(hooks: seq<Hook>, tool: Str, arguments: Str)
    requires ArgumentsOrderFree(hooks, tool, arguments) && forall d :: d in hooks ==> !Denies(d, tool)
    ensures OneRewrite(hooks)
  {
    hide Rewrite, LeftBy, Denies;
    forall i, j | 0 <= i < |hooks| && 0 <= j < |hooks| && Rewrite(hooks[i].run).Some? && Rewrite(hooks[j].run).Some?
      ensures Rewrite(hooks[i].run) == Rewrite(hooks[j].run)
    {
      LastRewrites(hooks, tool, arguments, i);
      LastRewrites(hooks, tool, arguments, j);
    }
  }

  /** Where none denies, any rewrite can be made the last. */
  lemma LastRewrites(hooks: seq<Hook>, tool: Str, arguments: Str, i: nat)
    requires ArgumentsOrderFree(hooks, tool, arguments) && forall d :: d in hooks ==> !Denies(d, tool)
    requires i < |hooks| && Rewrite(hooks[i].run).Some?
    ensures Rewrite(hooks[i].run) == Some(LeftBy(hooks, tool, arguments))
  {
    hide Rewrite, LeftBy, Denies;
    var reordered := hooks[..i] + hooks[i + 1..] + [hooks[i]];
    LastInLine(hooks, i, arguments);
    SameHooks(hooks, reordered);
    LeftByAll(reordered, tool, arguments);
  }

  /** The arguments are as they were when nobody rewrites, or what some hook rewrote them to. */
  lemma {:induction false} RewrittenIs(hooks: seq<Hook>, arguments: Str)
    ensures (forall h :: h in hooks ==> Rewrite(h.run).None?) ==> Rewritten(hooks, arguments) == arguments
    ensures (exists h :: h in hooks && Rewrite(h.run).Some?) ==>
              exists h :: h in hooks && Rewrite(h.run) == Some(Rewritten(hooks, arguments))
  {
    hide Rewrite;
    if hooks != [] {
      var most, last := hooks[..|hooks| - 1], hooks[|hooks| - 1];
      assert hooks == most + [last];
      RewrittenIs(most, arguments);
      if Rewrite(last.run).Some? {
        assert last in hooks && Rewrite(last.run) == Some(Rewritten(hooks, arguments));
      } else {
        assert forall h :: h in hooks && Rewrite(h.run).Some? ==> h in most;
        assert forall h :: h in most ==> h in hooks;
      }
    }
  }

  /** Any rewrite can be made the last. */
  lemma LastInLine(hooks: seq<Hook>, i: nat, arguments: Str)
    requires i < |hooks| && Rewrite(hooks[i].run).Some?
    ensures var reordered := hooks[..i] + hooks[i + 1..] + [hooks[i]];
            multiset(reordered) == multiset(hooks) && Rewritten(reordered, arguments) == Rewrite(hooks[i].run).value
  {
    assert hooks == hooks[..i] + [hooks[i]] + hooks[i + 1..];
  }

  // ----- before

  /** What comes back for a hook-forced prompt. */
  datatype Approval = Approved | RefusedByUser | Unanswered(degraded: Str)

  function ResolveAsk(approval: Approval, tool: Str): Outcome {
    match approval
    case Approved => Allow(Some(APPROVED))
    case RefusedByUser => Deny(REFUSED + tool)
    case Unanswered(degraded) => Deny(degraded)
  }

  /** `before`, up to the note it leaves for the post-tool hooks: an `ask` becomes a real answer, after the
      fold, so that it never outranks a denial. */
  method Before(hooks: seq<Hook>, call: ToolCall, approval: Approval) returns (gate: Outcome)
    modifies call`arguments
    ensures var matched := Matching(hooks, PreToolUse, call.name);
            && Resolves(gate, Answers(matched, call.name), approval, call.name)
            && call.arguments == LeftBy(matched, call.name, old(call.arguments))
    ensures ArgumentsOver(hooks, call.name, old(call.arguments), call.arguments)
  {
    gate := PreToolGate(hooks, call);
    ghost var pre := gate;
    ghost var answers := Answers(Matching(hooks, PreToolUse, call.name), call.name);
    hide Answers, Matching, LeftBy, GateOver, ArgumentsOver;
    if gate.Ask? {
      gate := ResolveAsk(approval, call.name);
    }
    assert IsGate(pre, answers);
  }

  /** What leaves `before`: the gate of the hooks, or, where that is to ask, what the asking came to. */
  ghost predicate Resolves(gate: Outcome, answers: seq<Outcome>, approval: Approval, tool: Str) {
    exists pre :: IsGate(pre, answers) && gate == if pre.Ask? then ResolveAsk(approval, tool) else pre
  }

  /** No `ask` leaves `before`, and it denies exactly when some hook said no, or one asked and approval did not
      come; a no of a hook keeps the first denier's reason whatever the approval. */
  lemma BeforeDenies(hooks: seq<Hook>, tool: Str, gate: Outcome, approval: Approval)
    requires Resolves(gate, Answers(hooks, tool), approval, tool)
    ensures !gate.Ask?
    ensures IsDeny(gate) <==>
            || (exists i :: 0 <= i < |hooks| && SaysNo(hooks[i].run))
            || ((exists i :: 0 <= i < |hooks| && SaysAsk(hooks[i].run)) && !approval.Approved?)
    ensures (exists i :: 0 <= i < |hooks| && SaysNo(hooks[i].run)) ==>
              var n := Asked(Answers(hooks, tool)); n > 0 && gate == Answers(hooks, tool)[n - 1]
    ensures (forall i :: 0 <= i < |hooks| ==> !SaysNo(hooks[i].run))
            && (exists i :: 0 <= i < |hooks| && SaysAsk(hooks[i].run)) ==>
              match approval
              case Approved => gate == Allow(Some(APPROVED))
              case RefusedByUser => gate == Deny(REFUSED + tool)
              case Unanswered(degraded) => gate == Deny(degraded)
  {
    var pre :| IsGate(pre, Answers(hooks, tool)) && gate == if pre.Ask? then ResolveAsk(approval, tool) else pre;
    GateMeans(hooks, tool, pre);
    hide Answers, Asked, SaysNo, SaysAsk, SaysAllow;
  }
}
