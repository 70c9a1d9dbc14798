/**
  The post-tool side of the hook engine: `before` remembers the tool name of a call that will run, under the
  call's id, and `post_tool` takes it back when that call's result comes in, however calls interleave.
*/
module PostTool {
  import opened Bytes
  import Glob
  import HookGate

  /** `post_tool_matches`: without a name only a matcher for all tools may fire. */
  predicate PostToolMatches(matcher: Option<Str>, tool: Option<Str>) {
    if tool.Some? then Glob.MatchesTool(matcher, tool.value)
    else matcher.None? || matcher.value == [Glob.STAR]
  }

  /** A matcher that fires with no name fires for every name. */
  lemma NamelessMatchesAll(matcher: Option<Str>, tool: Str)
    requires PostToolMatches(matcher, None)
    ensures PostToolMatches(matcher, Some(tool))
  {
  }

  /** A run of stars and nothing else. */
  predicate OnlyStars(pat: Str) {
    |pat| > 0 && forall i :: 0 <= i < |pat| ==> pat[i] == Glob.STAR
  }

  lemma {:induction false} OnlyStarsTakeAll(pat: Str, s: Str)
    requires OnlyStars(pat)
    ensures Glob.Matches(pat, s)
  {
    if |pat| == 1 {
      assert pat == [Glob.STAR];
      Glob.StarTakesAll(s);
    } else {
      OnlyStarsTakeAll(pat[1..], s);
      assert s[0..] == s;
    }
  }

  /** The alternative at `i` is stars alone. */
  predicate StarsAt(matcher: Str, i: int) {
    0 <= i < |SplitOn(matcher, Glob.BAR)| && OnlyStars(Trim(SplitOn(matcher, Glob.BAR)[i]))
  }

  /** Not the other way round. A matcher fires without a name exactly when it is absent or a single star; every
      other matcher that is empty, or has an alternative of stars alone, takes every named tool and yet does
      not fire without a name. */
  lemma NamelessExactly(matcher: Option<Str>)
    ensures PostToolMatches(matcher, None) <==> matcher in {None, Some([Glob.STAR])}
    ensures matcher.Some? && matcher != Some([Glob.STAR])
            && (matcher.value == [] || exists i :: StarsAt(matcher.value, i)) ==>
              !PostToolMatches(matcher, None) && forall tool: Str :: PostToolMatches(matcher, Some(tool))
  {
    if matcher.Some? && matcher.value != [] {
      forall i, tool: Str | StarsAt(matcher.value, i)
        ensures PostToolMatches(matcher, Some(tool))
      {
        OnlyStarsTakeAll(Trim(SplitOn(matcher.value, Glob.BAR)[i]), tool);
      }
    }
  }

  /** Two that fail: the empty matcher, and `**`. */
  lemma NamelessWitnesses()
    ensures !PostToolMatches(Some([]), None) && forall tool: Str :: PostToolMatches(Some([]), Some(tool))
    ensures !PostToolMatches(Some([Glob.STAR, Glob.STAR]), None)
    ensures forall tool: Str :: PostToolMatches(Some([Glob.STAR, Glob.STAR]), Some(tool))
  {
    var stars: Str := [Glob.STAR, Glob.STAR];
    SplitOnWhole(stars, Glob.BAR);
    assert Trim(stars) == stars && StarsAt(stars, 0);
    NamelessExactly(Some(stars));
    NamelessExactly(Some([]));
  }

  // ----- the name map over a run

  /** What happens to calls: one passes `before`, and is noted unless denied; one's result comes in. */
  datatype CallEvent = Noted(id: Str, name: Str, denied: bool) | Posted(id: Str)

  /** The name map after a run, with post-tool hooks configured. */
  function Names(run: seq<CallEvent>): map<Str, Str> {
    if run == [] then map[]
    else
      var m := Names(run[..|run| - 1]);
      match run[|run| - 1]
      case Noted(id, name, denied) => if denied then m else m[id := name]
      case Posted(id) => m - {id}
  }

  /** The call noted at `i` is under way: it was not denied and its result has not come in. */
  ghost predicate InFlight(run: seq<CallEvent>, i: int) {
    && 0 <= i < |run| && run[i].Noted? && !run[i].denied
    && forall j :: i < j < |run| ==> run[j] != Posted(run[i].id)
  }

  /** Calls have ids of their own. */
  predicate DistinctCalls(run: seq<CallEvent>) {
    forall i, j :: 0 <= i < j < |run| && run[i].Noted? && run[j].Noted? ==> run[i].id != run[j].id
  }

  /** The map holds exactly the calls under way, each with the name it was noted with. */
  lemma {:induction false} NamesAreInFlight(run: seq<CallEvent>)
    requires DistinctCalls(run)
    ensures forall id :: id in Names(run) ==> exists i :: InFlight(run, i) && run[i] == Noted(id, Names(run)[id], false)
    ensures forall i :: InFlight(run, i) ==> run[i].id in Names(run) && Names(run)[run[i].id] == run[i].name
  {
    if run != [] {
      var n := |run| - 1;
      var most, last := run[..n], run[n];
      NamesAreInFlight(most);
      forall i | 0 <= i < n
        ensures InFlight(run, i) <==> InFlight(most, i) && last != Posted(run[i].id)
        ensures most[i] == run[i]
      {
        StaysInFlight(run, i);
      }
      assert InFlight(run, n) <==> last.Noted? && !last.denied;
      hide InFlight;
      forall id | id in Names(run)
        ensures exists i :: InFlight(run, i) && run[i] == Noted(id, Names(run)[id], false)
      {
        if last.Noted? && !last.denied && last.id == id {
          assert InFlight(run, n);
        } else {
          assert id in Names(most) && Names(most)[id] == Names(run)[id];
          var i :| InFlight(most, i) && most[i] == Noted(id, Names(most)[id], false);
          InFlightIsThere(most, i);
          assert InFlight(run, i);
        }
      }
      forall i | InFlight(run, i)
        ensures run[i].id in Names(run) && Names(run)[run[i].id] == run[i].name
      {
        InFlightIsThere(run, i);
      }
    }
  }

  lemma InFlightIsThere(run: seq<CallEvent>, i: int)
    requires InFlight(run, i)
    ensures 0 <= i < |run| && run[i].Noted?
  {
  }

  /** One more event ends a call only if it is that call's result. */
  lemma StaysInFlight(run: seq<CallEvent>, i: int)
    requires 0 <= i < |run| - 1
    ensures var most, last := run[..|run| - 1], run[|run| - 1];
            InFlight(run, i) <==> InFlight(most, i) && last != Posted(run[i].id)
  {
    var most := run[..|run| - 1];
    assert forall j :: 0 <= j < |most| ==> most[j] == run[j];
  }

  /** What `post_tool` finds for a result at `k`: the name its own call recorded; none if that call was denied,
      was never noted, or has had its result already. */
  lemma PostSeesItsOwnCall(run: seq<CallEvent>, k: nat)
    requires DistinctCalls(run) && k < |run| && run[k].Posted?
    ensures var id := run[k].id; var before := Names(run[..k]);
            && (id in before <==> exists i :: InFlight(run[..k], i) && run[i].id == id)
            && (forall i :: 0 <= i < k && run[i].Noted? && run[i].id == id ==>
                  if run[i].denied then id !in before
                  else if (exists j :: i < j < k && run[j] == run[k]) then id !in before
                  else id in before && before[id] == run[i].name)
  {
    var before := run[..k];
    assert forall i :: 0 <= i < k ==> before[i] == run[i];
    NamesAreInFlight(before);
    hide Names;
    var id := run[k].id;
    if id in Names(before) {
      var i :| InFlight(before, i) && before[i] == Noted(id, Names(before)[id], false);
      assert run[i].id == id;
    }
    forall i | 0 <= i < k && run[i].Noted? && run[i].id == id
      ensures id in Names(before) <==> InFlight(before, i)
    {
      if id in Names(before) {
        var i' :| InFlight(before, i') && before[i'] == Noted(id, Names(before)[id], false);
        assert i' == i;
      }
    }
  }

  // ----- the engine

  /** A tool's result, as `post_tool` may rewrite it. */
  class ToolResult {
    const callId: Str
    const isError: bool
    var content: Str

    constructor (callId: Str, isError: bool, content: Str)
      ensures this.callId == callId && this.isError == isError && this.content == content
    {
      this.callId, this.isError, this.content := callId, isError, content;
    }
  }

  datatype AfterOutcome = Proceed | Block(reason: Str)

  predicate Fires(h: HookGate.Hook, event: HookGate.Event, tool: Option<Str>) {
    h.event == event && PostToolMatches(h.matcher, tool)
  }

  /** The output a hook puts in place of the tool's. */
  function Output(h: HookGate.Hook): Option<Str> {
    if h.run.None? || h.run.value.decided.None? || h.run.value.decided.value.specific.None? then None
    else h.run.value.decided.value.specific.value.updatedToolOutput
  }

  function Blocks(h: HookGate.Hook): Option<Str> {
    if h.run.None? || h.run.value.decided.None? || h.run.value.decided.value.decision != Some(HookGate.BLOCK) then None
    else if h.run.value.decided.value.reason.Some? then h.run.value.decided.value.reason
    else Some(HookGate.BLOCKED_BY_HOOK)
  }

  /** No hook from `i` on fires and answers. */
  ghost predicate SilentFrom(hooks: seq<HookGate.Hook>, event: HookGate.Event, tool: Option<Str>,
                             answer: HookGate.Hook -> Option<Str>, i: int) {
    forall j :: 0 <= j < |hooks| && i <= j && Fires(hooks[j], event, tool) ==> answer(hooks[j]).None?
  }

  /** The hook at `i` fires and answers `last`, and no later one answers. */
  ghost predicate LastAt(hooks: seq<HookGate.Hook>, event: HookGate.Event, tool: Option<Str>,
                         answer: HookGate.Hook -> Option<Str>, last: Option<Str>, i: int) {
    && 0 <= i < |hooks| && Fires(hooks[i], event, tool) && answer(hooks[i]) == last
    && SilentFrom(hooks, event, tool, answer, i + 1)
  }

  /** The last answer of the hooks that fire, if any of them gives one. */
  ghost predicate LastOf(hooks: seq<HookGate.Hook>, event: HookGate.Event, tool: Option<Str>,
                         answer: HookGate.Hook -> Option<Str>, last: Option<Str>) {
    if last.None? then SilentFrom(hooks, event, tool, answer, 0)
    else exists i :: LastAt(hooks, event, tool, answer, last, i)
  }

  lemma SilentStep(hooks: seq<HookGate.Hook>, k: nat, event: HookGate.Event, tool: Option<Str>,
                   answer: HookGate.Hook -> Option<Str>, i: int)
    requires k < |hooks| && SilentFrom(hooks[..k], event, tool, answer, i)
    requires !Fires(hooks[k], event, tool) || answer(hooks[k]).None?
    ensures SilentFrom(hooks[..k + 1], event, tool, answer, i)
  {
    hide Fires;
    assert forall j :: 0 <= j < k ==> hooks[..k + 1][j] == hooks[..k][j];
  }

  lemma LastOfStep(hooks: seq<HookGate.Hook>, k: nat, event: HookGate.Event, tool: Option<Str>,
                   answer: HookGate.Hook -> Option<Str>, last: Option<Str>)
    requires k < |hooks| && LastOf(hooks[..k], event, tool, answer, last)
    ensures var now := if Fires(hooks[k], event, tool) && answer(hooks[k]).Some? then answer(hooks[k]) else last;
            LastOf(hooks[..k + 1], event, tool, answer, now)
  {
    hide Fires;
    var prev, next := hooks[..k], hooks[..k + 1];
    if Fires(hooks[k], event, tool) && answer(hooks[k]).Some? {
      assert next[k] == hooks[k];
      assert LastAt(next, event, tool, answer, answer(hooks[k]), k);
    } else if last.Some? {
      var i :| LastAt(prev, event, tool, answer, last, i);
      SilentStep(hooks, k, event, tool, answer, i + 1);
      assert next[i] == prev[i];
      assert LastAt(next, event, tool, answer, last, i);
    } else {
      SilentStep(hooks, k, event, tool, answer, 0);
    }
  }

  // ----- the fold in terms of what the hooks print

  /** The tool output a hook prints. */
  predicate PrintsOutput(run: Option<HookGate.HookRun>, text: Str) {
    run.Some? && run.value.decided.Some? && run.value.decided.value.specific.Some?
    && run.value.decided.value.specific.value.updatedToolOutput == Some(text)
  }

  /** A hook blocks the result, for its reason or for none. */
  predicate PrintsBlock(run: Option<HookGate.HookRun>, why: Str) {
    && run.Some? && run.value.decided.Some? && run.value.decided.value.decision == Some(HookGate.BLOCK)
    && (|| run.value.decided.value.reason == Some(why)
        || (run.value.decided.value.reason.None? && why == HookGate.BLOCKED_BY_HOOK))
  }

  /** The hook at `i` is one for the result. */
  predicate Concerned(hooks: seq<HookGate.Hook>, event: HookGate.Event, tool: Option<Str>, i: int) {
    0 <= i < |hooks| && hooks[i].event == event && PostToolMatches(hooks[i].matcher, tool)
  }

  /** The hook at `i` is the last to print an output, and prints `text`. */
  ghost predicate LastOutput(hooks: seq<HookGate.Hook>, event: HookGate.Event, tool: Option<Str>, text: Str, i: int) {
    && Concerned(hooks, event, tool, i) && PrintsOutput(hooks[i].run, text)
    && forall j, other :: j > i && Concerned(hooks, event, tool, j) ==> !PrintsOutput(hooks[j].run, other)
  }

  ghost predicate LastBlock(hooks: seq<HookGate.Hook>, event: HookGate.Event, tool: Option<Str>, why: Str, i: int) {
    && Concerned(hooks, event, tool, i) && PrintsBlock(hooks[i].run, why)
    && forall j, other :: j > i && Concerned(hooks, event, tool, j) ==> !PrintsBlock(hooks[j].run, other)
  }

  /** The content and the outcome over the configured hooks: the last output printed stands and the last block is
      reported; with none, the content is as it was and the outcome is to proceed. */
  ghost predicate FoldOver(hooks: seq<HookGate.Hook>, event: HookGate.Event, tool: Option<Str>,
                           before: Str, after: Str, outcome: AfterOutcome) {
    && ((exists i, text :: Concerned(hooks, event, tool, i) && PrintsOutput(hooks[i].run, text)) ==>
          exists i :: LastOutput(hooks, event, tool, after, i))
    && ((forall i, text :: Concerned(hooks, event, tool, i) ==> !PrintsOutput(hooks[i].run, text)) ==> after == before)
    && ((exists i, why :: Concerned(hooks, event, tool, i) && PrintsBlock(hooks[i].run, why)) ==>
          outcome.Block? && exists i :: LastBlock(hooks, event, tool, outcome.reason, i))
    && ((forall i, why :: Concerned(hooks, event, tool, i) ==> !PrintsBlock(hooks[i].run, why)) ==> outcome == Proceed)
  }

  lemma OutputMeans(h: HookGate.Hook)
    ensures forall text :: Output(h) == Some(text) <==> PrintsOutput(h.run, text)
    ensures forall why :: Blocks(h) == Some(why) <==> PrintsBlock(h.run, why)
  {
  }

  lemma FoldIsOver(hooks: seq<HookGate.Hook>, event: HookGate.Event, tool: Option<Str>, before: Str, after: Str,
                   outcome: AfterOutcome, content: Option<Str>, block: Option<Str>)
    requires LastOf(hooks, event, tool, Output, content) && after == if content.Some? then content.value else before
    requires LastOf(hooks, event, tool, Blocks, block) && outcome == if block.Some? then Block(block.value) else Proceed
    ensures FoldOver(hooks, event, tool, before, after, outcome)
  {
    forall i | 0 <= i < |hooks|
      ensures Fires(hooks[i], event, tool) <==> Concerned(hooks, event, tool, i)
      ensures forall text :: Output(hooks[i]) == Some(text) <==> PrintsOutput(hooks[i].run, text)
      ensures forall why :: Blocks(hooks[i]) == Some(why) <==> PrintsBlock(hooks[i].run, why)
    {
      OutputMeans(hooks[i]);
    }
    hide Fires, Output, Blocks, PrintsOutput, PrintsBlock, PostToolMatches;
    if content.Some? {
      var i :| LastAt(hooks, event, tool, Output, content, i);
      assert LastOutput(hooks, event, tool, after, i);
    }
    if block.Some? {
      var i :| LastAt(hooks, event, tool, Blocks, block, i);
      assert LastBlock(hooks, event, tool, outcome.reason, i);
    }
  }

  /** A hook as it is configured; what running it gives is different for every call. */
  datatype HookConfig = HookConfig(event: HookGate.Event, matcher: Option<Str>)

  /** The configured hooks with what each gives on one payload. */
  function Given(hooks: seq<HookConfig>, runs: seq<Option<HookGate.HookRun>>): (given: seq<HookGate.Hook>)
    requires |runs| == |hooks|
    ensures |given| == |hooks|
  {
    seq(|hooks|, i requires 0 <= i < |hooks| => HookGate.Hook(hooks[i].event, hooks[i].matcher, runs[i]))
  }

  class Engine {
    const hooks: seq<HookConfig>
    const hasPostToolHooks: bool
    var callTools: map<Str, Str>
    /** The calls so far, as far as this engine has seen them. */
    ghost var run: seq<CallEvent>

    /** The map is what the run so far leaves, or empty when nothing would read it. */
    ghost predicate Valid()
      reads this
    {
      callTools == if hasPostToolHooks then Names(run) else map[]
    }

    constructor (hooks: seq<HookConfig>)
      ensures Valid() && run == [] && this.hooks == hooks
      ensures hasPostToolHooks <==>
              exists i :: 0 <= i < |hooks| && (hooks[i].event.PostToolUse? || hooks[i].event.PostToolUseFailure?)
    {
      this.hooks := hooks;
      hasPostToolHooks := exists i | 0 <= i < |hooks| ::
        hooks[i].event.PostToolUse? || hooks[i].event.PostToolUseFailure?;
      callTools := map[];
      run := [];
    }

    /** `note_call_for_post`. */
    method NoteCallForPost(call: HookGate.ToolCall, gate: HookGate.Outcome)
      requires Valid()
      modifies this
      ensures Valid() && run == old(run) + [Noted(call.id, call.name, HookGate.IsDeny(gate))]
    {
      if hasPostToolHooks && !HookGate.IsDeny(gate) {
        callTools := callTools[call.id := call.name];
      }
      run := run + [Noted(call.id, call.name, HookGate.IsDeny(gate))];
      assert run[..|run| - 1] == old(run);
    }

    /** `before`: the gate of the hooks, an `ask` resolved, and the note for the post-tool hooks. */
    method Before(call: HookGate.ToolCall, runs: seq<Option<HookGate.HookRun>>, approval: HookGate.Approval)
      returns (gate: HookGate.Outcome)
      requires Valid() && |runs| == |hooks|
      modifies this, call`arguments
      ensures Valid() && run == old(run) + [Noted(call.id, call.name, HookGate.IsDeny(gate))]
      ensures var matched := HookGate.Matching(Given(hooks, runs), HookGate.PreToolUse, call.name);
              && HookGate.Resolves(gate, HookGate.Answers(matched, call.name), approval, call.name)
              && call.arguments == HookGate.LeftBy(matched, call.name, old(call.arguments))
      ensures HookGate.ArgumentsOver(Given(hooks, runs), call.name, old(call.arguments), call.arguments)
    {
      gate := HookGate.Before(Given(hooks, runs), call, approval);
      NoteCallForPost(call, gate);
    }

    /** `post_tool`: the name is taken out of the map, the hooks of the result's kind that match it run in order,
        the last rewrite of the content stands and the last block is reported. */
    method PostToolFold(result: ToolResult, runs: seq<Option<HookGate.HookRun>>) returns (outcome: AfterOutcome)
      requires Valid() && |runs| == |hooks|
      modifies this, result`content
      ensures Valid() && run == old(run) + [Posted(result.callId)]
      ensures var event := if result.isError then HookGate.PostToolUseFailure else HookGate.PostToolUse;
              var names := Names(old(run));
              var tool := if hasPostToolHooks && result.callId in names then Some(names[result.callId]) else None;
              FoldOver(Given(hooks, runs), event, tool, old(result.content), result.content, outcome)
    {
      hide Glob.MatchesTool, Names, LastOf, FoldOver;
      var given := Given(hooks, runs);
      var tool := if result.callId in callTools then Some(callTools[result.callId]) else None;
      callTools := callTools - {result.callId};
      run := run + [Posted(result.callId)];
      PostedStep(old(run), result.callId);
      var event := if result.isError then HookGate.PostToolUseFailure else HookGate.PostToolUse;
      outcome := Proceed;
      ghost var content: Option<Str>, blocked: Option<Str> := None, None;
      NoneOf(given, event, tool, Output);
      NoneOf(given, event, tool, Blocks);
      for k := 0 to |given|
        invariant LastOf(given[..k], event, tool, Output, content)
        invariant LastOf(given[..k], event, tool, Blocks, blocked)
        invariant result.content == if content.Some? then content.value else old(result.content)
        invariant outcome == if blocked.Some? then Block(blocked.value) else Proceed
        modifies result`content
      {
        var h := given[k];
        LastOfStep(given, k, event, tool, Output, content);
        LastOfStep(given, k, event, tool, Blocks, blocked);
        var fires := h.event == event;
        if fires {
          if tool.Some? {
            fires := Glob.MatchTool(h.matcher, tool.value);
          } else {
            fires := h.matcher.None? || h.matcher.value == [Glob.STAR];
          }
        }
        if fires {
          if Output(h).Some? {
            result.content := Output(h).value;
            content := Output(h);
          }
          if Blocks(h).Some? {
            outcome := Block(Blocks(h).value);
            blocked := Blocks(h);
          }
        }
      }
      assert given[..|given|] == given;
      FoldIsOver(given, event, tool, old(result.content), result.content, outcome, content, blocked);
    }
  }

  lemma NoneOf(hooks: seq<HookGate.Hook>, event: HookGate.Event, tool: Option<Str>, answer: HookGate.Hook -> Option<Str>)
    ensures LastOf(hooks[..0], event, tool, answer, None)
  {
  }

  lemma PostedStep(run: seq<CallEvent>, id: Str)
    ensures Names(run + [Posted(id)]) == Names(run) - {id}
  {
    assert (run + [Posted(id)])[..|run|] == run;
  }

  /** A call its hooks denied, or whose prompt was not approved, leaves no name: `post_tool` finds none for it. */
  lemma DeniedHasNoName(run: seq<CallEvent>, hooks: seq<HookGate.Hook>, approval: HookGate.Approval,
                        gate: HookGate.Outcome,
                        id: Str, name: Str, later: seq<CallEvent>)
    requires HookGate.Resolves(gate, HookGate.Answers(hooks, name), approval, name)
    requires (exists i :: 0 <= i < |hooks| && HookGate.SaysNo(hooks[i].run))
          || ((exists i :: 0 <= i < |hooks| && HookGate.SaysAsk(hooks[i].run)) && !approval.Approved?)
    requires DistinctCalls(run + [Noted(id, name, HookGate.IsDeny(gate))] + later)
    ensures id !in Names(run + [Noted(id, name, HookGate.IsDeny(gate))] + later)
  {
    HookGate.BeforeDenies(hooks, name, gate, approval);
    var all := run + [Noted(id, name, HookGate.IsDeny(gate))] + later;
    assert all[|run|] == Noted(id, name, true);
    NamesAreInFlight(all);
    hide HookGate.Resolves, HookGate.SaysNo, HookGate.SaysAsk, Names;
  }
}
