/** `run_agent_loop`: a bounded conversation driven by an arbitrary model, arbitrary tool
    handlers and an arbitrary clock. */
module AgentLoop {
  import opened Options
  import opened Sizes

  datatype Role = User | Assistant

  datatype Message = Message(role: Role, content: string)

  datatype ToolCall = ToolCall(tool: string, args: string)

  datatype ToolError = NoError | UnknownTool | SoftLimit(cap: int) | HandlerRaised(message: string) | HandlerError(message: string)

  /** `unifiedDiff` is the text under that key of the result's content, "" if there is none. */
  datatype ToolResult = ToolResult(tool: string, ok: bool, content: string, unifiedDiff: string, error: ToolError)

  datatype Marker = NoMarker | DoneMarker | CannotProceedMarker

  datatype Parsed = Parsed(call: Option<ToolCall>, marker: Marker)

  datatype LlmOutcome = Answer(text: string) | LlmRaised(message: string)

  datatype HandlerOutcome = Returned(result: ToolResult) | Raised(message: string)

  /** The world around the loop; every function may depend on the turn number. */
  datatype World = World(
    llm: (nat, seq<Message>) -> LlmOutcome,
    parse: string -> Parsed,
    handler: (nat, ToolCall) -> HandlerOutcome,
    elapsed: nat -> real,
    render: ToolResult -> string,
    reminder: string)

  datatype Budget = Budget(maxTurns: int, maxSeconds: real, caps: map<string, int>)

  const DEFAULT_CAP := 99
  const APPLY_DIFF := "apply_diff"

  function Cap(b: Budget, tool: string): int {
    if tool in b.caps then b.caps[tool] else DEFAULT_CAP
  }

  datatype End = Done | CannotProceed | BudgetTurns | BudgetSeconds | LlmError(message: string) | EmptyResponse | DiffEmitted

  datatype Turn =
    | ModelTurn(index: nat, content: string, parsed: Option<ToolCall>)
    | ToolTurn(index: nat, call: ToolCall, result: ToolResult)

  // ----- what one turn does --------------------------------------------------------------

  datatype Reply = Nudge | Unknown(call: ToolCall) | OverQuota(call: ToolCall, cap: int) | Ran(call: ToolCall, result: ToolResult)

  /** A completed turn: what the model said and what it was told. */
  datatype Entry = Entry(response: string, reply: Reply)

  function ReplyResult(reply: Reply): ToolResult
    requires !reply.Nudge?
  {
    match reply
    case Unknown(call) => ToolResult(call.tool, false, "", "", UnknownTool)
    case OverQuota(call, cap) => ToolResult(call.tool, false, "", "", SoftLimit(cap))
    case Ran(_, result) => result
  }

  function ReplyText(w: World, reply: Reply): string {
    if reply.Nudge? then w.reminder else w.render(ReplyResult(reply))
  }

  /** The messages the model sees after the turns in `log`. */
  function Conversation(w: World, prompt: string, log: seq<Entry>): seq<Message> {
    if log == [] then [Message(User, prompt)]
    else
      var e := log[|log| - 1];
      Conversation(w, prompt, log[..|log| - 1]) + [Message(Assistant, e.response), Message(User, ReplyText(w, e.reply))]
  }

  predicate IsRunOf(e: Entry, tool: string) {
    e.reply.Ran? && e.reply.call.tool == tool
  }

  /** How often `tool`'s handler ran. */
  function Used(log: seq<Entry>, tool: string): nat {
    if log == [] then 0
    else Used(log[..|log| - 1], tool) + if IsRunOf(log[|log| - 1], tool) then 1 else 0
  }

  function RunHandler(w: World, turn: nat, call: ToolCall): ToolResult {
    match w.handler(turn, call)
    case Returned(result) => result
    case Raised(message) => ToolResult(call.tool, false, "", "", HandlerRaised(message))
  }

  function Respond(w: World, tools: set<string>, b: Budget, log: seq<Entry>, call: Option<ToolCall>): Reply {
    if call.None? then Nudge
    else if call.value.tool !in tools then Unknown(call.value)
    else if Used(log, call.value.tool) >= Cap(b, call.value.tool) then OverQuota(call.value, Cap(b, call.value.tool))
    else Ran(call.value, RunHandler(w, |log|, call.value))
  }

  /** Either the turn completes, or the loop ends in it; `last` is the response it ended on. */
  datatype Outcome = Continue(entry: Entry) | Stop(end: End, last: Option<Entry>)

  predicate Emits(reply: Reply) {
    reply.Ran? && reply.call.tool == APPLY_DIFF && reply.result.ok
  }

  function TurnAfter(w: World, tools: set<string>, b: Budget, prompt: string, log: seq<Entry>): Outcome {
    if |log| >= b.maxTurns then Stop(BudgetTurns, None)
    else if w.elapsed(|log|) > b.maxSeconds then Stop(BudgetSeconds, None)
    else
      match w.llm(|log|, Conversation(w, prompt, log))
      case LlmRaised(message) => Stop(LlmError(message), None)
      case Answer(text) =>
        if text == "" then Stop(EmptyResponse, None)
        else
          var p := w.parse(text);
          if p.marker.DoneMarker? then Stop(Done, Some(Entry(text, Nudge)))
          else if p.marker.CannotProceedMarker? then Stop(CannotProceed, Some(Entry(text, Nudge)))
          else
            var e := Entry(text, Respond(w, tools, b, log, p.call));
            if Emits(e.reply) then Stop(DiffEmitted, Some(e)) else Continue(e)
  }

  /** `log` is the list of completed turns of a run. */
  predicate IsLog(w: World, tools: set<string>, b: Budget, prompt: string, log: seq<Entry>) {
    forall k | 0 <= k < |log| :: TurnAfter(w, tools, b, prompt, log[..k]) == Continue(log[k])
  }

  function TurnsOf(w: World, index: nat, e: Entry): seq<Turn> {
    [ModelTurn(index, e.response, w.parse(e.response).call)]
    + match e.reply
      case OverQuota(call, _) => [ToolTurn(index, call, ReplyResult(e.reply))]
      case Ran(call, result) => [ToolTurn(index, call, result)]
      case _ => []
  }

  function AllTurns(w: World, log: seq<Entry>): seq<Turn> {
    if log == [] then [] else AllTurns(w, log[..|log| - 1]) + TurnsOf(w, |log| - 1, log[|log| - 1])
  }

  /** The loop got as far as calling the model in its last turn. */
  predicate CalledInLastTurn(end: End) {
    !end.BudgetTurns? && !end.BudgetSeconds?
  }

  // ----- the loop ----------------------------------------------------------------------------

  lemma LogGrows(w: World, tools: set<string>, b: Budget, prompt: string, log: seq<Entry>, e: Entry)
    requires IsLog(w, tools, b, prompt, log) && TurnAfter(w, tools, b, prompt, log) == Continue(e)
    ensures IsLog(w, tools, b, prompt, log + [e])
    ensures Conversation(w, prompt, log + [e])
         == Conversation(w, prompt, log) + [Message(Assistant, e.response), Message(User, ReplyText(w, e.reply))]
    ensures AllTurns(w, log + [e]) == AllTurns(w, log) + TurnsOf(w, |log|, e)
  {
    hide TurnAfter, TurnsOf, ReplyText;
    assert (log + [e])[..|log|] == log;
    forall k | 0 <= k < |log + [e]| ensures TurnAfter(w, tools, b, prompt, (log + [e])[..k]) == Continue((log + [e])[k]) {
      if k < |log| {
        assert (log + [e])[..k] == log[..k];
      }
    }
  }

  /** The dictionary of per-tool counts agrees with the log. */
  ghost predicate Counts(perToolCount: map<string, nat>, log: seq<Entry>) {
    forall tool :: Used(log, tool) == if tool in perToolCount then perToolCount[tool] else 0
  }

  lemma CountsGrow(perToolCount: map<string, nat>, log: seq<Entry>, e: Entry)
    requires Counts(perToolCount, log)
    ensures !e.reply.Ran? ==> Counts(perToolCount, log + [e])
    ensures e.reply.Ran? ==> Counts(perToolCount[e.reply.call.tool := Used(log, e.reply.call.tool) + 1], log + [e])
  {
    assert (log + [e])[..|log|] == log;
  }

  /** Call `k` saw the conversation after `k` turns. */
  ghost predicate Prompts(w: World, prompt: string, calls: seq<seq<Message>>, log: seq<Entry>) {
    |calls| <= |log| + 1 && forall k | 0 <= k < |calls| :: calls[k] == Conversation(w, prompt, log[..k])
  }

  lemma PromptsGrow(w: World, prompt: string, calls: seq<seq<Message>>, log: seq<Entry>, e: Entry)
    requires Prompts(w, prompt, calls, log)
    ensures Prompts(w, prompt, calls, log + [e])
    ensures |calls| == |log| ==> Prompts(w, prompt, calls + [Conversation(w, prompt, log)], log)
  {
    hide Conversation;
    assert forall k | 0 <= k < |calls| :: (log + [e])[..k] == log[..k];
    assert log[..|log|] == log;
  }

  /** The loop driver. `calls` records the message list handed to each model call. */
  method RunAgentLoop(w: World, requested: set<string>, defaults: set<string>, b: Budget, prompt: string)
    returns (finalDiff: string, reason: Option<End>, turns: seq<Turn>, calls: seq<seq<Message>>, ghost log: seq<Entry>)
    ensures reason.Some?
    ensures var tools := if requested == {} then defaults else requested;
              var last := TurnAfter(w, tools, b, prompt, log);
              && IsLog(w, tools, b, prompt, log)
              && last.Stop? && reason == Some(last.end)
              && turns == AllTurns(w, log) + (if last.last.Some? then TurnsOf(w, |log|, last.last.value) else [])
              && finalDiff == (if last.end.DiffEmitted? then last.last.value.reply.result.unifiedDiff else "")
              && |calls| == |log| + (if CalledInLastTurn(last.end) then 1 else 0)
    ensures Prompts(w, prompt, calls, log)
  {
    hide IsLog, Conversation, AllTurns, Prompts, Used;
    var tools := if requested == {} then defaults else requested;
    var messages := [Message(User, prompt)];
    var perToolCount: map<string, nat> := map[];
    finalDiff, reason, turns, calls, log := "", None, [], [], [];
    EmptyLog(w, tools, b, prompt);
    var turnIndex := 0;
    while turnIndex < b.maxTurns
      invariant turnIndex == |log| && reason.None? && finalDiff == ""
      invariant IsLog(w, tools, b, prompt, log)
      invariant messages == Conversation(w, prompt, log) && turns == AllTurns(w, log)
      invariant Counts(perToolCount, log)
      invariant |calls| == |log| && Prompts(w, prompt, calls, log)
      decreases b.maxTurns - turnIndex
    {
      if w.elapsed(turnIndex) > b.maxSeconds {
        reason := Some(BudgetSeconds);
        return;
      }
      PromptsGrow(w, prompt, calls, log, Entry("", Nudge));
      calls := calls + [messages];
      var outcome := w.llm(turnIndex, messages);
      if outcome.LlmRaised? {
        reason := Some(LlmError(outcome.message));
        return;
      }
      var response := outcome.text;
      if response == "" {
        reason := Some(EmptyResponse);
        return;
      }
      var parsed := w.parse(response);
      turns := turns + [ModelTurn(turnIndex, response, parsed.call)];
      messages := messages + [Message(Assistant, response)];
      if parsed.marker.DoneMarker? {
        reason := Some(Done);
        return;
      }
      if parsed.marker.CannotProceedMarker? {
        reason := Some(CannotProceed);
        return;
      }
      ghost var before := perToolCount;
      ghost var entry := Entry(response, Respond(w, tools, b, log, parsed.call));
      if parsed.call.None? {
        messages := messages + [Message(User, w.reminder)];
      } else {
        var call := parsed.call.value;
        if call.tool !in tools {
          messages := messages + [Message(User, w.render(ToolResult(call.tool, false, "", "", UnknownTool)))];
        } else {
          var cap := Cap(b, call.tool);
          var used := if call.tool in perToolCount then perToolCount[call.tool] else 0;
          if used >= cap {
            var quotaResult := ToolResult(call.tool, false, "", "", SoftLimit(cap));
            turns := turns + [ToolTurn(turnIndex, call, quotaResult)];
            messages := messages + [Message(User, w.render(quotaResult))];
          } else {
            perToolCount := perToolCount[call.tool := used + 1];
            var handled := w.handler(turnIndex, call);
            var result := if handled.Returned? then handled.result
                          else ToolResult(call.tool, false, "", "", HandlerRaised(handled.message));
            turns := turns + [ToolTurn(turnIndex, call, result)];
            if call.tool == APPLY_DIFF && result.ok {
              finalDiff, reason := result.unifiedDiff, Some(DiffEmitted);
              return;
            }
            messages := messages + [Message(User, w.render(result))];
          }
        }
      }
      LogGrows(w, tools, b, prompt, log, entry);
      CountsGrow(before, log, entry);
      PromptsGrow(w, prompt, calls, log, entry);
      log := log + [entry];
      turnIndex := turnIndex + 1;
    }
    reason := Some(BudgetTurns);
  }

  lemma EmptyLog(w: World, tools: set<string>, b: Budget, prompt: string)
    ensures Counts(map[], []) && Prompts(w, prompt, [], [])
    ensures IsLog(w, tools, b, prompt, []) && Conversation(w, prompt, []) == [Message(User, prompt)] && AllTurns(w, []) == []
  {
  }

  // ----- guarantees over every run ---------------------------------------------------------------

  predicate Alternates(ms: seq<Message>) {
    |ms| % 2 == 1 && forall i | 0 <= i < |ms| :: ms[i].role == if i % 2 == 0 then User else Assistant
  }

  /** After k turns the model sees 2k+1 messages, strictly alternating, opened and closed by the
      user, and extending what it saw before. */
  lemma {:induction false} ConversationShape(w: World, prompt: string, log: seq<Entry>, k: nat)
    requires k <= |log|
    ensures |Conversation(w, prompt, log)| == 2 * |log| + 1 && Alternates(Conversation(w, prompt, log))
    ensures Conversation(w, prompt, log[..k]) <= Conversation(w, prompt, log)
    decreases |log|
  {
    hide ReplyText;
    if log == [] {
      assert log[..k] == log;
    } else {
      var n := |log| - 1;
      if k == |log| {
        assert log[..k] == log;
        ConversationShape(w, prompt, log[..n], 0);
      } else {
        assert log[..n][..k] == log[..k];
        ConversationShape(w, prompt, log[..n], k);
      }
    }
  }

  lemma CallsSeeAlternatingPrompts(w: World, prompt: string, calls: seq<seq<Message>>, log: seq<Entry>, k: nat)
    requires Prompts(w, prompt, calls, log) && k < |calls|
    ensures |calls[k]| == 2 * k + 1 && Alternates(calls[k])
    ensures k > 0 ==> calls[k - 1] <= calls[k]
  {
    hide Conversation, Alternates;
    ConversationShape(w, prompt, log[..k], if k > 0 then k - 1 else 0);
    assert k > 0 ==> log[..k][..k - 1] == log[..k - 1];
  }

  /** Never more model calls than turns budgeted, and exactly that many when the turns run out. */
  lemma CallsWithinBudget(w: World, tools: set<string>, b: Budget, prompt: string, log: seq<Entry>)
    requires IsLog(w, tools, b, prompt, log) && TurnAfter(w, tools, b, prompt, log).Stop?
    ensures var end := TurnAfter(w, tools, b, prompt, log).end;
              && |log| + (if CalledInLastTurn(end) then 1 else 0) <= Max0(b.maxTurns)
              && (end.BudgetTurns? <==> |log| == Max0(b.maxTurns))
  {
    hide Conversation, Respond, Emits;
    if log != [] {
      assert TurnAfter(w, tools, b, prompt, log[..|log| - 1]).Continue?;
    }
  }

  /** How often the model asked for `tool` while it was registered. */
  function Asked(log: seq<Entry>, tool: string): nat {
    if log == [] then 0
    else
      var r := log[|log| - 1].reply;
      Asked(log[..|log| - 1], tool) + if (r.Ran? || r.OverQuota?) && r.call.tool == tool then 1 else 0
  }

  lemma LogPrefix(w: World, tools: set<string>, b: Budget, prompt: string, log: seq<Entry>)
    requires log != [] && IsLog(w, tools, b, prompt, log)
    ensures IsLog(w, tools, b, prompt, log[..|log| - 1])
    ensures TurnAfter(w, tools, b, prompt, log[..|log| - 1]) == Continue(log[|log| - 1])
  {
    hide TurnAfter;
    var n := |log| - 1;
    forall k | 0 <= k < n ensures log[..n][..k] == log[..k] {}
  }

  lemma {:induction false} RunsInLog(w: World, tools: set<string>, b: Budget, prompt: string, log: seq<Entry>, tool: string)
    requires IsLog(w, tools, b, prompt, log)
    ensures Used(log, tool) == if Asked(log, tool) <= Max0(Cap(b, tool)) then Asked(log, tool) else Max0(Cap(b, tool))
    decreases |log|
  {
    hide Conversation, IsLog, RunHandler, Emits;
    if log != [] {
      LogPrefix(w, tools, b, prompt, log);
      RunsInLog(w, tools, b, prompt, log[..|log| - 1], tool);
    }
  }

  /** The completed turns and, if the model answered in it, the turn the run ended in. */
  function WholeRun(w: World, tools: set<string>, b: Budget, prompt: string, log: seq<Entry>): seq<Entry> {
    var last := TurnAfter(w, tools, b, prompt, log);
    if last.Stop? && last.last.Some? then log + [last.last.value] else log
  }

  /** Over a whole run, the turn that ends it included, a tool's handler runs for its first `cap`
      requests and for no other. */
  lemma HandlerRunsUpToCap(w: World, tools: set<string>, b: Budget, prompt: string, log: seq<Entry>, tool: string)
    requires IsLog(w, tools, b, prompt, log)
    ensures var whole, cap := WholeRun(w, tools, b, prompt, log), Max0(Cap(b, tool));
              Used(whole, tool) == if Asked(whole, tool) <= cap then Asked(whole, tool) else cap
  {
    hide Conversation, IsLog, RunHandler;
    RunsInLog(w, tools, b, prompt, log, tool);
    var last := TurnAfter(w, tools, b, prompt, log);
    if last.Stop? && last.last.Some? {
      assert (log + [last.last.value])[..|log|] == log;
    }
  }

  lemma NoEarlierDiff(w: World, tools: set<string>, b: Budget, prompt: string, log: seq<Entry>, k: nat)
    requires IsLog(w, tools, b, prompt, log) && k < |log|
    ensures !Emits(log[k].reply)
  {
    hide Conversation, Respond, Emits;
    assert TurnAfter(w, tools, b, prompt, log[..k]) == Continue(log[k]);
  }

  /** A diff ends the run: it comes from a successful `apply_diff` in the last turn, no earlier
      turn had one, and the tool's cap was not yet used up, so that under a cap of one it is the
      first `apply_diff` the model asked for. */
  lemma DiffEndsTheRun(w: World, tools: set<string>, b: Budget, prompt: string, log: seq<Entry>)
    requires IsLog(w, tools, b, prompt, log)
    ensures forall k | 0 <= k < |log| :: !Emits(log[k].reply)
    ensures var last := TurnAfter(w, tools, b, prompt, log);
              last.Stop? && last.end.DiffEmitted? ==>
                last.last.Some? && Emits(last.last.value.reply) && APPLY_DIFF in tools && Asked(log, APPLY_DIFF) < Cap(b, APPLY_DIFF)
  {
    hide Conversation, RunHandler, IsLog, Asked, Used;
    forall k | 0 <= k < |log| ensures !Emits(log[k].reply) {
      NoEarlierDiff(w, tools, b, prompt, log, k);
    }
    RunsInLog(w, tools, b, prompt, log, APPLY_DIFF);
  }

  // ----- what the model is told and why the run ends -------------------------------------------------

  /** The prompt stands alone in the first call; each later call repeats the one before, then the
      model's answer and what it was told, which depends on the reply alone. */
  lemma CallsGrowByReply(w: World, prompt: string, calls: seq<seq<Message>>, log: seq<Entry>, k: nat)
    requires Prompts(w, prompt, calls, log) && k < |calls|
    ensures k == 0 ==> calls[0] == [Message(User, prompt)]
    ensures k > 0 ==>
              var e := log[k - 1];
              calls[k] == calls[k - 1] + [Message(Assistant, e.response),
                                          Message(User, match e.reply
                                                          case Nudge => w.reminder
                                                          case Unknown(call) => w.render(ToolResult(call.tool, false, "", "", UnknownTool))
                                                          case OverQuota(call, cap) => w.render(ToolResult(call.tool, false, "", "", SoftLimit(cap)))
                                                          case Ran(_, result) => w.render(result))]
  {
    if k > 0 {
      assert log[..k][..k - 1] == log[..k - 1];
    }
  }

  /** The reply to a turn, from what the model answered to the call: a reminder if it named no tool,
      an error for an unknown tool or one used up to its cap, and else what the handler did. */
  predicate Replies(w: World, tools: set<string>, b: Budget, log: seq<Entry>, k: nat, call: Option<ToolCall>, reply: Reply)
    requires k <= |log|
  {
    match call
    case None => reply == Nudge
    case Some(c) =>
      var cap := if c.tool in b.caps then b.caps[c.tool] else 99;
      if c.tool !in tools then reply == Unknown(c)
      else if Used(log[..k], c.tool) >= cap then reply == OverQuota(c, cap)
      else
        match w.handler(k, c)
        case Returned(result) => reply == Ran(c, result)
        case Raised(message) => reply == Ran(c, ToolResult(c.tool, false, "", "", HandlerRaised(message)))
  }

  /** A completed turn stayed within the budget, got an answer to the call's messages that ends
      nothing, and was replied to. */
  lemma TurnExplained(w: World, tools: set<string>, b: Budget, prompt: string, calls: seq<seq<Message>>, log: seq<Entry>, k: nat)
    requires IsLog(w, tools, b, prompt, log) && Prompts(w, prompt, calls, log) && k < |log| && k < |calls|
    ensures k < b.maxTurns && w.elapsed(k) <= b.maxSeconds
    ensures w.llm(k, calls[k]) == Answer(log[k].response) && log[k].response != ""
    ensures var p := w.parse(log[k].response);
              && p.marker == NoMarker && Replies(w, tools, b, log, k, p.call, log[k].reply)
              && !(log[k].reply.Ran? && log[k].reply.call.tool == "apply_diff" && log[k].reply.result.ok)
  {
    hide Conversation, Used;
    assert TurnAfter(w, tools, b, prompt, log[..k]) == Continue(log[k]);
  }

  /** The second message after the answer, put together: what the model reads next. */
  lemma NextCallTellsReply(w: World, tools: set<string>, b: Budget, prompt: string, calls: seq<seq<Message>>, log: seq<Entry>, k: nat)
    requires IsLog(w, tools, b, prompt, log) && Prompts(w, prompt, calls, log) && k + 1 < |calls|
    ensures |calls[k + 1]| == 2 * k + 3 && calls[k + 1][2 * k + 1] == Message(Assistant, log[k].response)
    ensures var told := calls[k + 1][2 * k + 2];
              told.role == User &&
              match w.parse(log[k].response).call
              case None => told.content == w.reminder
              case Some(c) =>
                var cap := if c.tool in b.caps then b.caps[c.tool] else 99;
                if c.tool !in tools then told.content == w.render(ToolResult(c.tool, false, "", "", UnknownTool))
                else if Used(log[..k], c.tool) >= cap then told.content == w.render(ToolResult(c.tool, false, "", "", SoftLimit(cap)))
                else
                  match w.handler(k, c)
                  case Returned(result) => told.content == w.render(result)
                  case Raised(message) => told.content == w.render(ToolResult(c.tool, false, "", "", HandlerRaised(message)))
  {
    hide IsLog, Prompts, Used, Alternates;
    assert k < |log| by { CallsAndTurns(w, prompt, calls, log); }
    CallsSeeAlternatingPrompts(w, prompt, calls, log, k);
    CallsGrowByReply(w, prompt, calls, log, k + 1);
    TurnExplained(w, tools, b, prompt, calls, log, k);
  }

  lemma CallsAndTurns(w: World, prompt: string, calls: seq<seq<Message>>, log: seq<Entry>)
    requires Prompts(w, prompt, calls, log)
    ensures |calls| <= |log| + 1
  {
  }

  /** The reason a run ends for, read off its last turn: the turns or the seconds are used up, the
      model raised or said nothing, it set a marker, or its diff was applied. */
  lemma EndExplained(w: World, tools: set<string>, b: Budget, prompt: string, calls: seq<seq<Message>>, log: seq<Entry>)
    requires IsLog(w, tools, b, prompt, log) && Prompts(w, prompt, calls, log) && TurnAfter(w, tools, b, prompt, log).Stop?
    requires |calls| == |log| + if CalledInLastTurn(TurnAfter(w, tools, b, prompt, log).end) then 1 else 0
    ensures var last, n := TurnAfter(w, tools, b, prompt, log), |log|;
              && (last.end == BudgetTurns <==> n >= b.maxTurns)
              && (last.end == BudgetSeconds <==> n < b.maxTurns && w.elapsed(n) > b.maxSeconds)
              && (|calls| == n + 1 <==> n < b.maxTurns && w.elapsed(n) <= b.maxSeconds)
              && (|calls| == n + 1 ==>
                    match w.llm(n, calls[n])
                    case LlmRaised(message) => last.end == LlmError(message) && last.last == None
                    case Answer(text) =>
                      var p := w.parse(text);
                      if text == "" then last.end == EmptyResponse && last.last == None
                      else if p.marker == DoneMarker then last.end == Done && last.last == Some(Entry(text, Nudge))
                      else if p.marker == CannotProceedMarker then last.end == CannotProceed && last.last == Some(Entry(text, Nudge))
                      else
                        && last.end == DiffEmitted && last.last.Some? && last.last.value.response == text
                        && var reply := last.last.value.reply;
                        && reply.Ran? && reply.call.tool == "apply_diff" && reply.result.ok
                        && Replies(w, tools, b, log, n, p.call, reply))
  {
    hide Conversation, Used, IsLog;
    assert log[..|log|] == log;
  }

  // ----- the recorded turns ------------------------------------------------------------------------------

  /** How many turns led to a tool result on record: runs and refusals for quota. */
  function Recorded(log: seq<Entry>): nat {
    if log == [] then 0
    else
      var r := log[|log| - 1].reply;
      Recorded(log[..|log| - 1]) + if r.OverQuota? || r.Ran? then 1 else 0
  }

  /** Turn `k` is on record as the model's answer, followed by the result if there is one. */
  lemma {:induction false} TurnsOnRecord(w: World, log: seq<Entry>, k: nat)
    requires k < |log|
    ensures |AllTurns(w, log)| == |log| + Recorded(log)
    ensures var p, turns, e := k + Recorded(log[..k]), AllTurns(w, log), log[k];
              && p < |turns| && turns[p] == ModelTurn(k, e.response, w.parse(e.response).call)
              && (e.reply.Ran? ==> p + 1 < |turns| && turns[p + 1] == ToolTurn(k, e.reply.call, e.reply.result))
              && (e.reply.OverQuota? ==>
                    && p + 1 < |turns|
                    && turns[p + 1] == ToolTurn(k, e.reply.call, ToolResult(e.reply.call.tool, false, "", "", SoftLimit(e.reply.cap))))
    decreases |log|
  {
    var n := |log| - 1;
    if k < n {
      TurnsOnRecord(w, log[..n], k);
      assert log[..n][..k] == log[..k];
    } else {
      RecordedLength(w, log[..n]);
    }
  }

  lemma {:induction false} RecordedLength(w: World, log: seq<Entry>)
    ensures |AllTurns(w, log)| == |log| + Recorded(log)
    decreases |log|
  {
    if log != [] {
      RecordedLength(w, log[..|log| - 1]);
    }
  }
}
