/** `chat.py`: trimming the loaded history, collapsing roles for a strictly alternating
    provider, and putting streamed tool calls back together. */
module ChatHistory {
  import opened Options

  const MAX_PAIRS := 6
  const MAX_CHARS := 6000

  // ----- trimming -------------------------------------------------------------------------

  /** One earlier exchange; the answer may be missing. */
  datatype Pair = Pair(user: string, assistant: Option<string>)

  function Answer(p: Pair): string {
    if p.assistant.Some? then p.assistant.value else ""
  }

  function TotalChars(ps: seq<Pair>): nat {
    if ps == [] then 0 else |ps[0].user| + |Answer(ps[0])| + TotalChars(ps[1..])
  }

  predicate Fits(ps: seq<Pair>) {
    |ps| <= MAX_PAIRS && TotalChars(ps) <= MAX_CHARS
  }

  /** The trimming of `_load_session_history`: the longest suffix that fits. */
  method TrimHistory(all: seq<Pair>) returns (pairs: seq<Pair>)
    ensures |pairs| <= 6 && TotalChars(pairs) <= 6000
    ensures |pairs| <= |all| && pairs == all[|all| - |pairs|..]
    ensures forall k | 0 <= k < |all| - |pairs| :: |all[k..]| > 6 || TotalChars(all[k..]) > 6000
  {
    var start := if |all| > MAX_PAIRS then |all| - MAX_PAIRS else 0;
    pairs := all[start..];
    while pairs != [] && TotalChars(pairs) > MAX_CHARS
      invariant start <= |all| - |pairs| && |pairs| <= |all| && pairs == all[|all| - |pairs|..]
      invariant forall k | 0 <= k < |all| - |pairs| :: !Fits(all[k..])
      decreases |pairs|
    {
      assert !Fits(all[|all| - |pairs|..]);
      pairs := pairs[1..];
    }
  }

  datatype Role = User | Assistant

  datatype Message = Message(role: Role, content: string)

  function Turn(p: Pair): seq<Message> {
    if Answer(p) != "" then [Message(User, p.user), Message(Assistant, Answer(p))] else [Message(User, p.user)]
  }

  function ToMessages(ps: seq<Pair>): seq<Message> {
    if ps == [] then [] else Turn(ps[0]) + ToMessages(ps[1..])
  }

  /** The closing loop of `_load_session_history`. */
  method HistoryMessages(pairs: seq<Pair>) returns (messages: seq<Message>)
    ensures messages == ToMessages(pairs)
  {
    hide ToMessages;
    messages := [];
    NoMessages(pairs);
    for i := 0 to |pairs|
      invariant messages + ToMessages(pairs[i..]) == ToMessages(pairs)
    {
      NextMessages(pairs, i);
      assert messages + (Turn(pairs[i]) + ToMessages(pairs[i + 1..])) == (messages + Turn(pairs[i])) + ToMessages(pairs[i + 1..]);
      ghost var before := messages;
      messages := messages + [Message(User, pairs[i].user)];
      if pairs[i].assistant.Some? && pairs[i].assistant.value != "" {
        messages := messages + [Message(Assistant, pairs[i].assistant.value)];
      }
      assert messages == before + Turn(pairs[i]);
    }
  }

  lemma NextMessages(ps: seq<Pair>, i: nat)
    requires i < |ps|
    ensures ToMessages(ps[i..]) == Turn(ps[i]) + ToMessages(ps[i + 1..])
  {
    assert ps[i..][1..] == ps[i + 1..];
  }

  lemma NoMessages(ps: seq<Pair>)
    ensures [] + ToMessages(ps[0..]) == ToMessages(ps) && ToMessages(ps[|ps|..]) == []
  {
    assert ps[0..] == ps;
  }

  predicate HasAnswer(p: Pair) {
    p.assistant.Some? && p.assistant.value != ""
  }

  function Answered(ps: seq<Pair>): nat {
    if ps == [] then 0 else (if HasAnswer(ps[0]) then 1 else 0) + Answered(ps[1..])
  }

  /** The `k`-th question comes after those before it and their answers, its own answer right after
      it; there are no other messages. */
  lemma QuestionThenAnswer(ps: seq<Pair>, k: nat)
    requires k < |ps|
    ensures var ms, p := ToMessages(ps), k + Answered(ps[..k]);
              && |ms| == |ps| + Answered(ps)
              && p < |ms| && ms[p] == Message(User, ps[k].user)
              && (HasAnswer(ps[k]) ==> p + 1 < |ms| && ms[p + 1] == Message(Assistant, ps[k].assistant.value))
  {
    hide ToMessages, Turn, Answered, HasAnswer;
    MessageCount(ps);
    TurnIs(ps[k]);
    MessagesSplit(ps, k);
    MessageCount(ps[..k]);
    NextMessages(ps, k);
  }

  lemma {:induction false} MessagesSplit(ps: seq<Pair>, k: nat)
    requires k <= |ps|
    ensures ToMessages(ps) == ToMessages(ps[..k]) + ToMessages(ps[k..])
  {
    hide Turn;
    if k > 0 {
      MessagesSplit(ps[1..], k - 1);
      assert ps[..k][1..] == ps[1..][..k - 1] && ps[1..][k - 1..] == ps[k..];
    } else {
      assert ps[0..] == ps;
    }
  }

  lemma TurnIs(p: Pair)
    ensures |Turn(p)| == 1 + (if HasAnswer(p) then 1 else 0) && Turn(p)[0] == Message(User, p.user)
    ensures HasAnswer(p) ==> Turn(p)[1] == Message(Assistant, p.assistant.value)
  {
  }

  lemma {:induction false} MessageCount(ps: seq<Pair>)
    ensures |ToMessages(ps)| == |ps| + Answered(ps)
  {
    if ps != [] {
      hide Turn;
      TurnIs(ps[0]);
      MessageCount(ps[1..]);
    }
  }

  function Chars(ms: seq<Message>): nat {
    if ms == [] then 0 else |ms[0].content| + Chars(ms[1..])
  }

  lemma {:induction false} CharsConcat(a: seq<Message>, b: seq<Message>)
    ensures Chars(a + b) == Chars(a) + Chars(b)
  {
    if a == [] {
      assert a + b == b;
    } else {
      CharsConcat(a[1..], b);
      assert (a + b)[1..] == a[1..] + b;
    }
  }

  /** The messages hold exactly the characters the cap was counted on, each question followed by
      its answer if it has one. */
  lemma {:induction false} MessagesKeepChars(ps: seq<Pair>)
    ensures Chars(ToMessages(ps)) == TotalChars(ps)
  {
    if ps != [] {
      MessagesKeepChars(ps[1..]);
      CharsConcat(Turn(ps[0]), ToMessages(ps[1..]));
    }
  }

  // ----- collapsing ---------------------------------------------------------------------------

  const GAP := "\n\n"

  /** The contents of some messages with a blank line between them. */
  function Contents(ms: seq<Message>): string {
    if ms == [] then ""
    else if |ms| == 1 then ms[0].content
    else Contents(ms[..|ms| - 1]) + GAP + ms[|ms| - 1].content
  }

  /** Contents follow one another in order, with one blank line between any two. */
  lemma {:induction false} ContentsConcat(a: seq<Message>, b: seq<Message>)
    requires a != [] && b != []
    ensures Contents(a + b) == Contents(a) + "\n\n" + Contents(b)
    ensures |b| == 1 ==> Contents(b) == b[0].content
    decreases |b|
  {
    var n := |b| - 1;
    assert (a + b)[..|a + b| - 1] == a + b[..n];
    if n == 0 {
      assert a + b[..n] == a;
    } else {
      ContentsConcat(a, b[..n]);
    }
  }

  function Concat(gs: seq<seq<Message>>): seq<Message> {
    if gs == [] then [] else Concat(gs[..|gs| - 1]) + gs[|gs| - 1]
  }

  predicate OneRole(g: seq<Message>, role: Role) {
    g != [] && forall i | 0 <= i < |g| :: g[i].role == role
  }

  /** `msgs` are the maximal same-role groups of `input`, each put into one message. */
  predicate Collapses(input: seq<Message>, gs: seq<seq<Message>>, msgs: seq<Message>) {
    && Concat(gs) == input && |gs| == |msgs|
    && (forall i | 0 <= i < |gs| :: OneRole(gs[i], msgs[i].role) && msgs[i].content == Contents(gs[i]))
    && (forall i | 0 < i < |msgs| :: msgs[i - 1].role != msgs[i].role)
  }

  lemma AddToLast(input: seq<Message>, gs: seq<seq<Message>>, msgs: seq<Message>, m: Message)
    requires Collapses(input, gs, msgs) && msgs != [] && msgs[|msgs| - 1].role == m.role
    ensures var n := |msgs| - 1;
              Collapses(input + [m], gs[n := gs[n] + [m]], msgs[n := Message(m.role, msgs[n].content + GAP + m.content)])
  {
    var n := |msgs| - 1;
    var g := gs[n] + [m];
    assert OneRole(gs[n], m.role);
    assert g[..|g| - 1] == gs[n];
    assert gs[n := g][..n] == gs[..n];
    assert Concat(gs[n := g]) == Concat(gs[..n]) + g;
  }

  lemma AddNew(input: seq<Message>, gs: seq<seq<Message>>, msgs: seq<Message>, m: Message)
    requires Collapses(input, gs, msgs) && (msgs != [] ==> msgs[|msgs| - 1].role != m.role)
    ensures Collapses(input + [m], gs + [[m]], msgs + [m])
  {
    assert (gs + [[m]])[..|gs|] == gs;
  }

  /** The message list built by `_stream_anthropic`: collapse the history, then add the new
      user message the same way. */
  method AnthropicMessages(history: seq<Message>, message: string) returns (msgs: seq<Message>)
    ensures exists groups :: Collapses(history + [Message(User, message)], groups, msgs)
  {
    hide Collapses;
    msgs := [];
    ghost var groups: seq<seq<Message>> := [];
    assert Collapses(history[..0], groups, msgs) by { NothingCollapsed(); }
    for i := 0 to |history|
      invariant Collapses(history[..i], groups, msgs) && |groups| == |msgs|
    {
      var entry := history[i];
      assert history[..i + 1] == history[..i] + [entry];
      var n := |msgs| - 1;
      if msgs != [] && msgs[n].role == entry.role {
        AddToLast(history[..i], groups, msgs, entry);
        groups := groups[n := groups[n] + [entry]];
        msgs := msgs[n := Message(msgs[n].role, msgs[n].content + GAP + entry.content)];
      } else {
        AddNew(history[..i], groups, msgs, entry);
        groups := groups + [[entry]];
        msgs := msgs + [entry];
      }
    }
    assert history[..|history|] == history;
    var n := |msgs| - 1;
    if msgs != [] && msgs[n].role == User {
      AddToLast(history, groups, msgs, Message(User, message));
      groups := groups[n := groups[n] + [Message(User, message)]];
      msgs := msgs[n := Message(User, msgs[n].content + GAP + message)];
    } else {
      AddNew(history, groups, msgs, Message(User, message));
      groups := groups + [[Message(User, message)]];
      msgs := msgs + [Message(User, message)];
    }
  }

  lemma NothingCollapsed()
    ensures Collapses([], [], [])
  {
  }

  lemma {:induction false} FirstOfConcat(gs: seq<seq<Message>>)
    requires gs != [] && gs[0] != []
    ensures Concat(gs) != [] && Concat(gs)[0] == gs[0][0]
    decreases |gs|
  {
    if |gs| > 1 {
      FirstOfConcat(gs[..|gs| - 1]);
    } else {
      assert gs[..0] == [];
    }
  }

  /** For a loaded history, the request starts and ends with the user and strictly alternates. */
  lemma RequestAlternates(ps: seq<Pair>, message: string, msgs: seq<Message>)
    requires exists groups :: Collapses(ToMessages(ps) + [Message(User, message)], groups, msgs)
    ensures msgs != [] && msgs[0].role == User && msgs[|msgs| - 1].role == User
    ensures forall i | 0 < i < |msgs| :: msgs[i - 1].role != msgs[i].role
    ensures |msgs| % 2 == 1
  {
    hide Contents;
    var input := ToMessages(ps) + [Message(User, message)];
    assert input[0].role == User && input[|input| - 1].role == User;
    var groups :| Collapses(input, groups, msgs);
    assert Concat([]) == [];
    assert OneRole(groups[0], msgs[0].role);
    FirstOfConcat(groups);
    var n := |msgs| - 1;
    assert OneRole(groups[n], msgs[n].role);
    assert input[|input| - 1] == groups[n][|groups[n]| - 1];
    AlternationParity(msgs, n);
  }

  lemma {:induction false} AlternationParity(msgs: seq<Message>, k: nat)
    requires k < |msgs| && forall i | 0 < i < |msgs| :: msgs[i - 1].role != msgs[i].role
    ensures msgs[k].role == msgs[0].role <==> k % 2 == 0
  {
    if k > 0 {
      AlternationParity(msgs, k - 1);
    }
  }
}
