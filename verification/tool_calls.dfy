/** Rebuilding streamed tool calls in `_stream_openai_compat_with_tools`. */
module ToolCalls {
  import opened Options

  datatype Function = Function(name: string, arguments: string)

  /** One element of a delta's `tool_calls`. `index` is absent when it is not an integer, `fn`
      when the function part is not an object; an absent string is "". */
  datatype Fragment = Fragment(index: Option<int>, id: string, fn: Option<Function>)

  datatype Slot = Slot(id: string, name: string, arguments: string)

  const EMPTY := Slot("", "", "")

  // ----- one call's own fragments --------------------------------------------------------------

  function Own(fs: seq<Fragment>, idx: int): seq<Fragment> {
    if fs == [] then []
    else
      var f := fs[|fs| - 1];
      Own(fs[..|fs| - 1], idx) + if f.index == Some(idx) then [f] else []
  }

  function Arguments(fs: seq<Fragment>): string {
    if fs == [] then ""
    else
      var f := fs[|fs| - 1];
      Arguments(fs[..|fs| - 1]) + if f.fn.Some? then f.fn.value.arguments else ""
  }

  /** The last non-empty name among `fs`. */
  function LastName(fs: seq<Fragment>): string {
    if fs == [] then ""
    else
      var f := fs[|fs| - 1];
      if f.fn.Some? && f.fn.value.name != "" then f.fn.value.name else LastName(fs[..|fs| - 1])
  }

  function LastId(fs: seq<Fragment>): string {
    if fs == [] then "" else if fs[|fs| - 1].id != "" then fs[|fs| - 1].id else LastId(fs[..|fs| - 1])
  }

  function Rebuilt(own: seq<Fragment>): Slot {
    Slot(LastId(own), LastName(own), Arguments(own))
  }

  lemma OwnLast(fs: seq<Fragment>, f: Fragment, idx: int)
    ensures Own(fs + [f], idx) == if f.index == Some(idx) then Own(fs, idx) + [f] else Own(fs, idx)
  {
    assert (fs + [f])[..|fs|] == fs;
  }

  lemma RebuiltLast(own: seq<Fragment>, f: Fragment)
    ensures var s := Rebuilt(own);
              Rebuilt(own + [f]) == Slot(if f.id != "" then f.id else s.id,
                                         if f.fn.Some? && f.fn.value.name != "" then f.fn.value.name else s.name,
                                         if f.fn.Some? then s.arguments + f.fn.value.arguments else s.arguments)
  {
    assert (own + [f])[..|own|] == own;
  }

  lemma {:induction false} OwnInOrder(fs: seq<Fragment>, gs: seq<Fragment>, idx: int)
    ensures Own(fs + gs, idx) == Own(fs, idx) + Own(gs, idx)
    decreases |gs|
  {
    if gs == [] {
      assert fs + gs == fs && Own(gs, idx) == [];
    } else {
      hide Own;
      var init, g := gs[..|gs| - 1], gs[|gs| - 1];
      assert gs == init + [g];
      assert fs + gs == (fs + init) + [g];
      OwnInOrder(fs, init, idx);
      OwnLast(fs + init, g, idx);
      OwnLast(init, g, idx);
    }
  }

  /** What is read off the fragments of one call: the arguments in order, the last id and name. */
  lemma {:induction false} RebuiltInOrder(fs: seq<Fragment>, gs: seq<Fragment>)
    ensures var s, t := Rebuilt(fs), Rebuilt(gs);
              Rebuilt(fs + gs) == Slot(if t.id != "" then t.id else s.id, if t.name != "" then t.name else s.name, s.arguments + t.arguments)
    decreases |gs|
  {
    if gs == [] {
      assert fs + gs == fs;
      RebuiltNothing();
    } else {
      hide Rebuilt;
      var init, g := gs[..|gs| - 1], gs[|gs| - 1];
      assert gs == init + [g];
      assert fs + gs == (fs + init) + [g];
      RebuiltInOrder(fs, init);
      RebuiltLast(fs + init, g);
      RebuiltLast(init, g);
    }
  }

  /** A single fragment is its call's if its index says so, and gives what it holds. */
  lemma RebuiltFromOne(f: Fragment, idx: int)
    ensures Own([f], idx) == if f.index == Some(idx) then [f] else []
    ensures Rebuilt([f]) == Slot(f.id, if f.fn.Some? then f.fn.value.name else "", if f.fn.Some? then f.fn.value.arguments else "")
  {
    hide Rebuilt;
    RebuiltNothing();
    RebuiltLast([], f);
    OwnLast([], f, idx);
    assert [] + [f] == [f];
    assert f.fn.Some? ==> "" + f.fn.value.arguments == f.fn.value.arguments;
  }

  ghost predicate IsPending(fs: seq<Fragment>, pending: map<int, Slot>) {
    && (forall idx :: idx in pending <==> Own(fs, idx) != [])
    && forall idx | idx in pending :: pending[idx] == Rebuilt(Own(fs, idx))
  }

  lemma AddFragment(fs: seq<Fragment>, f: Fragment, pending: map<int, Slot>, after: map<int, Slot>)
    requires IsPending(fs, pending)
    requires f.index.None? ==> after == pending
    requires f.index.Some? ==>
               var s := if f.index.value in pending then pending[f.index.value] else EMPTY;
               after == pending[f.index.value := Slot(if f.id != "" then f.id else s.id,
                                                      if f.fn.Some? && f.fn.value.name != "" then f.fn.value.name else s.name,
                                                      if f.fn.Some? then s.arguments + f.fn.value.arguments else s.arguments)]
    ensures IsPending(fs + [f], after)
  {
    hide Own, Rebuilt;
    forall idx ensures Own(fs + [f], idx) == if f.index == Some(idx) then Own(fs, idx) + [f] else Own(fs, idx) {
      OwnLast(fs, f, idx);
    }
    if f.index.Some? {
      RebuiltLast(Own(fs, f.index.value), f);
      assert Rebuilt([]) == EMPTY by { RebuiltNothing(); }
    }
  }

  lemma RebuiltNothing()
    ensures Rebuilt([]) == EMPTY
  {
  }

  /** The accumulation loop: whatever the interleaving, each call gets its own fragments. */
  method Accumulate(fs: seq<Fragment>) returns (pending: map<int, Slot>)
    ensures IsPending(fs, pending)
  {
    hide IsPending;
    pending := map[];
    assert IsPending(fs[..0], pending) by { NothingPending(fs); }
    for i := 0 to |fs|
      invariant IsPending(fs[..i], pending)
    {
      var f := fs[i];
      assert fs[..i + 1] == fs[..i] + [f];
      ghost var before := pending;
      if f.index.Some? {
        var idx := f.index.value;
        var slot := if idx in pending then pending[idx] else EMPTY;
        if f.id != "" {
          slot := slot.(id := f.id);
        }
        if f.fn.Some? {
          if f.fn.value.name != "" {
            slot := slot.(name := f.fn.value.name);
          }
          slot := slot.(arguments := slot.arguments + f.fn.value.arguments);
        }
        pending := pending[idx := slot];
      }
      AddFragment(fs[..i], f, before, pending);
    }
    assert fs[..|fs|] == fs;
  }

  lemma NothingPending(fs: seq<Fragment>)
    ensures IsPending(fs[..0], map[])
  {
    forall idx ensures Own(fs[..0], idx) == [] {}
  }

  /** Only each call's own order matters. */
  lemma InterleavingIrrelevant(fs: seq<Fragment>, gs: seq<Fragment>, p: map<int, Slot>, q: map<int, Slot>)
    requires IsPending(fs, p) && IsPending(gs, q) && forall idx :: Own(fs, idx) == Own(gs, idx)
    ensures p == q
  {
    hide Own, Rebuilt;
    forall idx ensures idx in p <==> idx in q
               ensures idx in p ==> p[idx] == q[idx]
    {
      assert Own(fs, idx) == Own(gs, idx);
    }
  }

  // ----- the next request ---------------------------------------------------------------------------

  /** `slot["id"] or f"call_{idx}"`. */
  datatype CallId = Given(id: string) | Numbered(index: int)

  function IdOf(idx: int, s: Slot): CallId {
    if s.id != "" then Given(s.id) else Numbered(idx)
  }

  datatype ToolCall = ToolCall(id: CallId, name: string, arguments: string)

  datatype Message = AssistantCalls(text: string, calls: seq<ToolCall>) | ToolReply(id: CallId, content: string)

  predicate Ascending(xs: seq<int>) {
    forall i | 0 < i < |xs| :: xs[i - 1] < xs[i]
  }

  lemma Least(xs: set<int>, x: int) returns (m: int)
    requires x in xs
    ensures m in xs && forall y | y in xs :: m <= y
    decreases xs
  {
    m := x;
    if y :| y in xs && y < x {
      assert forall z | z in xs :: z == x || z in xs - {x};
      m := Least(xs - {x}, y);
    }
  }

  /** `sorted(pending_calls)`. */
  method SortedKeys(keys: set<int>) returns (xs: seq<int>)
    ensures Ascending(xs) && forall x :: x in xs <==> x in keys
  {
    xs := [];
    var rest := keys;
    while true
      invariant rest <= keys && Ascending(xs)
      invariant forall x :: x in xs <==> x in keys - rest
      invariant xs != [] ==> forall x | x in rest :: xs[|xs| - 1] < x
      decreases rest
    {
      if some :| some in rest {
        ghost var least := Least(rest, some);
        assert least in rest && forall x | x in rest :: least <= x;
        var m :| m in rest && forall x | x in rest :: m <= x;
        xs := xs + [m];
        rest := rest - {m};
      } else {
        break;
      }
    }
  }

  /** The call of `idx`: its id or a numbered one, its name, and its arguments or an empty object. */
  predicate IsCall(pending: map<int, Slot>, idx: int, call: ToolCall) {
    idx in pending && var s := pending[idx];
    && call.id == (if s.id != "" then Given(s.id) else Numbered(idx))
    && call.name == s.name && call.arguments == (if s.arguments != "" then s.arguments else "{}")
  }

  /** The reply to it: what the tool said to its name and arguments, under the call's id. */
  predicate IsReply(pending: map<int, Slot>, idx: int, execute: (string, string) -> string, reply: Message) {
    idx in pending && var s := pending[idx];
    reply == ToolReply(if s.id != "" then Given(s.id) else Numbered(idx), execute(s.name, s.arguments))
  }

  /** `out` is `messages`, the calls in the order of `order`, and the reply to each. */
  predicate Answers(messages: seq<Message>, text: string, pending: map<int, Slot>, execute: (string, string) -> string,
                    out: seq<Message>, order: seq<int>)
  {
    var n := |messages|;
    && |out| == n + 1 + |order| && out[..n] == messages
    && out[n].AssistantCalls? && out[n].text == text && |out[n].calls| == |order|
    && (forall i | 0 <= i < |order| :: IsCall(pending, order[i], out[n].calls[i]))
    && (forall i | 0 <= i < |order| :: IsReply(pending, order[i], execute, out[n + 1 + i]))
  }

  /** The messages appended after a `tool_calls` finish: the calls in index order, then one
      reply per call, in the same order and under the same id. */
  method AppendCalls(messages: seq<Message>, text: string, pending: map<int, Slot>, execute: (string, string) -> string)
    returns (out: seq<Message>, order: seq<int>)
    ensures Ascending(order) && (forall x :: x in order <==> x in pending)
    ensures Answers(messages, text, pending, execute, out, order)
  {
    hide Ascending;
    order := SortedKeys(pending.Keys);
    var calls: seq<ToolCall>, replies: seq<Message> := [], [];
    for i := 0 to |order|
      invariant |calls| == i && forall k | 0 <= k < i :: IsCall(pending, order[k], calls[k])
    {
      assert order[i] in order;
      var slot := pending[order[i]];
      calls := calls + [ToolCall(IdOf(order[i], slot), slot.name, if slot.arguments != "" then slot.arguments else "{}")];
    }
    for i := 0 to |order|
      invariant |replies| == i && forall k | 0 <= k < i :: IsReply(pending, order[k], execute, replies[k])
    {
      assert order[i] in order;
      var slot := pending[order[i]];
      replies := replies + [ToolReply(IdOf(order[i], slot), execute(slot.name, slot.arguments))];
    }
    hide IsCall, IsReply;
    out := messages + [AssistantCalls(text, calls)] + replies;
  }

  lemma {:induction false} AscendingIsStrict(xs: seq<int>, i: nat, j: nat)
    requires Ascending(xs) && i < j < |xs|
    ensures xs[i] < xs[j]
  {
    if i < j - 1 {
      AscendingIsStrict(xs, i, j - 1);
    }
  }

  /** Every call rebuilt from the stream is requested at one place and answered at one, under the
      same id, with what its tool said to its name and arguments. */
  lemma OneReplyPerCall(messages: seq<Message>, text: string, pending: map<int, Slot>, execute: (string, string) -> string,
                        out: seq<Message>, order: seq<int>, idx: int)
    returns (i: nat)
    requires Answers(messages, text, pending, execute, out, order)
    requires Ascending(order) && (forall x :: x in order <==> x in pending) && idx in pending
    ensures i < |order| && order[i] == idx && forall j | 0 <= j < |order| && order[j] == idx :: j == i
    ensures var n := |messages|;
              && |out| == n + 1 + |pending| && out[n].AssistantCalls? && |out[n].calls| == |pending| && out[n].calls[i].name == pending[idx].name
              && out[n + 1 + i] == ToolReply(out[n].calls[i].id, execute(pending[idx].name, pending[idx].arguments))
  {
    i :| 0 <= i < |order| && order[i] == idx;
    forall j | 0 <= j < |order| && order[j] == idx ensures j == i {
      if i < j {
        AscendingIsStrict(order, i, j);
      } else if j < i {
        AscendingIsStrict(order, j, i);
      }
    }
    AscendingSize(order, pending.Keys);
  }

  lemma {:induction false} AscendingSize(xs: seq<int>, keys: set<int>)
    requires Ascending(xs) && forall x :: x in xs <==> x in keys
    ensures |xs| == |keys|
  {
    if xs == [] {
      assert keys == {} by {
        forall x ensures x !in keys {}
      }
    } else {
      var n := |xs| - 1;
      assert xs == xs[..n] + [xs[n]];
      forall x ensures x in xs[..n] <==> x in keys - {xs[n]} {
        if x in xs[..n] {
          var k :| 0 <= k < n && xs[k] == x;
          AscendingIsStrict(xs, k, n);
        }
      }
      AscendingSize(xs[..n], keys - {xs[n]});
      assert xs[n] in xs;
    }
  }
}
