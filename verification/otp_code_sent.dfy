/** `_replace_on_code_sent_body`: replace the body of `onCodeSent` by a navigation. */
module OtpCodeSent {
  import opened Options
  import opened Text

  const HOOK := "override fun onCodeSent"

  // ----- counting braces ----------------------------------------------------------------

  /** `line.count("{") - line.count("}")`. */
  function Delta(line: string): int {
    if line == "" then 0
    else Delta(line[..|line| - 1]) + match line[|line| - 1] case '{' => 1 case '}' => -1 case _ => 0
  }

  /** Net braces of `lines[a..b]`. */
  function Net(lines: seq<string>, a: nat, b: nat): int
    requires a <= b <= |lines|
    decreases b
  {
    if a == b then 0 else Net(lines, a, b - 1) + Delta(lines[b - 1])
  }

  predicate NoBraces(s: string) {
    '{' !in s && '}' !in s
  }

  lemma {:induction false} NoBracesDelta(s: string)
    requires NoBraces(s)
    ensures Delta(s) == 0
  {
    if s != "" {
      NoBracesDelta(s[..|s| - 1]);
      assert s[|s| - 1] in s;
    }
  }

  // ----- where the body is -------------------------------------------------------------------

  /** The first line from `i` on with the hook, or `|lines|`. */
  function FindHook(lines: seq<string>, i: nat): (k: nat)
    requires i <= |lines|
    ensures i <= k <= |lines|
    decreases |lines| - i
  {
    if i == |lines| || Contains(lines[i], HOOK) then i else FindHook(lines, i + 1)
  }

  /** The first line of `lines[i..end]` with an opening brace, or `end`. */
  function FindOpen(lines: seq<string>, i: nat, end: nat): (k: nat)
    requires i <= end <= |lines|
    ensures i <= k <= end
    decreases end - i
  {
    if i == end || '{' in lines[i] then i else FindOpen(lines, i + 1, end)
  }

  /** The first line from `i` on that brings the depth to zero or below, or `|lines|`. */
  function FindClose(lines: seq<string>, i: nat, depth: int): (k: nat)
    requires i <= |lines|
    ensures i <= k <= |lines|
    decreases |lines| - i
  {
    if i == |lines| || depth + Delta(lines[i]) <= 0 then i else FindClose(lines, i + 1, depth + Delta(lines[i]))
  }

  datatype Body = Body(open: nat, close: nat)

  function SearchEnd(lines: seq<string>, start: nat): nat {
    if |lines| <= start + 12 then |lines| else start + 12
  }

  function FindBody(lines: seq<string>): (b: Option<Body>)
    ensures b.Some? ==> b.value.open < b.value.close < |lines|
  {
    var start := FindHook(lines, 0);
    if start == |lines| then None
    else
      var open := FindOpen(lines, start, SearchEnd(lines, start));
      if open == SearchEnd(lines, start) then None
      else
        var close := FindClose(lines, open + 1, Delta(lines[open]));
        if close == |lines| then None else Some(Body(open, close))
  }

  // ----- the new body ---------------------------------------------------------------------------

  /** The indent of the first non-blank body line, else the open line's plus four spaces. */
  function BodyIndent(lines: seq<string>, open: nat, i: nat, close: nat): string
    requires open < i <= close <= |lines|
    decreases close - i
  {
    if i == close then Indent(lines[open]) + "    "
    else if Trim(lines[i]) != "" then Indent(lines[i])
    else BodyIndent(lines, open, i + 1, close)
  }

  const LOADING := "isLoading = false"

  function Navigate(route: string): string {
    "navController.navigate(\"" + route + "/$verificationId" + "/$phoneNumber\")"
  }

  function NewBody(indent: string, route: string): seq<string> {
    [indent + LOADING, indent + Navigate(route)]
  }

  function Replaced(lines: seq<string>, b: Body, route: string): seq<string>
    requires b.open < b.close < |lines|
  {
    lines[..b.open + 1] + NewBody(BodyIndent(lines, b.open, b.open + 1, b.close), route) + lines[b.close..]
  }

  /** The rewrite on lines; without the hook or its braces they stay as they are. */
  function Rewrite(lines: seq<string>, route: string): seq<string> {
    match FindBody(lines)
    case None => lines
    case Some(b) => Replaced(lines, b, route)
  }

  /** The whole rewrite; a file without the hook or its braces stays as it is, line ends included. */
  function Rewritten(content: string, route: string): string {
    var lines := SplitLines(content);
    if FindBody(lines).None? then content else JoinLike(content, Rewrite(lines, route))
  }

  /** The three searches: the hook, its opening line, and the line where the braces close. */
  method LocateBody(lines: seq<string>) returns (b: Option<Body>)
    ensures b == FindBody(lines)
  {
    hide Contains, Delta;
    var start := 0;
    while start < |lines| && !Contains(lines[start], HOOK)
      invariant start <= |lines| && FindHook(lines, 0) == FindHook(lines, start)
    {
      start := start + 1;
    }
    if start == |lines| {
      return None;
    }
    var end := if |lines| <= start + 12 then |lines| else start + 12;
    var openIdx := start;
    while openIdx < end && '{' !in lines[openIdx]
      invariant start <= openIdx <= end && FindOpen(lines, start, end) == FindOpen(lines, openIdx, end)
    {
      openIdx := openIdx + 1;
    }
    if openIdx == end {
      return None;
    }
    var depth := Delta(lines[openIdx]);
    var closeIdx := openIdx + 1;
    while closeIdx < |lines|
      invariant openIdx < closeIdx <= |lines|
      invariant FindClose(lines, openIdx + 1, Delta(lines[openIdx])) == FindClose(lines, closeIdx, depth)
    {
      depth := depth + Delta(lines[closeIdx]);
      if depth <= 0 {
        break;
      }
      closeIdx := closeIdx + 1;
    }
    return if closeIdx == |lines| then None else Some(Body(openIdx, closeIdx));
  }

  method ReplaceOnCodeSentBody(content: string, route: string) returns (text: string, changed: bool)
    ensures text == Rewritten(content, route) && changed == (text != content)
  {
    hide FindBody, NewBody, Trim, Indent, SplitLines, Join;
    var lines := SplitLines(content);
    var body := LocateBody(lines);
    if body.None? {
      return content, false;
    }
    var Body(open, close) := body.value;
    var k := open + 1;
    while k < close && Trim(lines[k]) == ""
      invariant open < k <= close
      invariant BodyIndent(lines, open, open + 1, close) == BodyIndent(lines, open, k, close)
    {
      k := k + 1;
    }
    var indent := if k == close then Indent(lines[open]) + "    " else Indent(lines[k]);
    text := JoinLike(content, lines[..open + 1] + NewBody(indent, route) + lines[close..]);
    changed := text != content;
  }

  // ----- what is kept ---------------------------------------------------------------------------

  /** Everything up to the open line and from the close line on is kept; two lines stand between. */
  lemma OutsideKept(lines: seq<string>, route: string)
    requires FindBody(lines).Some?
    ensures var b, out := FindBody(lines).value, Rewrite(lines, route);
              && |out| == b.open + 3 + |lines| - b.close
              && out[..b.open + 1] == lines[..b.open + 1] && out[b.open + 3..] == lines[b.close..]
  {
    hide FindBody, BodyIndent;
  }

  lemma {:induction false} NetSplit(lines: seq<string>, a: nat, m: nat, b: nat)
    requires a <= m <= b <= |lines|
    ensures Net(lines, a, b) == Net(lines, a, m) + Net(lines, m, b)
    decreases b
  {
    hide Delta;
    if m < b {
      NetSplit(lines, a, m, b - 1);
    }
  }

  lemma {:induction false} NetShift(xs: seq<string>, ys: seq<string>, a: nat, b: nat, d: int)
    requires a <= b <= |xs| && 0 <= a + d && b + d <= |ys|
    requires forall i | a <= i < b :: xs[i] == ys[i + d]
    ensures Net(xs, a, b) == Net(ys, a + d, b + d)
    decreases b
  {
    hide Delta;
    if a < b {
      NetShift(xs, ys, a, b - 1, d);
    }
  }

  lemma {:induction false} BodyIndentIsSpace(lines: seq<string>, open: nat, i: nat, close: nat)
    requires open < i <= close <= |lines|
    ensures AllSpaces(BodyIndent(lines, open, i, close))
    decreases close - i
  {
    hide Trim, IsSpace, Indent;
    IndentIsLongest(if i == close then lines[open] else lines[i]);
    if i == close {
      assert IsSpace(' ') by { SpaceIsSpace(); }
    } else if Trim(lines[i]) == "" {
      BodyIndentIsSpace(lines, open, i + 1, close);
    }
  }

  lemma NoBracesConcat(a: string, b: string)
    requires NoBraces(a) && NoBraces(b)
    ensures NoBraces(a + b)
  {
  }

  lemma NavigateNoBraces(route: string)
    requires NoBraces(route)
    ensures NoBraces(Navigate(route))
  {
    NoBracesConcat("navController.navigate(\"", route);
    NoBracesConcat("navController.navigate(\"" + route, "/$verificationId");
    NoBracesConcat("navController.navigate(\"" + route + "/$verificationId", "/$phoneNumber\")");
  }

  lemma NewBodyBalanced(indent: string, route: string)
    requires AllSpaces(indent) && NoBraces(route)
    ensures Delta(NewBody(indent, route)[0]) == 0 && Delta(NewBody(indent, route)[1]) == 0
  {
    hide Navigate, IsSpace;
    SpaceIsSpace();
    assert NoBraces(indent);
    NavigateNoBraces(route);
    NoBracesConcat(indent, LOADING);
    NoBracesConcat(indent, Navigate(route));
    NoBracesDelta(indent + LOADING);
    NoBracesDelta(indent + Navigate(route));
  }

  /** The facts about a rewrite that the laws below rest on. */
  lemma RewriteFacts(lines: seq<string>, route: string)
    requires FindBody(lines).Some? && NoBraces(route)
    ensures var b, out := FindBody(lines).value, Rewrite(lines, route);
              && |out| == b.open + 3 + |lines| - b.close
              && (forall i | 0 <= i <= b.open :: out[i] == lines[i])
              && (forall i | b.close <= i < |lines| :: out[i + (b.open + 3 - b.close)] == lines[i])
              && Delta(out[b.open + 1]) == 0 && Delta(out[b.open + 2]) == 0
  {
    hide FindBody, BodyIndent, NewBody, Delta;
    var b, out := FindBody(lines).value, Rewrite(lines, route);
    var indent := BodyIndent(lines, b.open, b.open + 1, b.close);
    BodyIndentIsSpace(lines, b.open, b.open + 1, b.close);
    NewBodyBalanced(indent, route);
    TwoLines(indent, route);
    assert out[b.open + 1] == NewBody(indent, route)[0] && out[b.open + 2] == NewBody(indent, route)[1];
  }

  lemma TwoLines(indent: string, route: string)
    ensures |NewBody(indent, route)| == 2
  {
  }

  lemma NetOfLines(lines: seq<string>, route: string)
    requires FindBody(lines).Some? && NoBraces(route)
    ensures var b, out := FindBody(lines).value, Rewrite(lines, route);
              Net(out, 0, |out|) == Net(lines, 0, |lines|) - Net(lines, b.open + 1, b.close)
  {
    hide FindBody, Rewrite, Delta, Net;
    var b, out := FindBody(lines).value, Rewrite(lines, route);
    var d := b.open + 3 - b.close;
    RewriteFacts(lines, route);
    NetSplit(lines, 0, b.open + 1, |lines|);
    NetSplit(lines, b.open + 1, b.close, |lines|);
    NetSplit(out, 0, b.open + 1, |out|);
    NetSplit(out, b.open + 1, b.open + 3, |out|);
    NetShift(lines, out, 0, b.open + 1, 0);
    NetShift(lines, out, b.close, |lines|, d);
    assert Net(out, b.open + 1, b.open + 3) == 0 by { NetOfTwo(out, b.open + 1); }
  }

  lemma NetOfTwo(lines: seq<string>, a: nat)
    requires a + 2 <= |lines| && Delta(lines[a]) == 0 && Delta(lines[a + 1]) == 0
    ensures Net(lines, a, a + 2) == 0
  {
    assert Net(lines, a, a + 1) == Net(lines, a, a) + Delta(lines[a]);
  }

  // ----- the search on the rewritten file ------------------------------------------------------------

  lemma {:induction false} FindCloseIs(lines: seq<string>, i: nat, depth: int, a: nat, c: nat)
    requires a <= i <= c <= |lines|
    ensures FindClose(lines, i, depth + Net(lines, a, i)) == c <==>
            (forall k | i < k <= c :: depth + Net(lines, a, k) > 0) && (c < |lines| ==> depth + Net(lines, a, c + 1) <= 0)
    decreases c - i
  {
    hide Delta;
    assert i < |lines| ==> Net(lines, a, i + 1) == Net(lines, a, i) + Delta(lines[i]);
    if i < c && depth + Net(lines, a, i + 1) > 0 {
      FindCloseIs(lines, i + 1, depth, a, c);
    }
  }

  lemma {:induction false} SameHook(xs: seq<string>, ys: seq<string>, i: nat, n: nat)
    requires i <= n < |xs| && n < |ys| && forall k | 0 <= k <= n :: xs[k] == ys[k]
    requires FindHook(xs, i) <= n
    ensures FindHook(ys, i) == FindHook(xs, i)
    decreases n - i
  {
    hide Contains;
    if !Contains(xs[i], HOOK) {
      SameHook(xs, ys, i + 1, n);
    }
  }

  lemma {:induction false} SameOpen(xs: seq<string>, ys: seq<string>, i: nat, n: nat, endX: nat, endY: nat)
    requires i <= n < endX <= |xs| && n < endY <= |ys| && forall k | 0 <= k <= n :: xs[k] == ys[k]
    requires FindOpen(xs, i, endX) == n
    ensures FindOpen(ys, i, endY) == n
    decreases n - i
  {
    if '{' !in xs[i] {
      SameOpen(xs, ys, i + 1, n, endX, endY);
    }
  }

  /** In the rewritten file the search finds the same open line, and from there on closes. */
  lemma SecondSearch(lines: seq<string>, route: string)
    requires FindBody(lines).Some? && NoBraces(route)
    ensures var b, out := FindBody(lines).value, Rewrite(lines, route);
              b.open < |out| &&
              var close := FindClose(out, b.open + 1, Delta(lines[b.open]));
              FindBody(out) == if close == |out| then None else Some(Body(b.open, close))
  {
    hide Delta, Rewrite, Contains, FindHook, FindOpen;
    var b, out := FindBody(lines).value, Rewrite(lines, route);
    RewriteFacts(lines, route);
    var start := FindHook(lines, 0);
    SameHook(lines, out, 0, b.open);
    SameOpen(lines, out, start, b.open, SearchEnd(lines, start), SearchEnd(out, start));
  }

  // ----- idempotence -----------------------------------------------------------------------------------

  lemma FirstNonBlankIndent(indent: string, line: string)
    requires AllSpaces(indent) && line == indent + LOADING
    ensures Trim(line) != "" && Indent(line) == indent
  {
    hide IsSpace;
    SpaceIsSpace();
    assert line[|indent|] == LOADING[0] == 'i';
    forall i | 0 <= i < |indent| ensures IsSpace(line[i]) {
      assert line[i] == indent[i];
    }
    LeadingSpacesIs(line, |indent|);
    TextEndIsText(line, |indent|, |line|);
    assert line[..|indent|] == indent;
  }

  /** Replacing the new body again, up to the same close line, gives the same file. */
  lemma SameBodyAgain(lines: seq<string>, route: string)
    requires FindBody(lines).Some?
    ensures var b, out := FindBody(lines).value, Rewrite(lines, route);
              b.open + 3 < |out| && Replaced(out, Body(b.open, b.open + 3), route) == out
  {
    hide FindBody, Navigate, Trim;
    var b, out := FindBody(lines).value, Rewrite(lines, route);
    var indent := BodyIndent(lines, b.open, b.open + 1, b.close);
    BodyIndentIsSpace(lines, b.open, b.open + 1, b.close);
    assert out[b.open + 1] == indent + LOADING;
    FirstNonBlankIndent(indent, out[b.open + 1]);
    assert BodyIndent(out, b.open, b.open + 1, b.open + 3) == indent;
    assert out[..b.open + 1] == lines[..b.open + 1] && out[b.open + 3..] == lines[b.close..];
  }

  /** The second rewrite changes nothing exactly when its search ends at the same close line or
      finds none. */
  lemma SecondResult(lines: seq<string>, route: string)
    requires FindBody(lines).Some? && NoBraces(route)
    ensures var b, out := FindBody(lines).value, Rewrite(lines, route);
              b.open < |out| &&
              var close := FindClose(out, b.open + 1, Delta(lines[b.open]));
              Rewrite(out, route) == out <==> close == |out| || close == b.open + 3
  {
    hide FindBody, Delta, BodyIndent, NewBody;
    var b, out := FindBody(lines).value, Rewrite(lines, route);
    SecondSearch(lines, route);
    SameBodyAgain(lines, route);
    var close := FindClose(out, b.open + 1, Delta(lines[b.open]));
    if close < |out| {
      TwoLines(BodyIndent(out, b.open, b.open + 1, close), route);
    }
  }

  lemma {:induction false} CloseShift(xs: seq<string>, ys: seq<string>, i: nat, depth: int, d: int)
    requires i <= |xs| && |ys| == |xs| + d && i + d >= 0 && forall k | i <= k < |xs| :: ys[k + d] == xs[k]
    ensures FindClose(ys, i + d, depth) == FindClose(xs, i, depth) + d
    decreases |xs| - i
  {
    hide Delta;
    if i < |xs| {
      CloseShift(xs, ys, i + 1, depth + Delta(xs[i]), d);
    }
  }

  /** Where the second search ends: at once if the open line opens nothing, else where the
      first file closes from its close line on. */
  lemma SecondClose(lines: seq<string>, route: string)
    requires FindBody(lines).Some? && NoBraces(route)
    ensures var b, out := FindBody(lines).value, Rewrite(lines, route);
              var depth := Delta(lines[b.open]);
              b.open < |out| && FindClose(out, b.open + 1, depth) ==
                if depth <= 0 then b.open + 1 else FindClose(lines, b.close, depth) + (b.open + 3 - b.close)
  {
    hide FindBody, Delta, Rewrite;
    var b, out := FindBody(lines).value, Rewrite(lines, route);
    var depth := Delta(lines[b.open]);
    RewriteFacts(lines, route);
    if depth > 0 {
      assert FindClose(out, b.open + 1, depth) == FindClose(out, b.open + 2, depth);
      assert FindClose(out, b.open + 2, depth) == FindClose(out, b.open + 3, depth);
      CloseShift(lines, out, b.close, depth, b.open + 3 - b.close);
    }
  }

  /** From line `a` on, entered with `depth` braces open, some brace is open after every line. */
  predicate StaysOpen(lines: seq<string>, a: nat, depth: int)
    requires a <= |lines|
  {
    forall k | a < k <= |lines| :: depth + Net(lines, a, k) > 0
  }

  lemma NeverCloses(lines: seq<string>, a: nat, depth: int)
    requires a <= |lines| && depth > 0
    ensures FindClose(lines, a, depth) == |lines| <==> StaysOpen(lines, a, depth)
  {
    hide Delta;
    FindCloseIs(lines, a, depth, a, |lines|);
    assert FindClose(lines, a, depth) == |lines| <==> forall k | a < k <= |lines| :: depth + Net(lines, a, k) > 0;
  }

  /** The open line opens at least one brace net, and the close line brings that to zero or below,
      or nothing from there on does. */
  predicate Settles(lines: seq<string>, b: Body)
    requires b.open < b.close < |lines|
  {
    var depth := Delta(lines[b.open]);
    depth >= 1 &&
    (depth + Delta(lines[b.close]) <= 0 || StaysOpen(lines, b.close, depth))
  }

  lemma LinesIdempotent(lines: seq<string>, route: string)
    requires FindBody(lines).Some? && NoBraces(route)
    ensures var out := Rewrite(lines, route);
              Rewrite(out, route) == out <==> Settles(lines, FindBody(lines).value)
  {
    hide FindBody, Delta, Rewrite, Settles;
    OutsideKept(lines, route);
    SecondClose(lines, route);
    SecondResult(lines, route);
    SettlesIs(lines, FindBody(lines).value);
  }

  lemma SettlesIs(lines: seq<string>, b: Body)
    requires b.open < b.close < |lines|
    ensures var depth := Delta(lines[b.open]);
              var close := FindClose(lines, b.close, depth);
              Settles(lines, b) <==> depth >= 1 && (close == b.close || close == |lines|)
  {
    hide Delta;
    var depth := Delta(lines[b.open]);
    if depth > 0 {
      NeverCloses(lines, b.close, depth);
    }
  }

  // ----- the text -----------------------------------------------------------------------------------

  /** A route that fits on one line and has no brace, as both routes of the recipe do. */
  predicate PlainRoute(route: string) {
    NoBraces(route) && OneLine(route)
  }

  lemma RoutesArePlain()
    ensures PlainRoute("customerKycCodeOTP") && PlainRoute("handymanKycCodeOTP")
  {
  }

  lemma NavigateOneLine(route: string)
    requires OneLine(route)
    ensures OneLine(Navigate(route))
  {
    OneLineConcat("navController.navigate(\"", route);
    OneLineConcat("navController.navigate(\"" + route, "/$verificationId");
    OneLineConcat("navController.navigate(\"" + route + "/$verificationId", "/$phoneNumber\")");
  }

  lemma LoadingOneLine()
    ensures OneLine(LOADING)
  {
  }

  lemma IndentOneLine(line: string)
    requires OneLine(line)
    ensures OneLine(Indent(line)) && OneLine(Indent(line) + "    ")
  {
    hide IsLineBreak, LeadingSpaces;
    OneLineConcat(Indent(line), "    ") by { assert OneLine("    ") by { FourSpaces(); } }
  }

  lemma FourSpaces()
    ensures OneLine("    ")
  {
  }

  lemma {:induction false} BodyIndentOneLine(lines: seq<string>, open: nat, i: nat, close: nat)
    requires open < i <= close <= |lines| && AllOneLine(lines)
    ensures OneLine(BodyIndent(lines, open, i, close))
    decreases close - i
  {
    hide Trim, Indent, OneLine;
    IndentOneLine(if i == close then lines[open] else lines[i]);
    if i < close && Trim(lines[i]) == "" {
      BodyIndentOneLine(lines, open, i + 1, close);
    }
  }

  lemma RewriteOneLine(lines: seq<string>, route: string)
    requires AllOneLine(lines) && OneLine(route)
    ensures AllOneLine(Rewrite(lines, route))
  {
    hide FindBody, BodyIndent, OneLine, Navigate;
    if FindBody(lines).Some? {
      var b := FindBody(lines).value;
      var indent := BodyIndent(lines, b.open, b.open + 1, b.close);
      BodyIndentOneLine(lines, b.open, b.open + 1, b.close);
      LoadingOneLine();
      NavigateOneLine(route);
      OneLineConcat(indent, LOADING);
      OneLineConcat(indent, Navigate(route));
    }
  }

  /** An empty last line changes nothing in the search from an open line with more after it. */
  lemma {:induction false} CloseBeforeEmpty(ls: seq<string>, i: nat, depth: int)
    requires i <= |ls| && (i < |ls| || depth > 0)
    ensures FindClose(ls + [""], i, depth) == if FindClose(ls, i, depth) == |ls| then |ls| + 1 else FindClose(ls, i, depth)
    decreases |ls| - i
  {
    var all := ls + [""];
    if i < |ls| {
      hide Delta;
      assert all[i] == ls[i];
      if depth + Delta(ls[i]) > 0 {
        CloseBeforeEmpty(ls, i + 1, depth + Delta(ls[i]));
      }
    } else {
      assert Delta("") == 0;
      assert FindClose(all, i + 1, depth) == |all|;
    }
  }

  lemma NothingContained(p: string)
    requires p != ""
    ensures !Contains("", p)
  {
  }

  lemma {:induction false} HookBeforeEmpty(ls: seq<string>, i: nat)
    requires i <= |ls|
    ensures FindHook(ls + [""], i) == if FindHook(ls, i) == |ls| then |ls| + 1 else FindHook(ls, i)
    decreases |ls| - i
  {
    hide Contains;
    var all := ls + [""];
    if i < |ls| {
      assert all[i] == ls[i];
      HookBeforeEmpty(ls, i + 1);
    } else {
      NothingContained(HOOK);
      assert FindHook(all, i + 1) == |all|;
    }
  }

  lemma {:induction false} OpenBeforeEmpty(ls: seq<string>, i: nat, end: nat, endAll: nat)
    requires i <= end <= |ls| && (endAll == end || (end == |ls| && endAll == end + 1))
    ensures FindOpen(ls + [""], i, endAll) == if FindOpen(ls, i, end) == end then endAll else FindOpen(ls, i, end)
    decreases end - i
  {
    var all := ls + [""];
    if i < end {
      assert all[i] == ls[i];
      OpenBeforeEmpty(ls, i + 1, end, endAll);
    } else if endAll > end {
      assert all[i] == "";
      assert FindOpen(all, i + 1, endAll) == endAll;
    }
  }

  lemma BodyBeforeEmpty(ls: seq<string>)
    requires FindBody(ls + [""]).Some? ==> FindBody(ls + [""]).value.open + 1 < |ls|
    ensures FindBody(ls) == FindBody(ls + [""])
  {
    hide FindHook, FindOpen, FindClose, Delta;
    var all := ls + [""];
    var start := FindHook(ls, 0);
    HookBeforeEmpty(ls, 0);
    if start < |ls| {
      OpenBeforeEmpty(ls, start, SearchEnd(ls, start), SearchEnd(all, start));
      var open := FindOpen(ls, start, SearchEnd(ls, start));
      if open < SearchEnd(ls, start) {
        assert all[open] == ls[open];
        if open + 1 < |ls| || Delta(ls[open]) > 0 {
          CloseBeforeEmpty(ls, open + 1, Delta(ls[open]));
        }
      }
    }
  }

  lemma {:induction false} IndentBeforeEmpty(ls: seq<string>, open: nat, i: nat, close: nat)
    requires open < i <= close <= |ls|
    ensures BodyIndent(ls + [""], open, i, close) == BodyIndent(ls, open, i, close)
    decreases close - i
  {
    hide Trim, Indent;
    if i < close {
      IndentBeforeEmpty(ls, open, i + 1, close);
    }
  }

  lemma RewriteBeforeEmpty(ls: seq<string>, route: string)
    requires FindBody(ls + [""]).Some? ==> FindBody(ls + [""]).value.open + 1 < |ls|
    ensures Rewrite(ls + [""], route) == Rewrite(ls, route) + [""]
  {
    hide FindBody, NewBody, BodyIndent;
    var all := ls + [""];
    BodyBeforeEmpty(ls);
    if FindBody(ls).Some? {
      var b := FindBody(ls).value;
      IndentBeforeEmpty(ls, b.open, b.open + 1, b.close);
      assert all[..b.open + 1] == ls[..b.open + 1] && all[b.close..] == ls[b.close..] + [""];
    }
  }

  lemma RewriteNonEmpty(ls: seq<string>, route: string)
    requires ls != []
    ensures Rewrite(ls, route) != []
  {
    hide FindBody, NewBody, BodyIndent;
  }

  lemma FixedText(text: string, ls: seq<string>, route: string)
    requires SplitLines(text) == ls && (JoinLike(text, Rewrite(ls, route)) == text <==> Rewrite(ls, route) == ls)
    ensures Rewritten(text, route) == text <==> Rewrite(ls, route) == ls
  {
    hide FindBody, NewBody, BodyIndent, JoinLike;
  }

  lemma FixedUnlines(ls: seq<string>, route: string)
    requires ls != [] && AllOneLine(ls) && OneLine(route)
    ensures Rewritten(Unlines(ls), route) == Unlines(ls) <==> Rewrite(ls, route) == ls
  {
    hide Rewrite, Rewritten, Unlines, JoinLike, SplitLines, OneLine;
    RewriteOneLine(ls, route);
    RewriteNonEmpty(ls, route);
    UnlinesText(ls, Rewrite(ls, route));
    FixedText(Unlines(ls), ls, route);
  }

  lemma FixedJoin(ls: seq<string>, route: string)
    requires ls != [] && AllOneLine(ls) && OneLine(route) && ls[|ls| - 1] != ""
    ensures Rewritten(Join(ls), route) == Join(ls) <==> Rewrite(ls, route) == ls
  {
    hide Rewrite, Rewritten, Join, JoinLike, SplitLines, OneLine;
    RewriteOneLine(ls, route);
    RewriteNonEmpty(ls, route);
    JoinedText(ls, Rewrite(ls, route));
    FixedText(Join(ls), ls, route);
  }

  /** Joining lines of which the last is empty gives the rendering of the others. */
  lemma FixedJoinEmpty(ls: seq<string>, route: string)
    requires ls != [] && AllOneLine(ls + [""]) && OneLine(route)
    requires FindBody(ls + [""]).Some? ==> FindBody(ls + [""]).value.open + 1 < |ls|
    ensures Rewritten(Join(ls + [""]), route) == Join(ls + [""]) <==> Rewrite(ls + [""], route) == ls + [""]
  {
    hide Rewrite, Rewritten, Join, Unlines, FindBody, OneLine;
    assert forall i | 0 <= i < |ls| :: (ls + [""])[i] == ls[i];
    JoinNewline(ls);
    FixedUnlines(ls, route);
    RewriteBeforeEmpty(ls, route);
  }

  /** A second rewrite keeps the text if and only if it keeps the lines. */
  lemma TextSettles(content: string, route: string)
    requires FindBody(SplitLines(content)).Some? && PlainRoute(route)
    ensures var t, out := Rewritten(content, route), Rewrite(SplitLines(content), route);
              Rewritten(t, route) == t <==> Rewrite(out, route) == out
  {
    hide Rewrite, Rewritten, FindBody, OneLine, SplitLines, FindClose, Delta, JoinLike;
    var lines := SplitLines(content);
    OutsideKept(lines, route);
    RewriteOneLine(lines, route);
    SecondSearch(lines, route);
    RenderingSettles(content, Rewrite(lines, route), route);
    RewrittenIs(content, route);
  }

  lemma RewrittenIs(content: string, route: string)
    requires FindBody(SplitLines(content)).Some?
    ensures Rewritten(content, route) == JoinLike(content, Rewrite(SplitLines(content), route))
  {
  }

  lemma RenderingSettles(content: string, out: seq<string>, route: string)
    requires |out| > 1 && AllOneLine(out) && OneLine(route)
    requires FindBody(out).Some? ==> FindBody(out).value.open + 1 < |out| - 1
    ensures var t := JoinLike(content, out); Rewritten(t, route) == t <==> Rewrite(out, route) == out
  {
    hide Rewrite, Rewritten, Join, FindBody, OneLine;
    var n := |out| - 1;
    if EndsLine(content) {
      JoinNewline(out);
      FixedUnlines(out, route);
    } else if out[n] != "" {
      FixedJoin(out, route);
    } else {
      assert out == out[..n] + [""];
      FixedJoinEmpty(out[..n], route);
    }
  }

  /** Rewriting again gives the same text exactly when the open line opens at least one brace
      net, and the close line brings that to zero or below, or nothing from there on does. */
  lemma IdempotentExactly(content: string, route: string)
    requires FindBody(SplitLines(content)).Some? && PlainRoute(route)
    ensures var t := Rewritten(content, route);
              Rewritten(t, route) == t <==> Settles(SplitLines(content), FindBody(SplitLines(content)).value)
  {
    hide FindBody, Rewrite, Rewritten, SplitLines, Settles, OneLine;
    TextSettles(content, route);
    LinesIdempotent(SplitLines(content), route);
  }

  /** The file is left as it is exactly if there is no body to replace, or the body is the new one
      already and every line ends with `\n`, the last one perhaps with nothing. */
  lemma UnchangedExactly(content: string, route: string)
    requires PlainRoute(route)
    ensures var lines := SplitLines(content);
              Rewritten(content, route) == content <==>
              FindBody(lines).None? || (Rewrite(lines, route) == lines && JoinLike(content, lines) == content)
  {
    hide Rewrite, FindBody, OneLine, SplitLines, JoinLike;
    var lines := SplitLines(content);
    if FindBody(lines).Some? && Rewritten(content, route) == content {
      RewriteOneLine(lines, route);
      OutsideKept(lines, route);
      RenderedLines(content, Rewrite(lines, route));
    }
  }

  /** Lines whose rendering is the text itself are the text's lines. */
  lemma RenderedLines(content: string, out: seq<string>)
    requires |out| > 1 && AllOneLine(out) && JoinLike(content, out) == content
    ensures SplitLines(content) == out
  {
    hide Join, Unlines, OneLine, SplitLines;
    var n := |out| - 1;
    if EndsLine(content) {
      JoinNewline(out);
      SplitUnlines(out);
    } else {
      assert out == out[..n] + [out[n]];
      JoinNewline(out[..n]);
      UnlinesEnd(out[..n]);
      SplitLinesJoin(out);
    }
  }

  // ----- the search and the splice, said of positions -----------------------------------------------

  lemma {:induction false} DeltaIsCount(line: string)
    ensures Delta(line) == multiset(line)['{'] as int - multiset(line)['}'] as int
  {
    if line != "" {
      DeltaIsCount(line[..|line| - 1]);
      assert line == line[..|line| - 1] + [line[|line| - 1]];
    }
  }

  /** The first line with the hook. */
  predicate HookAt(lines: seq<string>, start: nat) {
    start < |lines| && Contains(lines[start], HOOK) && forall k | 0 <= k < start :: !Contains(lines[k], HOOK)
  }

  /** The first line with an opening brace among the hook's and the eleven after it. */
  predicate OpensBody(lines: seq<string>, start: nat, open: nat) {
    start <= open < |lines| && open < start + 12 && '{' in lines[open] && forall k | start <= k < open :: '{' !in lines[k]
  }

  /** The first line below `open` at whose end no more braces are open than closed since. */
  predicate ClosesBody(lines: seq<string>, open: nat, close: nat) {
    && open < close < |lines| && !OpenAfter(lines, open, close + 1)
    && forall k | open + 1 < k <= close :: OpenAfter(lines, open, k)
  }

  /** The lines from `open` up to `k` open more braces than they close. */
  predicate OpenAfter(lines: seq<string>, open: nat, k: nat)
    requires open <= k <= |lines|
  {
    Net(lines, open, k) > 0
  }

  lemma {:induction false} FindHookIs(lines: seq<string>, i: nat, start: nat)
    requires i <= start < |lines|
    ensures FindHook(lines, i) == start <==> Contains(lines[start], HOOK) && forall k | i <= k < start :: !Contains(lines[k], HOOK)
    decreases start - i
  {
    hide Contains;
    if i < start && !Contains(lines[i], HOOK) {
      FindHookIs(lines, i + 1, start);
    }
  }

  lemma {:induction false} FindOpenIs(lines: seq<string>, i: nat, end: nat, open: nat)
    requires i <= open < end <= |lines|
    ensures FindOpen(lines, i, end) == open <==> '{' in lines[open] && forall k | i <= k < open :: '{' !in lines[k]
    decreases open - i
  {
    if i < open && '{' !in lines[i] {
      FindOpenIs(lines, i + 1, end, open);
    }
  }

  lemma {:induction false} NetFrom(lines: seq<string>, open: nat, k: nat)
    requires open < k <= |lines|
    ensures Net(lines, open, k) == Delta(lines[open]) + Net(lines, open + 1, k)
    decreases k
  {
    hide Delta;
    if k > open + 1 {
      NetFrom(lines, open, k - 1);
    } else {
      assert Net(lines, open, open) == 0;
    }
  }

  lemma FindCloseFrom(lines: seq<string>, open: nat, a: nat, close: nat)
    requires open < a == open + 1 <= close < |lines|
    ensures FindClose(lines, a, Delta(lines[open])) == close <==> ClosesBody(lines, open, close)
  {
    hide Delta, FindClose;
    var depth := Delta(lines[open]);
    assert Net(lines, a, a) == 0;
    NetFrom(lines, open, close + 1);
    if FindClose(lines, a, depth) == close {
      FindCloseIs(lines, a, depth, a, close);
      forall k: nat | a < k <= close ensures OpenAfter(lines, open, k) {
        NetFrom(lines, open, k);
      }
    }
    if ClosesBody(lines, open, close) {
      forall k: nat | a < k <= close ensures depth + Net(lines, a, k) > 0 {
        assert OpenAfter(lines, open, k);
        NetFrom(lines, open, k);
      }
      FindCloseIs(lines, a, depth, a, close);
    }
  }

  /** The body is found exactly as the three searches say. */
  lemma FindBodyExactly(lines: seq<string>, b: Body)
    ensures FindBody(lines) == Some(b) <==>
            exists start: nat :: HookAt(lines, start) && OpensBody(lines, start, b.open) && ClosesBody(lines, b.open, b.close)
  {
    hide Contains, Delta, FindHook, FindOpen, FindClose, ClosesBody;
    if start: nat :| HookAt(lines, start) && OpensBody(lines, start, b.open) && ClosesBody(lines, b.open, b.close) {
      FindHookIs(lines, 0, start);
      FindOpenIs(lines, start, SearchEnd(lines, start), b.open);
      ClosesAfter(lines, b.open, b.close);
      FindCloseFrom(lines, b.open, b.open + 1, b.close);
    }
    if FindBody(lines) == Some(b) {
      var start := FindHook(lines, 0);
      FindHookIs(lines, 0, start);
      FindOpenIs(lines, start, SearchEnd(lines, start), b.open);
      FindCloseFrom(lines, b.open, b.open + 1, b.close);
      assert HookAt(lines, start) && OpensBody(lines, start, b.open);
    }
  }

  lemma ClosesAfter(lines: seq<string>, open: nat, close: nat)
    requires ClosesBody(lines, open, close)
    ensures open < close < |lines|
  {
  }

  /** The first line of the body that is not blank. */
  predicate FirstText(lines: seq<string>, b: Body, k: nat) {
    && b.open < k < b.close <= |lines| && !AllSpaces(lines[k])
    && forall j | b.open < j < k :: AllSpaces(lines[j])
  }

  lemma BlankIsAllSpaces(line: string)
    ensures Trim(line) == "" <==> AllSpaces(line)
  {
    hide IsSpace, Trim;
    TrimExactly(line, "");
    if AllSpaces(line) {
      TrimNothing(line);
    }
    if a, b :| AllSpaces(a) && AllSpaces(b) && line == a + "" + b {
    }
  }

  lemma {:induction false} BodyIndentIs(lines: seq<string>, b: Body, i: nat)
    requires b.open < i <= b.close <= |lines| && forall j | b.open < j < i :: AllSpaces(lines[j])
    ensures forall k: nat | FirstText(lines, b, k) :: BodyIndent(lines, b.open, i, b.close) == Indent(lines[k])
    ensures (forall k: nat :: !FirstText(lines, b, k)) ==> BodyIndent(lines, b.open, i, b.close) == Indent(lines[b.open]) + "    "
    decreases b.close - i
  {
    hide AllSpaces, Trim, Indent;
    if i < b.close {
      BlankIsAllSpaces(lines[i]);
      if Trim(lines[i]) == "" {
        BodyIndentIs(lines, b, i + 1);
      } else {
        assert FirstText(lines, b, i);
      }
    }
  }

  /** What the rewrite puts in the place of the body, and nothing else changes but line ends. */
  lemma RewriteSplices(content: string, route: string) returns (indent: string)
    requires FindBody(SplitLines(content)).Some?
    ensures var lines := SplitLines(content);
              var b := FindBody(lines).value;
              && (forall k: nat | FirstText(lines, b, k) :: indent == Indent(lines[k]))
              && ((forall k: nat :: !FirstText(lines, b, k)) ==> indent == Indent(lines[b.open]) + "    ")
              && Rewritten(content, route) ==
                   Join(lines[..b.open + 1]
                        + [indent + "isLoading = false",
                           indent + ("navController.navigate(\"" + route + "/$verificationId/$phoneNumber\")")]
                        + lines[b.close..])
                   + if content != "" && content[|content| - 1] == '\n' then "\n" else ""
  {
    hide FindBody, Join, SplitLines, BodyIndent, FirstText, Indent, Navigate;
    var lines := SplitLines(content);
    var b := FindBody(lines).value;
    indent := BodyIndent(lines, b.open, b.open + 1, b.close);
    BodyIndentIs(lines, b, b.open + 1);
    NavigateIs(route);
  }

  lemma NavigateIs(route: string)
    ensures Navigate(route) == "navController.navigate(\"" + route + "/$verificationId/$phoneNumber\")"
  {
    assert "/$verificationId" + "/$phoneNumber\")" == "/$verificationId/$phoneNumber\")";
  }

  // ----- braces in the text -------------------------------------------------------------------------

  lemma {:induction false} DeltaConcat(a: string, b: string)
    ensures Delta(a + b) == Delta(a) + Delta(b)
    decreases |b|
  {
    if b == "" {
      assert a + b == a;
    } else {
      DeltaConcat(a, b[..|b| - 1]);
      assert (a + b)[..|a + b| - 1] == a + b[..|b| - 1];
    }
  }

  function Total(lines: seq<string>): int {
    Net(lines, 0, |lines|)
  }

  lemma TotalCons(l: string, ls: seq<string>)
    ensures Total([l] + ls) == Delta(l) + Total(ls)
  {
    hide Delta;
    var all := [l] + ls;
    NetSplit(all, 0, 1, |all|);
    NetShift(all, ls, 1, |all|, -1);
    assert Net(all, 0, 1) == Net(all, 0, 0) + Delta(l);
  }

  lemma BreakDelta(c: char)
    requires IsLineBreak(c)
    ensures Delta([c]) == 0 && Delta([c, '\n']) == 0
  {
    NoBracesDelta([c]);
    NoBracesDelta([c, '\n']);
  }

  lemma {:induction false} DeltaOfLines(content: string)
    ensures Delta(content) == Total(SplitLines(content))
    decreases |content|
  {
    hide Delta, Total, IsLineBreak, SplitLines;
    if content != "" {
      var k, w := SplitLinesFirst(content);
      if k == |content| {
        TotalCons(content, []);
        TotalNothing();
        assert [content] + [] == [content];
      } else {
        DeltaOfLines(content[k + w..]);
        TotalCons(content[..k], SplitLines(content[k + w..]));
        DeltaAroundBreak(content, k, w);
      }
    } else {
      SplitLinesOne(content);
      TotalNothing();
    }
  }

  lemma DeltaAroundBreak(s: string, k: nat, w: nat)
    requires 0 < w <= 2 && k + w <= |s| && IsLineBreak(s[k]) && (w == 2 ==> s[k + 1] == '\n')
    ensures Delta(s) == Delta(s[..k]) + Delta(s[k + w..])
  {
    hide Delta, IsLineBreak;
    BreakDelta(s[k]);
    var mid := s[k..k + w];
    assert mid == if w == 2 then [s[k], '\n'] else [s[k]];
    DeltaConcat(s[..k], mid);
    DeltaConcat(s[..k] + mid, s[k + w..]);
    assert s == s[..k] + mid + s[k + w..];
  }

  lemma TotalNothing()
    ensures Total([]) == 0 && Delta("") == 0 && Delta("\n") == 0
  {
    NoBracesDelta("\n");
  }

  lemma {:induction false} DeltaOfJoin(ls: seq<string>)
    ensures Delta(Join(ls)) == Total(ls)
  {
    hide Delta, Net, Total;
    TotalNothing();
    if ls != [] {
      var rest := ls[1..];
      TotalCons(ls[0], rest);
      assert ls == [ls[0]] + rest;
      if rest == [] {
        assert Join(ls) == ls[0];
      } else {
        DeltaOfJoin(rest);
        DeltaConcat(ls[0], "\n");
        DeltaConcat(ls[0] + "\n", Join(rest));
      }
    }
  }

  /** The text's net brace count changes by exactly that of the body removed. */
  lemma NetBracesAfter(content: string, route: string)
    requires FindBody(SplitLines(content)).Some? && PlainRoute(route)
    ensures var lines := SplitLines(content);
              var b := FindBody(lines).value;
              Delta(Rewritten(content, route)) == Delta(content) - Net(lines, b.open + 1, b.close)
  {
    hide FindBody, Rewrite, SplitLines, Delta, Net, Join, OneLine;
    var lines := SplitLines(content);
    var out := Rewrite(lines, route);
    NetOfLines(lines, route);
    DeltaOfLines(content);
    DeltaOfJoin(out);
    DeltaConcat(Join(out), "\n");
    TotalNothing();
  }

  /** In the usual shape, one brace opened and one closed, the rewrite is idempotent and keeps
      the text's net brace count. */
  lemma UsualShape(content: string, route: string)
    requires FindBody(SplitLines(content)).Some? && PlainRoute(route)
    requires var lines := SplitLines(content);
               Delta(lines[FindBody(lines).value.open]) == 1 && Delta(lines[FindBody(lines).value.close]) == -1
    ensures var t := Rewritten(content, route);
              Rewritten(t, route) == t && Delta(t) == Delta(content)
  {
    hide SplitLines, Delta, Rewritten, OneLine, FindHook, FindOpen;
    var lines := SplitLines(content);
    var b := FindBody(lines).value;
    IdempotentExactly(content, route);
    NetBracesAfter(content, route);
    FindCloseIs(lines, b.open + 1, 1, b.open + 1, b.close);
    assert Net(lines, b.open + 1, b.open + 1) == 0;
    assert Net(lines, b.open + 1, b.close + 1) == Net(lines, b.open + 1, b.close) + Delta(lines[b.close]);
    assert b.open + 1 < b.close ==> 1 + Net(lines, b.open + 1, b.close) > 0;
  }

  /** It need not be idempotent: an empty one-line hook opens no brace net, so each rewrite takes the
      next line for the close line and puts its two lines before the ones put there last. */
  lemma EmptyHookNotSettled(route: string) returns (content: string)
    requires PlainRoute(route)
    ensures content == HOOK + "() {}" + "\n" + "x" && FindBody(SplitLines(content)) == Some(Body(0, 1))
    ensures var t := Rewritten(content, route); Rewritten(t, route) != t
  {
    hide SplitLines, FindBody, PlainRoute, Rewritten, HOOK;
    var first := HOOK + "() {}";
    content := first + "\n" + "x";
    HookLine();
    SplitLinesStep(first, "x");
    XLine();
    assert [first] + ["x"] == [first, "x"];
    EmptyHookBody();
    IdempotentExactly(content, route);
  }

  lemma XLine()
    ensures SplitLines("x") == ["x"] && Delta("x") == 0
  {
    SplitLinesOne("x");
    NoBracesDelta("x");
  }

  lemma HookLine()
    ensures OneLine(HOOK + "() {}") && Delta(HOOK + "() {}") == 0
  {
    assert OneLine(HOOK) && NoBraces(HOOK);
    OneLineConcat(HOOK, "() {}");
    NoBracesDelta(HOOK);
    NoBracesDelta("() ");
    DeltaConcat("() ", "{}");
    assert "{}"[..1] == "{" && "{"[..0] == "";
    assert Delta("{") == 1;
    assert "() " + "{}" == "() {}";
    DeltaConcat(HOOK, "() {}");
  }

  lemma EmptyHookBody()
    ensures FindBody([HOOK + "() {}", "x"]) == Some(Body(0, 1)) && !Settles([HOOK + "() {}", "x"], Body(0, 1))
  {
    hide Delta, HOOK;
    var lines := [HOOK + "() {}", "x"];
    HookLine();
    XLine();
    assert OccursAt(lines[0], HOOK, 0);
    assert lines[0][|HOOK| + 3] == '{';
    assert FindHook(lines, 0) == 0;
    assert FindOpen(lines, 0, 2) == 0;
    assert FindClose(lines, 1, 0) == 1;
  }
}
