/** `_scope_around_hunk`: the lines of the function around a hunk, found by counting braces. */
module FunctionScope {
  import opened Options

  /** Net braces so far, and whether an opening one was seen. */
  datatype Scan = Scan(depth: int, saw: bool)

  function Feed(s: Scan, c: char): Scan {
    if c == '{' then Scan(s.depth + 1, true)
    else if c == '}' then Scan(s.depth - 1, s.saw)
    else s
  }

  /** After the first `n` characters of `line`. */
  function Within(s: Scan, line: string, n: nat): Scan
    requires n <= |line|
  {
    if n == 0 then s else Feed(Within(s, line, n - 1), line[n - 1])
  }

  /** After the lines `a..j`. */
  function Before(lines: seq<string>, a: nat, j: nat): Scan
    requires a <= j <= |lines|
    decreases j
  {
    if j == a then Scan(0, false) else Within(Before(lines, a, j - 1), lines[j - 1], |lines[j - 1]|)
  }

  /** The character at `i` of line `j` is a closing brace that balances what was opened. */
  predicate ClosesAt(lines: seq<string>, a: nat, j: nat, i: nat) {
    a <= j < |lines| && i < |lines[j]| && lines[j][i] == '}' &&
    var s := Within(Before(lines, a, j), lines[j], i);
    s.saw && s.depth == 1
  }

  ghost predicate ClosesIn(lines: seq<string>, a: nat, j: nat) {
    exists i: nat :: ClosesAt(lines, a, j, i)
  }

  /** The braces are balanced at the end of line `j`, which also stops the scan. */
  predicate ZeroAfter(lines: seq<string>, a: nat, j: nat) {
    a <= j < |lines| && Before(lines, a, j + 1).saw && Before(lines, a, j + 1).depth == 0
  }

  /** Line `e` ends the function that starts on line `a`, as the scan sees it. */
  ghost predicate ScanEnds(lines: seq<string>, a: nat, e: nat) {
    || (ClosesIn(lines, a, e) && forall j | a <= j < e :: !ClosesIn(lines, a, j) && !ZeroAfter(lines, a, j))
    || (e == |lines| - 1 && exists stop | a <= stop < |lines| ::
          && (forall j | a <= j <= stop :: !ClosesIn(lines, a, j))
          && (forall j | a <= j < stop :: !ZeroAfter(lines, a, j))
          && (stop == |lines| - 1 || ZeroAfter(lines, a, stop)))
  }

  /** The character loop: the first closing position in `line`, or the state after it. */
  method ScanLine(lines: seq<string>, a: nat, j: nat, depth: int, saw: bool) returns (closed: bool, depth': int, saw': bool)
    requires a <= j < |lines| && Before(lines, a, j) == Scan(depth, saw)
    ensures closed <==> ClosesIn(lines, a, j)
    ensures !closed ==> Before(lines, a, j + 1) == Scan(depth', saw')
  {
    var line := lines[j];
    closed, depth', saw' := false, depth, saw;
    for i := 0 to |line|
      invariant Within(Scan(depth, saw), line, i) == Scan(depth', saw')
      invariant forall k: nat | k < i :: !ClosesAt(lines, a, j, k)
    {
      if line[i] == '{' {
        depth', saw' := depth' + 1, true;
      } else if line[i] == '}' {
        depth' := depth' - 1;
        if saw' && depth' == 0 {
          assert ClosesAt(lines, a, j, i);
          return true, depth', saw';
        }
      }
    }
  }

  method FunctionEnd(lines: seq<string>, a: nat) returns (e: nat)
    requires a < |lines|
    ensures a <= e < |lines| && ScanEnds(lines, a, e)
  {
    hide ClosesAt, ClosesIn, Within;
    var depth, saw := 0, false;
    e := |lines| - 1;
    for j := a to |lines|
      invariant Before(lines, a, j) == Scan(depth, saw)
      invariant forall i | a <= i < j :: !ClosesIn(lines, a, i) && !ZeroAfter(lines, a, i)
    {
      var closed;
      closed, depth, saw := ScanLine(lines, a, j, depth, saw);
      if closed {
        return j;
      }
      if saw && depth == 0 {
        assert ZeroAfter(lines, a, j);
        return;
      }
    }
    assert forall i | a <= i <= |lines| - 1 :: !ClosesIn(lines, a, i);
  }

  /** The whole helper, on the lines of a non-empty file: `lines[lo..hi]` is what it returns. */
  method ScopeAroundHunk(lines: seq<string>, isFun: string -> bool, newStart: int) returns (lo: nat, hi: nat)
    requires lines != []
    ensures lo < hi <= |lines|
    ensures var idx := if newStart < 1 then 0 else if newStart > |lines| then |lines| - 1 else newStart - 1;
              if f :| 0 <= f <= idx && isFun(lines[f]) && forall k | f < k <= idx :: !isFun(lines[k])
              then lo == f && ScanEnds(lines, f, hi - 1)
              else lo == (if idx >= 80 then idx - 80 else 0) && hi == (if idx + 81 < |lines| then idx + 81 else |lines|)
  {
    hide ScanEnds;
    var idx := Clamp(newStart - 1, |lines| - 1);
    var i := idx as int;
    while i >= 0 && !isFun(lines[i])
      invariant -1 <= i <= idx
      invariant NearestFun(lines, isFun, idx) == if i < 0 then None else NearestFun(lines, isFun, i)
    {
      i := i - 1;
    }
    if i < 0 {
      lo := if idx >= 80 then idx - 80 else 0;
      hi := if idx + 81 < |lines| then idx + 81 else |lines|;
    } else {
      var e := FunctionEnd(lines, i);
      lo, hi := i, e + 1;
    }
  }

  function Clamp(n: int, top: nat): nat {
    if n < 0 then 0 else if n < top then n else top
  }

  /** The last function declaration at or above `idx`. */
  function NearestFun(lines: seq<string>, isFun: string -> bool, idx: nat): (f: Option<nat>)
    requires idx < |lines|
    ensures f.Some? ==> f.value <= idx && isFun(lines[f.value]) && forall k | f.value < k <= idx :: !isFun(lines[k])
    ensures f.None? ==> forall k | 0 <= k <= idx :: !isFun(lines[k])
  {
    if isFun(lines[idx]) then Some(idx) else if idx == 0 then None else NearestFun(lines, isFun, idx - 1)
  }

  // ----- the first balance -----------------------------------------------------------------------

  /** Line `e` is where the braces counted from line `a` first balance, or the last line if they
      never do. */
  ghost predicate FirstBalance(lines: seq<string>, a: nat, e: nat) {
    || (ClosesIn(lines, a, e) && forall j | a <= j < e :: !ClosesIn(lines, a, j))
    || (e == |lines| - 1 && forall j | a <= j < |lines| :: !ClosesIn(lines, a, j))
  }

  /** The count is zero at the end of a line before the first balance, which is not on the last line. */
  ghost predicate Overruns(lines: seq<string>, a: nat) {
    exists stop, close | a <= stop < close < |lines| - 1 ::
      ZeroAfter(lines, a, stop) && ClosesIn(lines, a, close) && forall j | a <= j < close :: !ClosesIn(lines, a, j)
  }

  lemma {:induction false} FirstClosingLine(lines: seq<string>, a: nat, n: nat) returns (c: nat)
    requires a <= n && ClosesIn(lines, a, n)
    ensures a <= c <= n && ClosesIn(lines, a, c) && forall j | a <= j < c :: !ClosesIn(lines, a, j)
    decreases n
  {
    hide ClosesIn;
    if j :| a <= j < n && ClosesIn(lines, a, j) {
      c := FirstClosingLine(lines, a, j);
    } else {
      c := n;
    }
  }

  /** The scope ends at the first balance unless a line before it ends with a count of zero: then
      it runs on to the last line. */
  lemma ScopeEndsAtFirstBalance(lines: seq<string>, a: nat, e: nat)
    requires a <= e < |lines| && ScanEnds(lines, a, e)
    ensures FirstBalance(lines, a, e) <==> !Overruns(lines, a)
  {
    hide ClosesIn, ZeroAfter, FirstBalance, Overruns;
    if ClosesIn(lines, a, e) && forall j | a <= j < e :: !ClosesIn(lines, a, j) && !ZeroAfter(lines, a, j) {
      ClosedInTime(lines, a, e);
    } else {
      var stop :| a <= stop < |lines|
        && (forall j | a <= j <= stop :: !ClosesIn(lines, a, j))
        && (stop == |lines| - 1 || ZeroAfter(lines, a, stop));
      Stopped(lines, a, stop);
    }
  }

  lemma ClosedInTime(lines: seq<string>, a: nat, e: nat)
    requires a <= e < |lines| && ClosesIn(lines, a, e)
    requires forall j | a <= j < e :: !ClosesIn(lines, a, j) && !ZeroAfter(lines, a, j)
    ensures FirstBalance(lines, a, e) && !Overruns(lines, a)
  {
    hide ClosesIn, ZeroAfter;
  }

  lemma Stopped(lines: seq<string>, a: nat, stop: nat)
    requires a <= stop < |lines| && (stop == |lines| - 1 || ZeroAfter(lines, a, stop))
    requires forall j | a <= j <= stop :: !ClosesIn(lines, a, j)
    ensures FirstBalance(lines, a, |lines| - 1) <==> !Overruns(lines, a)
  {
    hide ClosesIn, ZeroAfter;
    if n :| a <= n < |lines| && ClosesIn(lines, a, n) {
      var c := FirstClosingLine(lines, a, n);
    }
  }

  // ----- where the body ends ----------------------------------------------------------------------

  /** The nesting depth; a closing brace with nothing open counts for nothing. */
  function Nest(d: nat, c: char): nat {
    if c == '{' then d + 1 else if c == '}' && d > 0 then d - 1 else d
  }

  function NestWithin(d: nat, line: string, n: nat): nat
    requires n <= |line|
  {
    if n == 0 then d else Nest(NestWithin(d, line, n - 1), line[n - 1])
  }

  function NestBefore(lines: seq<string>, a: nat, j: nat): nat
    requires a <= j <= |lines|
    decreases j
  {
    if j == a then 0 else NestWithin(NestBefore(lines, a, j - 1), lines[j - 1], |lines[j - 1]|)
  }

  predicate BodyEndsAt(lines: seq<string>, a: nat, j: nat, i: nat) {
    a <= j < |lines| && i < |lines[j]| && lines[j][i] == '}' && NestWithin(NestBefore(lines, a, j), lines[j], i) == 1
  }

  ghost predicate BodyEndsIn(lines: seq<string>, a: nat, j: nat) {
    exists i: nat :: BodyEndsAt(lines, a, j, i)
  }

  /** Line `e` closes the first brace opened from line `a` on, or is the last line if none does. */
  ghost predicate BodyEnds(lines: seq<string>, a: nat, e: nat) {
    || (BodyEndsIn(lines, a, e) && forall j | a <= j < e :: !BodyEndsIn(lines, a, j))
    || (e == |lines| - 1 && forall j | a <= j < |lines| :: !BodyEndsIn(lines, a, j))
  }

  /** No closing brace comes before the first opening one. */
  predicate OpensFirst(lines: seq<string>, a: nat) {
    forall j, i | a <= j < |lines| && 0 <= i < |lines[j]| && lines[j][i] == '}' :: Within(Before(lines, a, j), lines[j], i).saw
  }

  predicate InStep(s: Scan, d: nat) {
    s.depth == d && (s.saw <==> d > 0)
  }

  lemma {:induction false} InStepWithin(lines: seq<string>, a: nat, j: nat, n: nat)
    requires a <= j < |lines| && n <= |lines[j]| && OpensFirst(lines, a)
    requires InStep(Before(lines, a, j), NestBefore(lines, a, j)) && forall i: nat | i < n :: !ClosesAt(lines, a, j, i)
    ensures InStep(Within(Before(lines, a, j), lines[j], n), NestWithin(NestBefore(lines, a, j), lines[j], n))
  {
    if n > 0 {
      InStepWithin(lines, a, j, n - 1);
      assert !ClosesAt(lines, a, j, n - 1);
    }
  }

  lemma {:induction false} InStepBefore(lines: seq<string>, a: nat, j: nat)
    requires a <= j <= |lines| && OpensFirst(lines, a) && forall k | a <= k < j :: !ClosesIn(lines, a, k)
    ensures InStep(Before(lines, a, j), NestBefore(lines, a, j))
  {
    hide ClosesAt, OpensFirst, Within, NestWithin;
    if j > a {
      InStepBefore(lines, a, j - 1);
      assert !ClosesIn(lines, a, j - 1);
      InStepWithin(lines, a, j - 1, |lines[j - 1]|);
    }
  }

  lemma {:induction false} FirstClosingBrace(lines: seq<string>, a: nat, j: nat, n: nat) returns (i: nat)
    requires ClosesAt(lines, a, j, n)
    ensures i <= n && ClosesAt(lines, a, j, i) && forall k: nat | k < i :: !ClosesAt(lines, a, j, k)
    decreases n
  {
    hide ClosesAt;
    if k: nat :| k < n && ClosesAt(lines, a, j, k) {
      i := FirstClosingBrace(lines, a, j, k);
    } else {
      i := n;
    }
  }

  lemma SameBrace(lines: seq<string>, a: nat, j: nat, i: nat)
    requires a <= j < |lines| && OpensFirst(lines, a) && forall k | a <= k < j :: !ClosesIn(lines, a, k)
    requires forall k: nat | k < i :: !ClosesAt(lines, a, j, k)
    ensures ClosesAt(lines, a, j, i) <==> BodyEndsAt(lines, a, j, i)
  {
    hide OpensFirst, Within, NestWithin, Before, NestBefore, ClosesIn;
    InStepBefore(lines, a, j);
    if i < |lines[j]| {
      InStepWithin(lines, a, j, i);
    }
  }

  lemma SameLine(lines: seq<string>, a: nat, j: nat)
    requires a <= j < |lines| && OpensFirst(lines, a) && forall k | a <= k < j :: !ClosesIn(lines, a, k)
    ensures ClosesIn(lines, a, j) <==> BodyEndsIn(lines, a, j)
  {
    hide OpensFirst, ClosesAt, BodyEndsAt;
    if n: nat :| ClosesAt(lines, a, j, n) {
      var i := FirstClosingBrace(lines, a, j, n);
      SameBrace(lines, a, j, i);
    } else {
      forall i: nat ensures !BodyEndsAt(lines, a, j, i) {
        SameBrace(lines, a, j, i);
      }
    }
  }

  lemma NoZeroBeforeClose(lines: seq<string>, a: nat, j: nat)
    requires a <= j < |lines| && OpensFirst(lines, a) && forall k | a <= k <= j :: !ClosesIn(lines, a, k)
    ensures !ZeroAfter(lines, a, j)
  {
    hide OpensFirst, Before, ClosesIn;
    InStepBefore(lines, a, j + 1);
  }

  /** If an opening brace comes first, the scope ends where the body does. */
  lemma ScopeIsBody(lines: seq<string>, a: nat, e: nat)
    requires a <= e < |lines| && OpensFirst(lines, a) && ScanEnds(lines, a, e)
    ensures BodyEnds(lines, a, e)
  {
    hide ClosesIn, BodyEndsIn, OpensFirst, ZeroAfter, ScanEnds;
    ScopeEndsAtFirstBalance(lines, a, e);
    if Overruns(lines, a) {
      var stop, close :| a <= stop < close < |lines| - 1 && ZeroAfter(lines, a, stop)
        && forall j | a <= j < close :: !ClosesIn(lines, a, j);
      NoZeroBeforeClose(lines, a, stop);
      assert false;
    }
    forall j | a <= j < |lines| && forall k | a <= k < j :: !ClosesIn(lines, a, k)
      ensures ClosesIn(lines, a, j) <==> BodyEndsIn(lines, a, j)
    {
      SameLine(lines, a, j);
    }
  }

  // ----- exactly when that can be relied on -----------------------------------------------------------

  /** The first opening brace from line `a` on. */
  predicate FirstOpen(lines: seq<string>, a: nat, j: nat, i: nat) {
    && a <= j < |lines| && i < |lines[j]| && lines[j][i] == '{'
    && (forall k | a <= k < j :: '{' !in lines[k]) && '{' !in lines[j][..i]
  }

  predicate StrayBefore(lines: seq<string>, a: nat, j: nat, i: nat)
    requires j < |lines| && i < |lines[j]|
  {
    (exists k | a <= k < j :: '}' in lines[k]) || '}' in lines[j][..i]
  }

  /** `more` is another file with the same text up to that brace. */
  predicate SameUpTo(lines: seq<string>, more: seq<string>, j: nat, i: nat)
    requires j < |lines| && i < |lines[j]|
  {
    j < |more| && i < |more[j]| && more[..j] == lines[..j] && more[j][..i + 1] == lines[j][..i + 1]
  }

  lemma {:induction false} SawWithin(s: Scan, line: string, n: nat, k: nat)
    requires n <= |line| && (s.saw || (k < n && line[k] == '{'))
    ensures Within(s, line, n).saw
  {
    if n > 0 && (s.saw || k < n - 1) {
      SawWithin(s, line, n - 1, k);
    }
  }

  lemma SawStays(s: Scan, line: string, n: nat)
    requires n <= |line| && s.saw
    ensures Within(s, line, n).saw
  {
    SawWithin(s, line, n, 0);
  }

  lemma {:induction false} SawBefore(lines: seq<string>, a: nat, j: nat, i: nat, n: nat)
    requires a <= j < n <= |lines| && i < |lines[j]| && lines[j][i] == '{'
    ensures Before(lines, a, n).saw
    decreases n
  {
    hide Within;
    if n > j + 1 {
      SawBefore(lines, a, j, i, n - 1);
    }
    SawWithin(Before(lines, a, n - 1), lines[n - 1], |lines[n - 1]|, i);
  }

  lemma CleanOpensFirst(lines: seq<string>, a: nat, j: nat, i: nat)
    requires FirstOpen(lines, a, j, i) && !StrayBefore(lines, a, j, i)
    ensures OpensFirst(lines, a)
  {
    hide Within, Before;
    forall k | 0 <= k < i ensures lines[j][k] != '}' {
      assert lines[j][..i][k] == lines[j][k];
    }
    forall n, k | a <= n < |lines| && 0 <= k < |lines[n]| && lines[n][k] == '}'
      ensures Within(Before(lines, a, n), lines[n], k).saw
    {
      assert n >= j;
      if n == j {
        SawWithin(Before(lines, a, n), lines[n], k, i);
      } else {
        SawBefore(lines, a, j, i, n);
        SawStays(Before(lines, a, n), lines[n], k);
      }
    }
  }

  lemma SameFirstOpen(lines: seq<string>, more: seq<string>, a: nat, j: nat, i: nat)
    requires FirstOpen(lines, a, j, i) && SameUpTo(lines, more, j, i)
    ensures FirstOpen(more, a, j, i) && (StrayBefore(more, a, j, i) <==> StrayBefore(lines, a, j, i))
  {
    assert forall k | a <= k < j :: more[..j][k] == lines[..j][k];
    assert more[j][..i] == more[j][..i + 1][..i] == lines[j][..i];
    assert more[j][..i + 1][i] == lines[j][..i + 1][i];
  }

  lemma {:induction false} NoOpenWithin(s: Scan, line: string, n: nat)
    requires n <= |line| && '{' !in line[..n]
    ensures var t := Within(s, line, n); t.saw == s.saw && if '}' in line[..n] then t.depth < s.depth else t.depth == s.depth
    ensures NestWithin(0, line, n) == 0
  {
    if n > 0 {
      assert line[..n] == line[..n - 1] + [line[n - 1]];
      assert line[n - 1] in line[..n];
      NoOpenWithin(s, line, n - 1);
    }
  }

  lemma {:induction false} NoOpenBefore(lines: seq<string>, a: nat, j: nat)
    requires a <= j <= |lines| && forall k | a <= k < j :: '{' !in lines[k]
    ensures var s := Before(lines, a, j);
              !s.saw && if exists k | a <= k < j :: '}' in lines[k] then s.depth < 0 else s.depth == 0
    ensures NestBefore(lines, a, j) == 0
    decreases j
  {
    if j > a {
      hide Within, NestWithin;
      var line := lines[j - 1];
      assert line[..|line|] == line;
      NoOpenBefore(lines, a, j - 1);
      NoOpenWithin(Before(lines, a, j - 1), line, |line|);
    }
  }

  /** Where a stray brace comes first, the file that goes on with `}` and one more line defeats the
      scan: the body ends on the line before the last and the scope on the last. */
  lemma StrayDefeats(lines: seq<string>, a: nat, j: nat, i: nat)
    requires FirstOpen(lines, a, j, i) && StrayBefore(lines, a, j, i)
    requires |lines| == j + 3 && |lines[j]| == i + 1 && lines[j + 1] == "}" && lines[j + 2] == "x"
    ensures forall k :: !ClosesIn(lines, a, k)
    ensures ScanEnds(lines, a, j + 2) && BodyEnds(lines, a, j + 1) && !BodyEnds(lines, a, j + 2)
  {
    hide Before, Within, NestBefore, NestWithin;
    StrayStates(lines, a, j, i);
    forall k: nat, n: nat ensures !ClosesAt(lines, a, k, n) && (k <= j ==> !BodyEndsAt(lines, a, k, n)) {
      if a <= k < j {
        StrayLine(lines, a, k, n);
      } else if k == j {
        NoCloseInLine(lines, a, j, i, n);
      } else if a <= k < |lines| && n == 0 {
        NothingRead(Before(lines, a, k), lines[k]);
      }
    }
    NothingNested(NestBefore(lines, a, j + 1), lines[j + 1]);
    assert BodyEndsAt(lines, a, j + 1, 0);
    forall k | a <= k < j ensures !ZeroAfter(lines, a, k) {
      NoOpenBefore(lines, a, k + 1);
    }
    assert forall k | a <= k < |lines| :: !ClosesIn(lines, a, k);
    assert !ZeroAfter(lines, a, j + 1);
    StoppedEnds(lines, a, if ZeroAfter(lines, a, j) then j else j + 2);
    assert BodyEndsIn(lines, a, j + 1);
  }

  lemma StoppedEnds(lines: seq<string>, a: nat, stop: nat)
    requires a <= stop < |lines| && (stop == |lines| - 1 || ZeroAfter(lines, a, stop))
    requires forall j | a <= j <= stop :: !ClosesIn(lines, a, j)
    requires forall j | a <= j < stop :: !ZeroAfter(lines, a, j)
    ensures ScanEnds(lines, a, |lines| - 1)
  {
    hide ClosesIn;
    var zero := ZeroAfter(lines, a, stop);
    hide ZeroAfter;
  }

  lemma NothingRead(s: Scan, line: string)
    ensures Within(s, line, 0) == s
  {
  }

  lemma NothingNested(d: nat, line: string)
    ensures NestWithin(d, line, 0) == d
  {
  }

  lemma StrayLine(lines: seq<string>, a: nat, k: nat, n: nat)
    requires a <= k < |lines| && forall m | a <= m <= k :: '{' !in lines[m]
    ensures !ClosesAt(lines, a, k, n) && !BodyEndsAt(lines, a, k, n)
  {
    hide Before, Within, NestBefore, NestWithin;
    NoOpenBefore(lines, a, k);
    if n <= |lines[k]| {
      NoOpenWithin(Before(lines, a, k), lines[k], n);
    }
  }

  lemma NoCloseInLine(lines: seq<string>, a: nat, j: nat, i: nat, n: nat)
    requires FirstOpen(lines, a, j, i) && |lines[j]| == i + 1
    ensures !ClosesAt(lines, a, j, n) && !BodyEndsAt(lines, a, j, n)
  {
    hide Before, Within, NestBefore, NestWithin;
    NoOpenBefore(lines, a, j);
    if n <= i {
      assert forall m | 0 <= m < n :: lines[j][..n][m] == lines[j][..i][m];
      NoOpenWithin(Before(lines, a, j), lines[j], n);
    }
  }

  lemma StrayStates(lines: seq<string>, a: nat, j: nat, i: nat)
    requires FirstOpen(lines, a, j, i) && StrayBefore(lines, a, j, i)
    requires |lines| == j + 3 && |lines[j]| == i + 1 && lines[j + 1] == "}"
    ensures var s := Before(lines, a, j + 1);
              s.saw && s.depth <= 0 && Before(lines, a, j + 2) == Scan(s.depth - 1, true)
    ensures NestBefore(lines, a, j + 1) == 1
  {
    NoOpenBefore(lines, a, j);
    NoOpenWithin(Before(lines, a, j), lines[j], i);
    var s := Before(lines, a, j + 1);
    assert s == Feed(Within(Before(lines, a, j), lines[j], i), '{');
    assert Before(lines, a, j + 2) == Within(s, lines[j + 1], 1) == Feed(Within(s, lines[j + 1], 0), '}');
  }

  /** Given the text up to the first opening brace, the scope is the body in every file that goes
      on from there if and only if no closing brace comes before. */
  lemma ScopeIsBodyExactly(lines: seq<string>, a: nat, j: nat, i: nat)
    requires FirstOpen(lines, a, j, i)
    ensures !StrayBefore(lines, a, j, i) <==>
            forall more, e: nat | SameUpTo(lines, more, j, i) && a <= e < |more| && ScanEnds(more, a, e) :: BodyEnds(more, a, e)
  {
    assert j < |lines| && i < |lines[j]|;
    hide ScanEnds, BodyEnds, FirstOpen, StrayBefore;
    if StrayBefore(lines, a, j, i) {
      var more := Continued(lines, a, j, i);
      SameFirstOpen(lines, more, a, j, i);
      StrayDefeats(more, a, j, i);
    } else {
      forall more, e: nat | SameUpTo(lines, more, j, i) && a <= e < |more| && ScanEnds(more, a, e)
        ensures BodyEnds(more, a, e)
      {
        SameFirstOpen(lines, more, a, j, i);
        CleanOpensFirst(more, a, j, i);
        ScopeIsBody(more, a, e);
      }
    }
  }

  lemma Continued(lines: seq<string>, a: nat, j: nat, i: nat) returns (more: seq<string>)
    requires FirstOpen(lines, a, j, i)
    ensures SameUpTo(lines, more, j, i) && a <= j
    ensures |more| == j + 3 && |more[j]| == i + 1 && more[j + 1] == "}" && more[j + 2] == "x"
  {
    more := lines[..j] + [lines[j][..i + 1], "}", "x"];
    assert more[..j] == lines[..j] && more[j] == lines[j][..i + 1];
  }

  /** Such a file: after a function without braces and a stray closing brace, the scope of the
      first function runs past the end of the next one to the end of the file. */
  lemma StrayBraceOverruns() returns (lines: seq<string>)
    ensures lines == ["fun f() = 1", "}", "fun g() {", "}", "x"]
    ensures ScanEnds(lines, 0, 4) && !ScanEnds(lines, 0, 3) && BodyEnds(lines, 0, 3)
  {
    hide Before, Within, NestBefore, NestWithin;
    lines := ["fun f() = 1", "}", "fun g() {", "}", "x"];
    assert FirstOpen(lines, 0, 2, 8) by { assert '{' !in lines[0] && '{' !in lines[1] && lines[2][..8] == "fun g() "; }
    assert StrayBefore(lines, 0, 2, 8) by { assert lines[1][0] in lines[1]; }
    StrayDefeats(lines, 0, 2, 8);
  }

  /** Without any opening brace there is no body to end, and the scope is the rest of the file. */
  lemma NoBraceNoBody(lines: seq<string>, a: nat, e: nat)
    requires a <= e < |lines| && ScanEnds(lines, a, e) && forall k | a <= k < |lines| :: '{' !in lines[k]
    ensures e == |lines| - 1 && BodyEnds(lines, a, e)
  {
    hide ClosesAt, BodyEndsAt, ZeroAfter;
    forall k, n: nat | a <= k < |lines| ensures !ClosesAt(lines, a, k, n) && !BodyEndsAt(lines, a, k, n) {
      StrayLine(lines, a, k, n);
    }
    assert !ClosesIn(lines, a, e);
  }

  lemma {:induction false} SameCount(lines: seq<string>, a: nat, n: nat, j: nat)
    requires a <= n <= j <= |lines| && forall k | a <= k < n :: '{' !in lines[k] && '}' !in lines[k]
    ensures Before(lines, a, j) == Before(lines, n, j)
    decreases j
  {
    hide Within;
    if j == n {
      NoOpenBefore(lines, a, n);
      assert !exists k | a <= k < n :: '}' in lines[k];
    } else {
      SameCount(lines, a, n, j - 1);
    }
  }

  lemma SameClosings(lines: seq<string>, a: nat, n: nat, j: nat)
    requires a <= n <= |lines| && a <= j && forall k | a <= k < n :: '{' !in lines[k] && '}' !in lines[k]
    ensures ClosesIn(lines, a, j) <==> n <= j && ClosesIn(lines, n, j)
    ensures ZeroAfter(lines, a, j) <==> n <= j && ZeroAfter(lines, n, j)
  {
    hide Before, Within;
    if n <= j < |lines| {
      SameCount(lines, a, n, j);
      SameCount(lines, a, n, j + 1);
      assert forall i: nat :: ClosesAt(lines, a, j, i) <==> ClosesAt(lines, n, j, i);
    } else if j < n {
      NoOpenBefore(lines, a, j + 1);
      forall i: nat ensures !ClosesAt(lines, a, j, i) {
        StrayLine(lines, a, j, i);
      }
    }
  }

  /** A function without braces is taken together with the one after it: from its declaration the
      scan ends exactly where it ends from the next one. */
  lemma BraceFreeBodySwallows(lines: seq<string>, a: nat, n: nat, e: nat)
    requires a <= n < |lines| && forall k | a <= k < n :: '{' !in lines[k] && '}' !in lines[k]
    requires n <= e < |lines|
    ensures ScanEnds(lines, a, e) <==> ScanEnds(lines, n, e)
    ensures forall k | a <= k < n :: !ScanEnds(lines, a, k)
  {
    hide ClosesIn, ZeroAfter;
    forall j: nat | a <= j
      ensures ClosesIn(lines, a, j) <==> n <= j && ClosesIn(lines, n, j)
      ensures ZeroAfter(lines, a, j) <==> n <= j && ZeroAfter(lines, n, j)
    {
      SameClosings(lines, a, n, j);
    }
  }

  lemma NothingBefore(lines: seq<string>)
    ensures Before(lines, 0, 0) == Scan(0, false)
  {
  }

  lemma ZeroIs(lines: seq<string>, j: nat)
    ensures ZeroAfter(lines, 0, j) <==> j < |lines| && Before(lines, 0, j + 1).saw && Before(lines, 0, j + 1).depth == 0
  {
  }

  /** Reading a line whose only brace can be its last character. */
  lemma ReadsLast(lines: seq<string>, j: nat, head: string, c: char)
    requires j < |lines| && lines[j] == head + [c] && '{' !in head && '}' !in head
    ensures Before(lines, 0, j + 1) == Feed(Before(lines, 0, j), c)
    ensures ClosesIn(lines, 0, j) <==> c == '}' && Before(lines, 0, j).saw && Before(lines, 0, j).depth == 1
  {
    hide Feed;
    var s, line := Before(lines, 0, j), lines[j];
    NoOpenAt(s, line, head);
    FeedLast(s, line);
    hide Within, Before;
    if c == '}' && s.saw && s.depth == 1 {
      assert ClosesAt(lines, 0, j, |head|);
    }
  }

  lemma NoOpenAt(s: Scan, line: string, head: string)
    requires |line| == |head| + 1 && line[..|head|] == head && '{' !in head && '}' !in head
    ensures Within(s, line, |head|) == s && forall n | 0 <= n < |head| :: line[n] != '}'
  {
    hide Within, NestWithin;
    NoOpenWithin(s, line, |head|);
    forall n | 0 <= n < |head| ensures line[n] != '}' {
      assert line[n] == head[n];
    }
  }

  lemma FeedLast(s: Scan, line: string)
    requires line != ""
    ensures Within(s, line, |line|) == Feed(Within(s, line, |line| - 1), line[|line| - 1])
  {
  }

  /** The count can be zero at a line's end before the first balance: the scope runs to the end of
      the file although the braces balance on the line before it. */
  lemma ZeroLineOverruns() returns (lines: seq<string>)
    ensures lines == ["fun f() = 1", "}", "fun g() {", "fun h() {", "}", "x"]
    ensures Overruns(lines, 0) && ScanEnds(lines, 0, 5) && !FirstBalance(lines, 0, 5)
  {
    hide Before, Within, ClosesAt, ClosesIn, ZeroAfter;
    lines := ["fun f() = 1", "}", "fun g() {", "fun h() {", "}", "x"];
    NothingBefore(lines);
    ReadsLast(lines, 0, "fun f() = ", '1');
    ReadsLast(lines, 1, "", '}');
    ReadsLast(lines, 2, "fun g() ", '{');
    ReadsLast(lines, 3, "fun h() ", '{');
    ReadsLast(lines, 4, "", '}');
    ZeroIs(lines, 0);
    ZeroIs(lines, 1);
    ZeroIs(lines, 2);
    StoppedEnds(lines, 0, 2);
    ScopeEndsAtFirstBalance(lines, 0, 5);
  }
}
