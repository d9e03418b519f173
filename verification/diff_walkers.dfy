/** The diff walkers of `acceptance_check.py` over the lines of a diff. */
module DiffWalkers {
  import opened Options
  import opened Text

  predicate StartsWith(s: string, p: string) {
    |p| <= |s| && s[..|p|] == p
  }

  // ----- file headers ---------------------------------------------------------------------

  const HEADER := "diff --git a/"
  const SPLIT := " b/"

  predicate SplitHere(s: string, k: nat) {
    k + 3 <= |s| && s[k..k + 3] == SPLIT
  }

  /** The least split point at or after `k` with text behind it, or `|rest|`. */
  function SplitAt(rest: string, k: nat): (r: nat)
    requires k <= |rest|
    ensures k <= r <= |rest| && (r < |rest| ==> r + 3 < |rest|)
    decreases |rest| - k
  {
    if k + 3 >= |rest| then |rest|
    else if SplitHere(rest, k) then k
    else SplitAt(rest, k + 1)
  }

  lemma {:induction false} SplitAtIs(rest: string, k: nat, r: nat)
    requires k <= r && r + 3 < |rest|
    ensures SplitAt(rest, k) == r <==> SplitHere(rest, r) && forall i | k <= i < r :: !SplitHere(rest, i)
    ensures SplitHere(rest, r) ==> SplitAt(rest, k) <= r
    decreases |rest| - k
  {
    if k < r && !SplitHere(rest, k) {
      SplitAtIs(rest, k + 1, r);
    }
  }

  /** Group 2 of `^diff --git a/(.+?) b/(.+?)$`, when the line matches. */
  function HeaderPath(line: string): Option<string> {
    if !StartsWith(line, HEADER) || |line| == |HEADER| then None
    else
      var rest := line[|HEADER|..];
      var k := SplitAt(rest, 1);
      if k == |rest| then None else Some(rest[k + 3..])
  }

  /** The header `aider_blocks_to_unified_diff` prints for a path. */
  function PrintedHeader(path: string): string {
    HEADER + path + SPLIT + path
  }

  predicate NoInnerSplit(path: string) {
    forall k | 1 <= k < |path| :: !SplitHere(path, k)
  }

  lemma NoSplitAcrossEnd(path: string, rest: string, i: nat)
    requires rest == path + SPLIT + path && NoInnerSplit(path) && 1 <= i < |path|
    ensures !SplitHere(rest, i)
  {
    if i + 3 <= |path| {
      assert !SplitHere(path, i);
      assert rest[i..i + 3] == path[i..i + 3];
    } else {
      assert rest[|path|] == ' ';
      assert rest[i..i + 3][|path| - i] == rest[|path|];
      assert SPLIT[1] == 'b' && SPLIT[2] == '/';
    }
  }

  lemma SplitRest(path: string, rest: string)
    requires path != "" && rest == path + SPLIT + path
    ensures SplitAt(rest, 1) == |path| <==> NoInnerSplit(path)
    ensures SplitAt(rest, 1) <= |path|
  {
    assert rest[|path|..|path| + 3] == SPLIT;
    assert SplitHere(rest, |path|);
    SplitAtIs(rest, 1, |path|);
    if NoInnerSplit(path) {
      forall i | 1 <= i < |path| ensures !SplitHere(rest, i) {
        NoSplitAcrossEnd(path, rest, i);
      }
    } else {
      var k :| 1 <= k < |path| && SplitHere(path, k);
      assert rest[k..k + 3] == path[k..k + 3];
      SplitAtIs(rest, 1, k);
    }
  }

  lemma HeaderLineRoundTrip(path: string)
    ensures HeaderPath(PrintedHeader(path)) == Some(path) <==> path != "" && NoInnerSplit(path)
  {
    var line, rest := PrintedHeader(path), path + SPLIT + path;
    assert line == HEADER + rest;
    assert line[..|HEADER|] == HEADER && line[|HEADER|..] == rest;
    if path == "" {
      assert SplitAt(rest, 1) == |rest|;
    } else {
      SplitRest(path, rest);
      assert rest[|path| + 3..] == path;
    }
  }

  // ----- hunk headers ----------------------------------------------------------------------------

  predicate IsDigit(c: char) { '0' <= c <= '9' }

  function SkipSpaces(s: string, i: nat): (k: nat)
    requires i <= |s|
    ensures i <= k <= |s|
    decreases |s| - i
  {
    if i < |s| && IsSpace(s[i]) then SkipSpaces(s, i + 1) else i
  }

  function SkipDigits(s: string, i: nat): (k: nat)
    requires i <= |s|
    ensures i <= k <= |s|
    decreases |s| - i
  {
    if i < |s| && IsDigit(s[i]) then SkipDigits(s, i + 1) else i
  }

  function Number(s: string): nat {
    if s == "" || !IsDigit(s[|s| - 1]) then 0 else 10 * Number(s[..|s| - 1]) + (s[|s| - 1] as int - '0' as int)
  }

  /** Past an optional `,123`. */
  function SkipCount(s: string, i: nat): (k: nat)
    requires i <= |s|
    ensures i <= k <= |s|
  {
    if i < |s| && s[i] == ',' && SkipDigits(s, i + 1) > i + 1 then SkipDigits(s, i + 1) else i
  }

  /** Past spaces, a sign, a number and an optional count: the bounds of the number, if so. */
  function Range(s: string, i: nat, sign: char): Option<(nat, nat, nat)>
    requires i <= |s|
  {
    var a := SkipSpaces(s, i);
    if a == i || a == |s| || s[a] != sign then None
    else
      var b := SkipDigits(s, a + 1);
      if b == a + 1 then None else Some((a + 1, b, SkipCount(s, b)))
  }

  lemma RangeBounds(s: string, i: nat, sign: char)
    requires i <= |s| && Range(s, i, sign).Some?
    ensures var (a, b, c) := Range(s, i, sign).value; i < a < b <= c <= |s|
  {
  }

  /** Group 3 of `^@@\s+-(\d+)(?:,(\d+))?\s+\+(\d+)(?:,(\d+))?\s+@@`, when the line matches. */
  function HunkStart(line: string): Option<nat> {
    if !StartsWith(line, "@@") || Range(line, 2, '-').None? then None
    else
      var old_ := Range(line, 2, '-').value;
      RangeBounds(line, 2, '-');
      var new_ := Range(line, old_.2, '+');
      if new_.None? then None
      else
        RangeBounds(line, old_.2, '+');
        var end := SkipSpaces(line, new_.value.2);
        if end > new_.value.2 && StartsWith(line[end..], "@@") then Some(Number(line[new_.value.0..new_.value.1])) else None
  }

  // ----- printed hunk headers ------------------------------------------------------------------

  function Decimal(n: nat): (s: string)
    ensures s != "" && AllDigits(s)
  {
    var d := ('0' as int + n % 10) as char;
    if n < 10 then [d] else Decimal(n / 10) + [d]
  }

  predicate AllDigits(s: string) {
    forall i | 0 <= i < |s| :: IsDigit(s[i])
  }

  lemma {:induction false} NumberOfDecimal(n: nat)
    ensures Number(Decimal(n)) == n
  {
    if n >= 10 {
      NumberOfDecimal(n / 10);
      var s := Decimal(n);
      assert s[..|s| - 1] == Decimal(n / 10);
    }
  }

  /** A range as a unified diff prints it: the start and, unless it is one, the length. */
  function PrintedRange(start: nat, length: nat): string {
    if length == 1 then Decimal(start) else Decimal(start) + "," + Decimal(length)
  }

  function PrintedHunk(oldStart: nat, oldLength: nat, newStart: nat, newLength: nat, rest: string): string {
    "@@ -" + PrintedRange(oldStart, oldLength) + " +" + PrintedRange(newStart, newLength) + " @@" + rest
  }

  lemma {:induction false} SkipDigitsTo(s: string, i: nat, n: nat)
    requires i <= n <= |s| && (forall k | i <= k < n :: IsDigit(s[k])) && (n < |s| ==> !IsDigit(s[n]))
    ensures SkipDigits(s, i) == n
    decreases n - i
  {
    if i < n {
      SkipDigitsTo(s, i + 1, n);
    }
  }

  predicate PlacedAt(s: string, i: nat, w: string) {
    i + |w| <= |s| && s[i..i + |w|] == w
  }

  lemma PlacedConcat(s: string, i: nat, a: string, b: string)
    requires PlacedAt(s, i, a + b)
    ensures PlacedAt(s, i, a) && PlacedAt(s, i + |a|, b)
  {
    var w := s[i..i + |a + b|];
    assert s[i..i + |a|] == w[..|a|];
    assert s[i + |a|..i + |a| + |b|] == w[|a|..];
  }

  lemma PlacedDigits(s: string, i: nat, ds: string)
    requires PlacedAt(s, i, ds) && AllDigits(ds) && (i + |ds| < |s| ==> !IsDigit(s[i + |ds|]))
    ensures SkipDigits(s, i) == i + |ds|
  {
    hide IsDigit;
    assert forall k | i <= k < i + |ds| :: s[k] == ds[k - i];
    SkipDigitsTo(s, i, i + |ds|);
  }

  lemma CountLayout(s: string, k: nat, x: string, y: string)
    requires PlacedAt(s, k, x + "," + y)
    ensures PlacedAt(s, k, x) && k + |x| < |s| && s[k + |x|] == ',' && PlacedAt(s, k + |x| + 1, y)
  {
    PlacedConcat(s, k, x + ",", y);
    PlacedConcat(s, k, x, ",");
    assert s[k + |x|..k + |x| + 1][0] == s[k + |x|];
  }

  lemma SeparatorsAreNoDigits()
    ensures !IsDigit(',') && !IsDigit(' ')
  {
  }

  lemma PrintedRangeEnds(s: string, k: nat, start: nat, length: nat)
    requires PlacedAt(s, k, PrintedRange(start, length))
    requires var e := k + |PrintedRange(start, length)|; e < |s| && s[e] == ' '
    ensures var d := k + |Decimal(start)|;
              d <= |s| && SkipDigits(s, k) == d && SkipCount(s, d) == k + |PrintedRange(start, length)|
  {
    hide Decimal, SkipDigits, AllDigits, IsDigit, PlacedAt;
    SeparatorsAreNoDigits();
    if length == 1 {
      PlacedDigits(s, k, Decimal(start));
    } else {
      CountLayout(s, k, Decimal(start), Decimal(length));
      PlacedDigits(s, k, Decimal(start));
      PlacedDigits(s, k + |Decimal(start)| + 1, Decimal(length));
    }
  }

  /** A printed range after one space and a sign is read as its start. */
  lemma RangeIsRead(s: string, i: nat, sign: char, start: nat, length: nat)
    requires i < |s| && s[i] == ' ' && i + 1 < |s| && s[i + 1] == sign && !IsSpace(sign)
    requires PlacedAt(s, i + 2, PrintedRange(start, length))
    requires var e := i + 2 + |PrintedRange(start, length)|; e < |s| && s[e] == ' '
    ensures var e := i + 2 + |PrintedRange(start, length)|;
              Range(s, i, sign) == Some((i + 2, i + 2 + |Decimal(start)|, e))
  {
    hide IsSpace, Decimal, PrintedRange, SkipDigits, SkipCount, PlacedAt;
    SpaceIsSpace();
    assert SkipSpaces(s, i + 1) == i + 1;
    assert SkipSpaces(s, i) == i + 1;
    PrintedRangeEnds(s, i + 2, start, length);
  }

  lemma RangeStartsWithNumber(s: string, i: nat, start: nat, length: nat)
    requires PlacedAt(s, i, PrintedRange(start, length))
    ensures PlacedAt(s, i, Decimal(start))
  {
    hide Decimal;
    if length != 1 {
      PlacedConcat(s, i, Decimal(start) + ",", Decimal(length));
      PlacedConcat(s, i, Decimal(start), ",");
    }
  }

  lemma HunkLayout(line: string, a: string, b: string, rest: string)
    requires line == "@@ -" + a + " +" + b + " @@" + rest
    ensures PlacedAt(line, 0, "@@ -") && PlacedAt(line, 4, a) && PlacedAt(line, 4 + |a|, " +")
    ensures PlacedAt(line, 6 + |a|, b) && PlacedAt(line, 6 + |a| + |b|, " @@")
  {
    hide PlacedAt;
    assert PlacedAt(line, 0, line) by { PlacedWhole(line); }
    PlacedConcat(line, 0, "@@ -" + a + " +" + b + " @@", rest);
    PlacedConcat(line, 0, "@@ -" + a + " +" + b, " @@");
    PlacedConcat(line, 0, "@@ -" + a + " +", b);
    PlacedConcat(line, 0, "@@ -" + a, " +");
    PlacedConcat(line, 0, "@@ -", a);
  }

  lemma PlacedWhole(s: string)
    ensures PlacedAt(s, 0, s)
  {
    assert s[0..|s|] == s;
  }

  lemma OneSpace(s: string, i: nat)
    requires i + 1 < |s| && s[i] == ' ' && !IsSpace(s[i + 1])
    ensures SkipSpaces(s, i) == i + 1
  {
    hide IsSpace;
    SpaceIsSpace();
    assert SkipSpaces(s, i + 1) == i + 1;
  }

  /** The hunk walker reads the new-file start line of every hunk header a unified diff prints. */
  lemma HunkHeaderRoundTrip(oldStart: nat, oldLength: nat, newStart: nat, newLength: nat, rest: string)
    ensures HunkStart(PrintedHunk(oldStart, oldLength, newStart, newLength, rest)) == Some(newStart)
  {
    hide IsSpace, PrintedRange, Decimal, Number, Range, SkipSpaces, PlacedAt;
    var line := PrintedHunk(oldStart, oldLength, newStart, newLength, rest);
    var a, b := PrintedRange(oldStart, oldLength), PrintedRange(newStart, newLength);
    HunkLayout(line, a, b, rest);
    var p := 4 + |a|;
    var q := p + 2 + |b|;
    PlacedChars(line, p, q);
    SpaceIsSpace();
    RangeIsRead(line, 2, '-', oldStart, oldLength);
    RangeIsRead(line, p, '+', newStart, newLength);
    RangeStartsWithNumber(line, p + 2, newStart, newLength);
    PlacedIs(line, p + 2, Decimal(newStart));
    NumberOfDecimal(newStart);
    OneSpace(line, q);
    assert line[q + 1..][..2] == "@@";
  }

  lemma PlacedIs(s: string, i: nat, w: string)
    requires PlacedAt(s, i, w)
    ensures i + |w| <= |s| && s[i..i + |w|] == w
  {
  }

  lemma PlacedChars(line: string, p: nat, q: nat)
    requires PlacedAt(line, 0, "@@ -") && PlacedAt(line, p, " +") && PlacedAt(line, q, " @@")
    ensures q + 3 <= |line| && p + 2 <= |line| && 4 <= |line|
    ensures StartsWith(line, "@@") && line[2] == ' ' && line[3] == '-'
    ensures line[p] == ' ' && line[p + 1] == '+'
    ensures line[q] == ' ' && line[q + 1] == '@' && line[q + 2] == '@'
  {
    assert line[0..4][0] == line[0] && line[0..4][1] == line[1] && line[0..4][2] == line[2] && line[0..4][3] == line[3];
    assert line[p..p + 2][0] == line[p] && line[p..p + 2][1] == line[p + 1];
    assert line[q..q + 3][0] == line[q] && line[q..q + 3][1] == line[q + 1] && line[q..q + 3][2] == line[q + 2];
  }

  // ----- kinds of lines ---------------------------------------------------------------------------

  predicate IsAdded(line: string) {
    StartsWith(line, "+") && !StartsWith(line, "+++")
  }

  /** A line starts with one of `d`, `@` and `+`, so it is at most one of the three kinds. */
  lemma KindsApart(line: string)
    ensures IsAdded(line) ==> line != ""
    ensures IsAdded(line) ==> HeaderPath(line).None? && HunkStart(line).None? && !StartsWith(line, "---")
    ensures HeaderPath(line).Some? ==> HunkStart(line).None?
    ensures !IsAdded(line) && StartsWith(line, "+") ==> StartsWith(line, "+++")
  {
    assert HEADER[0] == 'd' && "@@"[0] == '@' && "+"[0] == '+' && "---"[0] == '-';
    assert StartsWith(line, HEADER) ==> line[..|HEADER|][0] == line[0];
    assert StartsWith(line, "@@") ==> line[..2][0] == line[0];
    assert StartsWith(line, "+") ==> line[..1][0] == line[0];
    assert StartsWith(line, "---") ==> line[..3][0] == line[0];
  }

  // ----- the added-line walker ------------------------------------------------------------------------

  /** The file a position belongs to: the path of the last file header before it. */
  function PathAt(lines: seq<string>): Option<string> {
    if lines == [] then None
    else
      var p := HeaderPath(lines[|lines| - 1]);
      if p.Some? then p else PathAt(lines[..|lines| - 1])
  }

  lemma SliceOneLine(s: string, a: nat)
    requires OneLine(s) && a <= |s|
    ensures OneLine(s[a..])
  {
    hide IsLineBreak;
    assert forall i | 0 <= i < |s| - a :: s[a..][i] == s[a + i];
  }

  lemma HeaderPathOneLine(line: string)
    requires OneLine(line) && HeaderPath(line).Some?
    ensures OneLine(HeaderPath(line).value)
  {
    hide OneLine;
    var rest := line[|HEADER|..];
    SliceOneLine(line, |HEADER|);
    SliceOneLine(rest, SplitAt(rest, 1) + 3);
  }

  lemma {:induction false} PathAtOneLine(lines: seq<string>)
    requires AllOneLine(lines)
    ensures PathAt(lines).Some? ==> OneLine(PathAt(lines).value)
    decreases lines
  {
    hide HeaderPath, OneLine;
    if lines != [] {
      var line := lines[|lines| - 1];
      PathAtOneLine(lines[..|lines| - 1]);
      if HeaderPath(line).Some? {
        HeaderPathOneLine(line);
      }
    }
  }

  lemma PrintedHeaderOneLine(path: string)
    requires OneLine(path)
    ensures OneLine(PrintedHeader(path))
  {
    OneLineConcat(HEADER, path);
    OneLineConcat(HEADER + path, SPLIT);
    OneLineConcat(HEADER + path + SPLIT, path);
  }

  lemma PathAtOne(line: string)
    ensures PathAt([line]) == HeaderPath(line)
  {
    hide HeaderPath;
    assert [line][..0] == [];
  }

  /** The walkers, which read a diff line by line, read a printed header back to its path exactly
      when the path is not empty, fits on one line and does not contain " b/" past its first
      character. */
  lemma HeaderRoundTrip(path: string)
    ensures PathAt(SplitLines(PrintedHeader(path) + "\n")) == Some(path) <==>
            path != "" && OneLine(path) && NoInnerSplit(path)
  {
    hide HeaderPath, PrintedHeader, SplitLines, PathAt, OneLine, NoInnerSplit;
    var line := PrintedHeader(path);
    PathAtOneLine(SplitLines(line + "\n"));
    if OneLine(path) {
      PrintedHeaderOneLine(path);
      SplitLinesStep(line, "");
      assert line + "\n" + "" == line + "\n";
      EmptyOneLine();
      SplitLinesOne("");
      assert [line] + [] == [line];
      PathAtOne(line);
      HeaderLineRoundTrip(path);
    }
  }

  lemma EmptyOneLine()
    ensures OneLine("")
  {
  }

  function Added(lines: seq<string>): seq<(string, string)> {
    if lines == [] then []
    else
      var init, line := lines[..|lines| - 1], lines[|lines| - 1];
      Added(init) + if IsAdded(line) && PathAt(init).Some? then [(PathAt(init).value, line[1..])] else []
  }

  /** `_iter_added_lines`. */
  method IterAddedLines(lines: seq<string>) returns (out: seq<(string, string)>)
    ensures out == Added(lines)
  {
    hide HeaderPath, HunkStart;
    out := [];
    var currentPath: Option<string> := None;
    for i := 0 to |lines|
      invariant currentPath == PathAt(lines[..i]) && out == Added(lines[..i])
    {
      var raw := lines[i];
      assert lines[..i + 1][..i] == lines[..i];
      KindsApart(raw);
      var header := HeaderPath(raw);
      if header.Some? {
        currentPath := header;
        continue;
      }
      if currentPath.None? {
        continue;
      }
      if StartsWith(raw, "+++") {
        continue;
      }
      if StartsWith(raw, "+") {
        out := out + [(currentPath.value, raw[1..])];
      }
    }
    assert lines[..|lines|] == lines;
  }

  // ----- the hunk walker ---------------------------------------------------------------------------------

  /** A hunk, its added text kept as lines. */
  datatype Hunk = Hunk(path: string, start: nat, added: seq<string>) {
    function Text(): string { Join(added) }
  }

  datatype Walk = Walk(out: seq<Hunk>, path: Option<string>, start: nat, added: Option<seq<string>>)

  function Flushed(w: Walk): seq<Hunk> {
    if w.path.Some? && w.added.Some? then w.out + [Hunk(w.path.value, w.start, w.added.value)] else w.out
  }

  function Advance(w: Walk, raw: string): Walk {
    if HeaderPath(raw).Some? then Walk(Flushed(w), HeaderPath(raw), w.start, None)
    else if w.path.None? then w
    else if HunkStart(raw).Some? then Walk(Flushed(w), w.path, HunkStart(raw).value, Some([]))
    else if w.added.None? || !IsAdded(raw) then w
    else w.(added := Some(w.added.value + [raw[1..]]))
  }

  function WalkOver(lines: seq<string>): Walk {
    if lines == [] then Walk([], None, 1, None) else Advance(WalkOver(lines[..|lines| - 1]), lines[|lines| - 1])
  }

  function Hunks(lines: seq<string>): seq<Hunk> {
    Flushed(WalkOver(lines))
  }

  /** `_iter_diff_hunks`. */
  method IterDiffHunks(lines: seq<string>) returns (out: seq<Hunk>)
    ensures out == Hunks(lines)
  {
    hide HeaderPath, HunkStart;
    out := [];
    var currentPath: Option<string>, currentStart: nat, added: Option<seq<string>> := None, 1, None;
    for i := 0 to |lines|
      invariant WalkOver(lines[..i]) == Walk(out, currentPath, currentStart, added)
    {
      var raw := lines[i];
      assert lines[..i + 1][..i] == lines[..i];
      KindsApart(raw);
      var header := HeaderPath(raw);
      if header.Some? {
        if currentPath.Some? && added.Some? {
          out := out + [Hunk(currentPath.value, currentStart, added.value)];
        }
        currentPath, added := header, None;
        continue;
      }
      if currentPath.None? {
        continue;
      }
      var hunk := HunkStart(raw);
      if hunk.Some? {
        if added.Some? {
          out := out + [Hunk(currentPath.value, currentStart, added.value)];
        }
        currentStart, added := hunk.value, Some([]);
        continue;
      }
      if added.None? {
        continue;
      }
      if StartsWith(raw, "+++") || StartsWith(raw, "---") {
        continue;
      }
      if StartsWith(raw, "+") {
        added := Some(added.value + [raw[1..]]);
      }
    }
    assert lines[..|lines|] == lines;
    if currentPath.Some? && added.Some? {
      out := out + [Hunk(currentPath.value, currentStart, added.value)];
    }
  }

  // ----- the walkers agree -------------------------------------------------------------------------------------

  function Tagged(path: string, ls: seq<string>): seq<(string, string)> {
    if ls == [] then [] else Tagged(path, ls[..|ls| - 1]) + [(path, ls[|ls| - 1])]
  }

  function Flatten(hs: seq<Hunk>): seq<(string, string)> {
    if hs == [] then [] else Flatten(hs[..|hs| - 1]) + Tagged(hs[|hs| - 1].path, hs[|hs| - 1].added)
  }

  /** The position lies after a hunk header of its file. */
  predicate InHunk(lines: seq<string>) {
    lines != [] &&
    var init, line := lines[..|lines| - 1], lines[|lines| - 1];
    HeaderPath(line).None? && (InHunk(init) || (HunkStart(line).Some? && PathAt(init).Some?))
  }

  /** An added line between a file header and the first hunk header. */
  predicate Stray(lines: seq<string>, i: nat) {
    i < |lines| && IsAdded(lines[i]) && PathAt(lines[..i]).Some? && !InHunk(lines[..i])
  }

  lemma FlattenLast(hs: seq<Hunk>, h: Hunk)
    ensures Flatten(hs + [h]) == Flatten(hs) + Tagged(h.path, h.added)
  {
    assert (hs + [h])[..|hs|] == hs;
  }

  lemma TaggedLast(path: string, ls: seq<string>, l: string)
    ensures Tagged(path, ls + [l]) == Tagged(path, ls) + [(path, l)]
  {
    assert (ls + [l])[..|ls|] == ls;
  }

  /** What one more line adds to the flattened hunks. */
  lemma AdvanceFlattens(w: Walk, raw: string)
    ensures var v := Advance(w, raw);
              Flatten(Flushed(v)) == Flatten(Flushed(w)) +
                if IsAdded(raw) && w.path.Some? && w.added.Some? then [(w.path.value, raw[1..])] else []
  {
    hide HeaderPath, HunkStart, IsAdded, Flatten, Tagged;
    KindsApart(raw);
    if w.path.Some? {
      var p := w.path.value;
      if w.added.Some? {
        FlattenLast(w.out, Hunk(p, w.start, w.added.value));
        if IsAdded(raw) {
          FlattenLast(w.out, Hunk(p, w.start, w.added.value + [raw[1..]]));
          TaggedLast(p, w.added.value, raw[1..]);
        }
      }
      if HunkStart(raw).Some? {
        FlattenLast(Flushed(w), Hunk(p, HunkStart(raw).value, []));
        assert Tagged(p, []) == [] by { TaggedNothing(p); }
      }
    }
  }

  lemma TaggedNothing(path: string)
    ensures Tagged(path, []) == []
  {
  }

  lemma {:induction false} WalkTracks(lines: seq<string>)
    ensures WalkOver(lines).path == PathAt(lines)
    ensures WalkOver(lines).added.Some? <==> InHunk(lines)
    ensures InHunk(lines) ==> PathAt(lines).Some?
    decreases |lines|
  {
    hide HeaderPath, HunkStart, IsAdded;
    if lines != [] {
      KindsApart(lines[|lines| - 1]);
      WalkTracks(lines[..|lines| - 1]);
    }
  }

  /** The flattened hunks fall short of the added lines by the stray ones. */
  lemma {:induction false} HunksMissStrays(lines: seq<string>)
    ensures |Flatten(Hunks(lines))| <= |Added(lines)|
    ensures (forall i: nat :: !Stray(lines, i)) ==> Flatten(Hunks(lines)) == Added(lines)
    ensures (exists i: nat :: Stray(lines, i)) ==> |Flatten(Hunks(lines))| < |Added(lines)|
    decreases |lines|
  {
    hide HeaderPath, HunkStart, IsAdded, Flushed, Flatten, Advance, InHunk, PathAt;
    if lines == [] {
      assert Flatten(Hunks([])) == [] by { NoHunks(); }
    } else {
      var n := |lines| - 1;
      HunksMissStrays(lines[..n]);
      WalkTracks(lines[..n]);
      KindsApart(lines[n]);
      AdvanceFlattens(WalkOver(lines[..n]), lines[n]);
      forall i: nat ensures Stray(lines[..n], i) <==> i < n && Stray(lines, i) {
        if i < n {
          assert lines[..n][..i] == lines[..i];
        }
      }
      assert Stray(lines, n) <==> IsAdded(lines[n]) && PathAt(lines[..n]).Some? && !InHunk(lines[..n]);
      assert forall i: nat | i > n :: !Stray(lines, i);
    }
  }

  lemma NoHunks()
    ensures Flatten(Hunks([])) == []
  {
  }

  /** Flattening the hunk walker gives the added-line walker's sequence exactly when no added
      line stands between a file header and its first hunk header. */
  lemma WalkersAgree(lines: seq<string>)
    ensures Flatten(Hunks(lines)) == Added(lines) <==> forall i: nat :: !Stray(lines, i)
  {
    hide Stray, Hunks, Flatten, Added;
    HunksMissStrays(lines);
  }
}
