/** Python's string primitives, as far as the modelled code uses them: `str.strip`,
    `str.splitlines`, `"\n".join`, and substring search. */
module Text {

  /** `str.isspace` on one character; the `\s` of a `str` regular expression is the same set. */
  predicate IsSpace(c: char) {
    var n := c as int;
    || 0x09 <= n <= 0x0D || 0x1C <= n <= 0x20 || n == 0x85 || n == 0xA0 || n == 0x1680
    || 0x2000 <= n <= 0x200A || n == 0x2028 || n == 0x2029 || n == 0x202F || n == 0x205F || n == 0x3000
  }

  /** The characters at which `str.splitlines` breaks a line. */
  predicate IsLineBreak(c: char) {
    var n := c as int;
    0x0A <= n <= 0x0D || 0x1C <= n <= 0x1E || n == 0x85 || n == 0x2028 || n == 0x2029
  }

  lemma SpaceIsSpace()
    ensures IsSpace(' ') && !IsSpace('i') && !IsSpace('{') && !IsSpace('}')
    ensures !IsSpace('-') && !IsSpace('+') && !IsSpace('@') && !IsSpace('#')
  {
  }

  predicate OneLine(s: string) {
    forall i | 0 <= i < |s| :: !IsLineBreak(s[i])
  }

  predicate AllOneLine(ls: seq<string>) {
    forall i | 0 <= i < |ls| :: OneLine(ls[i])
  }

  lemma OneLineConcat(a: string, b: string)
    requires OneLine(a) && OneLine(b)
    ensures OneLine(a + b)
  {
    hide IsLineBreak;
  }

  // ----- strip ---------------------------------------------------------------

  /** How many whitespace characters `s` starts with. */
  function LeadingSpaces(s: string): (k: nat)
    ensures k <= |s|
  {
    if s == "" || !IsSpace(s[0]) then 0 else 1 + LeadingSpaces(s[1..])
  }

  /** Where the text of `s` ends once trailing whitespace is dropped, not looking below `lo`. */
  function TextEnd(s: string, lo: nat, hi: nat): (k: nat)
    requires lo <= hi <= |s|
    ensures lo <= k <= hi
    decreases hi
  {
    if lo == hi || !IsSpace(s[hi - 1]) then hi else TextEnd(s, lo, hi - 1)
  }

  function Trim(s: string): string {
    var lo := LeadingSpaces(s);
    s[lo..TextEnd(s, lo, |s|)]
  }

  predicate Trimmed(s: string) {
    s == "" || (!IsSpace(s[0]) && !IsSpace(s[|s| - 1]))
  }

  lemma {:induction false} LeadingSpacesEnd(s: string)
    ensures LeadingSpaces(s) < |s| ==> !IsSpace(s[LeadingSpaces(s)])
  {
    if s != "" && IsSpace(s[0]) {
      LeadingSpacesEnd(s[1..]);
    }
  }

  lemma {:induction false} TextEndIsText(s: string, lo: nat, hi: nat)
    requires lo <= hi <= |s|
    ensures TextEnd(s, lo, hi) > lo ==> !IsSpace(s[TextEnd(s, lo, hi) - 1])
    ensures lo < hi && !IsSpace(s[lo]) ==> TextEnd(s, lo, hi) > lo
    decreases hi
  {
    if !(lo == hi || !IsSpace(s[hi - 1])) {
      TextEndIsText(s, lo, hi - 1);
    }
  }

  predicate AllSpaces(s: string) {
    forall i | 0 <= i < |s| :: IsSpace(s[i])
  }

  lemma {:induction false} LeadingSpacesAreSpaces(s: string)
    ensures AllSpaces(s[..LeadingSpaces(s)])
  {
    hide IsSpace;
    if s != "" && IsSpace(s[0]) {
      LeadingSpacesAreSpaces(s[1..]);
      assert s[..LeadingSpaces(s)] == [s[0]] + s[1..][..LeadingSpaces(s[1..])];
    }
  }

  lemma {:induction false} PastTextAreSpaces(s: string, lo: nat, hi: nat)
    requires lo <= hi <= |s|
    ensures AllSpaces(s[TextEnd(s, lo, hi)..hi])
    decreases hi
  {
    hide IsSpace;
    if !(lo == hi || !IsSpace(s[hi - 1])) {
      PastTextAreSpaces(s, lo, hi - 1);
      assert s[TextEnd(s, lo, hi)..hi] == s[TextEnd(s, lo, hi)..hi - 1] + [s[hi - 1]];
    }
  }

  lemma {:induction false} LeadingSpacesIs(s: string, n: nat)
    requires n <= |s| && (forall i | 0 <= i < n :: IsSpace(s[i])) && (n < |s| ==> !IsSpace(s[n]))
    ensures LeadingSpaces(s) == n
  {
    hide IsSpace;
    if n > 0 {
      assert n < |s| ==> s[1..][n - 1] == s[n];
      assert forall i | 0 <= i < n - 1 :: s[1..][i] == s[i + 1];
      LeadingSpacesIs(s[1..], n - 1);
    }
  }

  lemma {:induction false} TextEndIs(s: string, lo: nat, hi: nat, n: nat)
    requires lo <= n <= hi <= |s| && (forall i | n <= i < hi :: IsSpace(s[i])) && (n > lo ==> !IsSpace(s[n - 1]))
    ensures TextEnd(s, lo, hi) == n
    decreases hi
  {
    hide IsSpace;
    if n < hi {
      TextEndIs(s, lo, hi - 1, n);
    }
  }

  /** `strip` takes off all whitespace at either end and nothing else. */
  lemma TrimExactly(s: string, t: string)
    ensures Trim(s) == t <==> Trimmed(t) && exists a, b :: AllSpaces(a) && AllSpaces(b) && s == a + t + b
  {
    hide IsSpace, LeadingSpaces, TextEnd, AllSpaces, Trimmed;
    if Trim(s) == t {
      var lo := LeadingSpaces(s);
      var hi := TextEnd(s, lo, |s|);
      TrimIsTrimmed(s);
      LeadingSpacesAreSpaces(s);
      PastTextAreSpaces(s, lo, |s|);
      assert s == s[..lo] + t + s[hi..|s|];
    }
    if a, b :| Trimmed(t) && AllSpaces(a) && AllSpaces(b) && s == a + t + b {
      TrimBetween(a, t, b);
    }
  }

  lemma TrimBetween(a: string, t: string, b: string)
    requires AllSpaces(a) && Trimmed(t) && AllSpaces(b)
    ensures Trim(a + t + b) == t
  {
    hide IsSpace, LeadingSpaces, TextEnd;
    var s := a + t + b;
    assert forall i | 0 <= i < |a| :: s[i] == a[i];
    assert forall i | |a| + |t| <= i < |s| :: s[i] == b[i - |a| - |t|];
    if t == "" {
      LeadingSpacesIs(s, |s|);
      TextEndIs(s, |s|, |s|, |s|);
    } else {
      assert s[|a|] == t[0] && s[|a| + |t| - 1] == t[|t| - 1];
      LeadingSpacesIs(s, |a|);
      TextEndIs(s, |a|, |s|, |a| + |t|);
      assert s[|a|..|a| + |t|] == t;
    }
  }

  lemma TrimNothing(s: string)
    requires AllSpaces(s)
    ensures Trim(s) == ""
  {
    hide IsSpace, LeadingSpaces, TextEnd, Trim;
    assert s == s + "" + "";
    TrimBetween(s, "", "");
  }

  lemma TrimIsTrimmed(s: string)
    ensures Trimmed(Trim(s))
  {
    LeadingSpacesEnd(s);
    TextEndIsText(s, LeadingSpaces(s), |s|);
  }

  lemma TrimOfTrimmed(s: string)
    requires Trimmed(s)
    ensures Trim(s) == s
  {
    if s != "" {
      assert LeadingSpaces(s) == 0;
      assert TextEnd(s, 0, |s|) == |s|;
    }
  }

  lemma TrimPadded(s: string)
    requires s != "" && Trimmed(s)
    ensures Trim(" " + s) == s
  {
    var p := " " + s;
    assert p[1..] == s && p[0] == ' ';
    assert LeadingSpaces(p) == 1 + LeadingSpaces(s) == 1;
    assert p[|p| - 1] == s[|s| - 1];
    assert TextEnd(p, 1, |p|) == |p|;
  }

  lemma TrimOneLine(s: string)
    requires OneLine(s)
    ensures OneLine(Trim(s))
  {
    var lo := LeadingSpaces(s);
    var t := Trim(s);
    assert forall i | 0 <= i < |t| :: t[i] == s[lo + i];
  }

  /** `re.match(r"\s*", line).group(0)`. */
  function Indent(line: string): string {
    line[..LeadingSpaces(line)]
  }

  /** The indent is the longest prefix of whitespace. */
  lemma {:induction false} IndentIsLongest(line: string)
    ensures forall i | 0 <= i < |Indent(line)| :: IsSpace(Indent(line)[i])
    ensures |Indent(line)| < |line| ==> !IsSpace(line[|Indent(line)|])
  {
    if line != "" && IsSpace(line[0]) {
      IndentIsLongest(line[1..]);
      var rest := line[1..];
      assert forall i | 0 < i < |Indent(line)| :: Indent(line)[i] == Indent(rest)[i - 1];
    }
  }

  // ----- splitlines ----------------------------------------------------------

  function BreakAt(s: string): (k: nat)
    ensures k <= |s|
    ensures forall i | 0 <= i < k :: !IsLineBreak(s[i])
    ensures k < |s| ==> IsLineBreak(s[k])
  {
    if s == "" || IsLineBreak(s[0]) then 0 else 1 + BreakAt(s[1..])
  }

  /** `str.splitlines()`: `\r\n` is one break, and a final break starts no further line. */
  function SplitLines(s: string): (ls: seq<string>)
    ensures AllOneLine(ls)
    decreases |s|
  {
    if s == "" then []
    else
      var k := BreakAt(s);
      if k == |s| then [s]
      else
        var w := if s[k] == '\r' && k + 1 < |s| && s[k + 1] == '\n' then 2 else 1;
        [s[..k]] + SplitLines(s[k + w..])
  }

  /** The first line ends at `k`, its line end `w` characters later. */
  lemma SplitLinesFirst(s: string) returns (k: nat, w: nat)
    requires s != ""
    ensures k <= |s| && (k == |s| ==> SplitLines(s) == [s])
    ensures k < |s| ==> 0 < w <= 2 && k + w <= |s| && IsLineBreak(s[k]) && (w == 2 ==> s[k + 1] == '\n')
    ensures k < |s| ==> SplitLines(s) == [s[..k]] + SplitLines(s[k + w..])
  {
    hide IsLineBreak, OneLine, AllOneLine, BreakAt;
    k := BreakAt(s);
    w := if k + 1 < |s| && s[k] == '\r' && s[k + 1] == '\n' then 2 else 1;
  }

  /** Every line followed by a newline. */
  function Unlines(ls: seq<string>): string {
    if ls == [] then "" else ls[0] + "\n" + Unlines(ls[1..])
  }

  lemma BreakAtFirstNewline(l: string, rest: string)
    requires OneLine(l)
    ensures BreakAt(l + "\n" + rest) == |l|
  {
    var s := l + "\n" + rest;
    assert forall i | 0 <= i < |l| :: s[i] == l[i];
    assert s[|l|] == '\n';
    assert !(BreakAt(s) < |l|);
  }

  /** A line ends at any line break, and `\r\n` is one. */
  lemma SplitLinesAtBreak(l: string, c: char, rest: string)
    requires OneLine(l) && IsLineBreak(c)
    ensures SplitLines(l + "\r\n" + rest) == [l] + SplitLines(rest)
    ensures !(c == '\r' && rest != "" && rest[0] == '\n') ==> SplitLines(l + [c] + rest) == [l] + SplitLines(rest)
  {
    assert IsLineBreak('\r');
    hide IsLineBreak;
    BreakAtFirst(l, "\r\n" + rest);
    BreakAtFirst(l, [c] + rest);
    var s, t := l + "\r\n" + rest, l + [c] + rest;
    assert s == l + ("\r\n" + rest) && t == l + ([c] + rest);
    assert s[|l|] == '\r' && s[|l| + 1] == '\n' && s[..|l|] == l && s[|l| + 2..] == rest;
    assert t[|l|] == c && t[..|l|] == l && t[|l| + 1..] == rest;
    assert |t| > |l| + 1 ==> t[|l| + 1] == rest[0];
  }

  lemma BreakAtFirst(l: string, rest: string)
    requires OneLine(l) && rest != "" && IsLineBreak(rest[0])
    ensures BreakAt(l + rest) == |l|
  {
    hide IsLineBreak;
    var s := l + rest;
    assert forall i | 0 <= i < |l| :: s[i] == l[i];
    assert s[|l|] == rest[0];
  }

  lemma SplitLinesStep(l: string, rest: string)
    requires OneLine(l)
    ensures SplitLines(l + "\n" + rest) == [l] + SplitLines(rest)
  {
    BreakAtFirstNewline(l, rest);
    var s := l + "\n" + rest;
    assert s[|l|] == '\n';
    assert s[..|l|] == l;
    assert s[|l| + 1..] == rest;
  }

  lemma SplitLinesOne(l: string)
    requires OneLine(l)
    ensures SplitLines(l) == if l == "" then [] else [l]
  {
    assert BreakAt(l) == |l|;
  }

  /** `splitlines` recovers the lines of a newline-terminated text. */
  lemma {:induction false} SplitUnlines(ls: seq<string>)
    requires AllOneLine(ls)
    ensures SplitLines(Unlines(ls)) == ls
  {
    if ls != [] {
      SplitLinesStep(ls[0], Unlines(ls[1..]));
      SplitUnlines(ls[1..]);
      assert ls == [ls[0]] + ls[1..];
    }
  }

  // ----- "\n".join and split("\n") ---------------------------------------------

  function Join(ls: seq<string>): string {
    if ls == [] then ""
    else if |ls| == 1 then ls[0]
    else ls[0] + "\n" + Join(ls[1..])
  }

  predicate NoNewline(s: string) {
    '\n' !in s
  }

  lemma OneLineHasNoNewline(l: string)
    requires OneLine(l)
    ensures NoNewline(l)
  {
    forall i | 0 <= i < |l| ensures l[i] != '\n' {
      assert !IsLineBreak(l[i]);
    }
  }

  lemma JoinNothing()
    ensures Join([]) == "" && Join([""]) == ""
  {
  }

  function SplitNewline(s: string): (ls: seq<string>)
    ensures ls != []
    ensures forall i | 0 <= i < |ls| :: NoNewline(ls[i])
  {
    if s == "" then [""]
    else
      var rest := SplitNewline(s[1..]);
      if s[0] == '\n' then [""] + rest else [[s[0]] + rest[0]] + rest[1..]
  }

  lemma JoinCons(l: string, ls: seq<string>)
    requires ls != []
    ensures Join([l] + ls) == l + "\n" + Join(ls)
  {
    assert ([l] + ls)[1..] == ls;
  }

  lemma JoinPrepend(c: char, ls: seq<string>)
    requires ls != []
    ensures Join([[c] + ls[0]] + ls[1..]) == [c] + Join(ls)
  {
    if |ls| > 1 {
      JoinCons([c] + ls[0], ls[1..]);
      JoinCons(ls[0], ls[1..]);
      hide Join;
      assert ls == [ls[0]] + ls[1..];
    }
  }

  lemma {:induction false} JoinSplitNewline(s: string)
    ensures Join(SplitNewline(s)) == s
  {
    if s == "" {
      JoinNothing();
    } else {
      hide Join;
      JoinSplitNewline(s[1..]);
      var rest := SplitNewline(s[1..]);
      JoinCons("", rest);
      JoinPrepend(s[0], rest);
      assert s == [s[0]] + s[1..];
    }
  }

  lemma {:induction false} SplitNewlineOne(l: string)
    requires NoNewline(l)
    ensures SplitNewline(l) == [l]
  {
    if l != "" {
      SplitNewlineOne(l[1..]);
      assert l == [l[0]] + l[1..];
    }
  }

  lemma {:induction false} SplitNewlineStep(l: string, rest: string)
    requires NoNewline(l)
    ensures SplitNewline(l + "\n" + rest) == [l] + SplitNewline(rest)
  {
    var s := l + "\n" + rest;
    if l == "" {
      assert s[1..] == rest;
    } else {
      SplitNewlineStep(l[1..], rest);
      assert s[1..] == l[1..] + "\n" + rest;
      assert l == [l[0]] + l[1..];
    }
  }

  lemma {:induction false} SplitNewlineJoin(ls: seq<string>)
    requires ls != []
    requires forall i | 0 <= i < |ls| :: NoNewline(ls[i])
    ensures SplitNewline(Join(ls)) == ls
  {
    if |ls| == 1 {
      SplitNewlineOne(ls[0]);
    } else {
      SplitNewlineStep(ls[0], Join(ls[1..]));
      SplitNewlineJoin(ls[1..]);
      assert ls == [ls[0]] + ls[1..];
    }
  }

  function DropEmptyLast(ls: seq<string>): seq<string> {
    if ls != [] && ls[|ls| - 1] == "" then ls[..|ls| - 1] else ls
  }

  lemma DropEmptyLastCons(l: string, ls: seq<string>)
    requires ls != []
    ensures DropEmptyLast([l] + ls) == [l] + DropEmptyLast(ls)
  {
    var all := [l] + ls;
    assert all[|all| - 1] == ls[|ls| - 1];
    assert all[..|all| - 1] == [l] + ls[..|ls| - 1];
  }

  lemma SplitLinesJoinStep(l: string, ls: seq<string>)
    requires ls != [] && OneLine(l)
    ensures SplitLines(Join([l] + ls)) == [l] + SplitLines(Join(ls))
  {
    JoinCons(l, ls);
    SplitLinesStep(l, Join(ls));
  }

  /** `splitlines` undoes `"\n".join`, except that it drops one empty last line. */
  lemma {:induction false} SplitLinesJoin(ls: seq<string>)
    requires AllOneLine(ls)
    ensures SplitLines(Join(ls)) == DropEmptyLast(ls)
  {
    if |ls| == 1 {
      SplitLinesOne(ls[0]);
    } else if ls == [] {
      SplitLinesOne("");
    } else {
      hide SplitLines, OneLine, Join, DropEmptyLast;
      var l, rest := ls[0], ls[1..];
      assert ls == [l] + rest;
      SplitLinesJoin(rest);
      SplitLinesJoinStep(l, rest);
      DropEmptyLastCons(l, rest);
    }
  }

  // ----- the text of a file's lines ---------------------------------------------

  predicate EndsLine(s: string) {
    s != "" && s[|s| - 1] == '\n'
  }

  /** `_join_like`: the lines joined, with a final newline if the original text has one. */
  function JoinLike(original: string, lines: seq<string>): string {
    if EndsLine(original) then Join(lines) + "\n" else Join(lines)
  }

  lemma {:induction false} JoinNewline(ls: seq<string>)
    requires ls != []
    ensures Join(ls) + "\n" == Unlines(ls)
    ensures Join(ls + [""]) == Unlines(ls)
  {
    if |ls| == 1 {
      assert ls[1..] == [];
      assert (ls + [""])[1..] == [""];
    } else {
      JoinNewline(ls[1..]);
      assert (ls + [""])[1..] == ls[1..] + [""];
    }
  }

  lemma {:induction false} JoinEnd(ls: seq<string>)
    requires ls != [] && ls[|ls| - 1] != ""
    ensures Join(ls) != "" && Join(ls)[|Join(ls)| - 1] == ls[|ls| - 1][|ls[|ls| - 1]| - 1]
  {
    if |ls| > 1 {
      JoinEnd(ls[1..]);
    }
  }

  lemma LastNotNewline(l: string)
    requires OneLine(l) && l != ""
    ensures l[|l| - 1] != '\n'
  {
    assert !IsLineBreak(l[|l| - 1]);
  }

  lemma {:induction false} UnlinesEnd(ls: seq<string>)
    requires ls != []
    ensures Unlines(ls) != "" && Unlines(ls)[|Unlines(ls)| - 1] == '\n'
  {
    if |ls| > 1 {
      UnlinesEnd(ls[1..]);
    }
  }

  lemma EndsInLine(content: string)
    requires content != ""
    ensures SplitLines(content) != []
  {
  }

  /** Rendered with a final newline, the lines are read back, and other lines give another text. */
  lemma UnlinesText(ls: seq<string>, xs: seq<string>)
    requires ls != [] && xs != [] && AllOneLine(ls) && AllOneLine(xs)
    ensures SplitLines(Unlines(ls)) == ls
    ensures JoinLike(Unlines(ls), xs) == Unlines(ls) <==> xs == ls
  {
    hide Join, Unlines, SplitLines, OneLine;
    UnlinesEnd(ls);
    JoinNewline(xs);
    SplitUnlines(ls);
    SplitUnlines(xs);
  }

  /** The same for lines joined without one, if the last is not empty. */
  lemma JoinedText(ls: seq<string>, xs: seq<string>)
    requires ls != [] && xs != [] && AllOneLine(ls) && AllOneLine(xs) && ls[|ls| - 1] != ""
    ensures SplitLines(Join(ls)) == ls
    ensures JoinLike(Join(ls), xs) == Join(ls) <==> xs == ls
  {
    hide Join, SplitLines, OneLine, SplitNewline;
    SplitLinesJoin(ls);
    JoinEnd(ls);
    assert OneLine(ls[|ls| - 1]);
    LastNotNewline(ls[|ls| - 1]);
    JoinInjective(ls, xs);
  }

  lemma JoinInjective(ls: seq<string>, xs: seq<string>)
    requires ls != [] && xs != [] && AllOneLine(ls) && AllOneLine(xs)
    ensures Join(xs) == Join(ls) <==> xs == ls
  {
    hide Join, OneLine, SplitNewline, NoNewline;
    forall i | 0 <= i < |ls| ensures NoNewline(ls[i]) {
      OneLineHasNoNewline(ls[i]);
    }
    forall i | 0 <= i < |xs| ensures NoNewline(xs[i]) {
      OneLineHasNoNewline(xs[i]);
    }
    SplitNewlineJoin(ls);
    SplitNewlineJoin(xs);
  }

  // ----- substrings ------------------------------------------------------------

  predicate OccursAt(s: string, p: string, k: int) {
    0 <= k <= |s| - |p| && s[k..k + |p|] == p
  }

  predicate Contains(s: string, p: string) {
    exists k | 0 <= k <= |s| - |p| :: OccursAt(s, p, k)
  }
}
