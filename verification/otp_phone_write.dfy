/** `_ensure_postverification_phone_write`: put a phone write before each verified-flag write
    that does not have one close by. */
module OtpPhoneWrite {
  import opened Text

  // Cut into short pieces: the verifier reads the characters of a short literal one by one, which
  // the proofs below need, and does not do so for a long one.
  const CHILD := "child.ref." + "child(\""
  const FLAG := "isPhone" + "Verified\")" + ".setValue(true)"
  const PHONE := "phoneNumber\")" + ".setValue(" + "phoneNumber)"
  const NEEDLE := CHILD + FLAG
  const WRITE_LINE := CHILD + PHONE

  predicate IsFlagWrite(line: string) { Contains(line, NEEDLE) }

  predicate IsPhoneWrite(line: string) { Contains(line, WRITE_LINE) }

  function Inserted(line: string): string {
    Indent(line) + WRITE_LINE
  }

  /** The last four lines. */
  function Recent(out: seq<string>): seq<string> {
    if |out| <= 4 then out else out[|out| - 4..]
  }

  predicate AnyPhoneWrite(ls: seq<string>) {
    exists i | 0 <= i < |ls| :: IsPhoneWrite(ls[i])
  }

  predicate NeedsWrite(out: seq<string>, line: string) {
    IsFlagWrite(line) && !AnyPhoneWrite(Recent(out) + [line])
  }

  function Rewrite(lines: seq<string>): seq<string> {
    if lines == [] then []
    else
      var out, line := Rewrite(lines[..|lines| - 1]), lines[|lines| - 1];
      if NeedsWrite(out, line) then out + [Inserted(line), line] else out + [line]
  }

  function Ensured(content: string): string {
    JoinLike(content, Rewrite(SplitLines(content)))
  }

  // ----- a needle in joined lines -------------------------------------------------------------

  /** An occurrence of a newline-free text stays on one side of a newline. */
  lemma OccursOnOneSide(a: string, b: string, p: string, k: nat)
    requires NoNewline(p) && p != "" && OccursAt(a + "\n" + b, p, k)
    ensures OccursAt(a, p, k) || (k > |a| && OccursAt(b, p, k - |a| - 1))
  {
    var s := a + "\n" + b;
    var w := s[k..k + |p|];
    assert s[|a|] == '\n';
    forall m | k <= m < k + |p| ensures s[m] != '\n' {
      assert s[m] == w[m - k] == p[m - k];
      assert p[m - k] in p;
    }
    if k + |p| <= |a| {
      assert a[k..k + |p|] == w;
    } else if k > |a| {
      assert b[k - |a| - 1..k - |a| - 1 + |p|] == w;
    }
  }

  lemma OccursInJoin(a: string, b: string, p: string, k: nat)
    ensures OccursAt(a, p, k) ==> OccursAt(a + "\n" + b, p, k)
    ensures OccursAt(b, p, k) ==> OccursAt(a + "\n" + b, p, |a| + 1 + k)
  {
    var s := a + "\n" + b;
    if OccursAt(a, p, k) {
      assert s[k..k + |p|] == a[k..k + |p|];
    }
    if OccursAt(b, p, k) {
      assert s[|a| + 1 + k..|a| + 1 + k + |p|] == b[k..k + |p|];
    }
  }

  lemma ContainsConcat(a: string, b: string, p: string)
    requires NoNewline(p) && p != ""
    ensures Contains(a + "\n" + b, p) <==> Contains(a, p) || Contains(b, p)
  {
    hide OccursAt;
    var s := a + "\n" + b;
    if k :| 0 <= k <= |a| - |p| && OccursAt(a, p, k) {
      OccursInJoin(a, b, p, k);
    }
    if k :| 0 <= k <= |b| - |p| && OccursAt(b, p, k) {
      OccursInJoin(a, b, p, k);
    }
    if k :| 0 <= k <= |s| - |p| && OccursAt(s, p, k) {
      OccursOnOneSide(a, b, p, k);
      OccursBounds(a, p, k);
      OccursBounds(b, p, k - |a| - 1);
    }
  }

  lemma OccursBounds(s: string, p: string, k: int)
    ensures OccursAt(s, p, k) ==> 0 <= k <= |s| - |p|
  {
  }

  /** A text without newlines is in the joined lines exactly when it is in one of them. */
  lemma {:induction false} ContainsJoin(ls: seq<string>, p: string)
    requires NoNewline(p) && p != ""
    ensures Contains(Join(ls), p) <==> exists i | 0 <= i < |ls| :: Contains(ls[i], p)
  {
    hide Contains;
    if |ls| == 0 {
      assert !Contains("", p) by { NothingInNothing(p); }
    } else if |ls| == 1 {
      assert Join(ls) == ls[0];
    } else {
      ContainsJoin(ls[1..], p);
      ContainsConcat(ls[0], Join(ls[1..]), p);
      assert forall i | 0 <= i < |ls| - 1 :: ls[1..][i] == ls[i + 1];
      if i :| 0 <= i < |ls| && Contains(ls[i], p) && i > 0 {
        assert Contains(ls[1..][i - 1], p);
      }
    }
  }

  lemma NothingInNothing(p: string)
    requires p != ""
    ensures !Contains("", p)
  {
  }

  lemma ChildOneLine()
    ensures OneLine(CHILD)
  {
    OneLineConcat("child.ref.", "child(\"");
  }

  lemma PhoneOneLine()
    ensures OneLine(PHONE)
  {
    OneLineConcat("phoneNumber\")", ".setValue(");
    OneLineConcat("phoneNumber\")" + ".setValue(", "phoneNumber)");
  }

  lemma WriteLineFacts()
    ensures NoNewline(WRITE_LINE) && OneLine(WRITE_LINE) && WRITE_LINE != ""
  {
    ChildOneLine();
    PhoneOneLine();
    hide IsLineBreak;
    OneLineConcat(CHILD, PHONE);
    OneLineHasNoNewline(WRITE_LINE);
  }

  /** The rewriting loop. */
  method EnsurePhoneWrite(content: string) returns (text: string, changed: bool)
    ensures text == Ensured(content)
    ensures text == Join(Rewrite(SplitLines(content))) + if content != "" && content[|content| - 1] == '\n' then "\n" else ""
    ensures changed <==> |Rewrite(SplitLines(content))| > |SplitLines(content)|
  {
    hide IsFlagWrite, IsPhoneWrite, Inserted, Join, SplitLines, Contains;
    var lines := SplitLines(content);
    var out: seq<string> := [];
    changed := false;
    for idx := 0 to |lines|
      invariant out == Rewrite(lines[..idx])
      invariant |out| >= idx && (changed <==> |out| > idx)
    {
      var line := lines[idx];
      assert lines[..idx + 1][..idx] == lines[..idx];
      if Contains(line, NEEDLE) {
        var window := Join(Recent(out) + [line]);
        WindowCheck(out, line);
        if !Contains(window, WRITE_LINE) {
          out := out + [Inserted(line)];
          changed := true;
        }
      }
      FlagWriteIs(line);
      out := out + [line];
    }
    assert lines[..|lines|] == lines;
    text := JoinLike(content, out);
  }

  lemma FlagWriteIs(line: string)
    ensures IsFlagWrite(line) <==> Contains(line, NEEDLE)
  {
  }

  lemma WindowCheck(out: seq<string>, line: string)
    ensures Contains(Join(Recent(out) + [line]), WRITE_LINE) <==> AnyPhoneWrite(Recent(out) + [line])
  {
    hide Contains, Join;
    WriteLineFacts();
    ContainsJoin(Recent(out) + [line], WRITE_LINE);
  }

  // ----- guarded lines ---------------------------------------------------------------------------

  /** The flag write at `i` has a phone write on its own line or one of the four before it. */
  predicate GuardedAt(ls: seq<string>, i: nat)
    requires i < |ls|
  {
    IsFlagWrite(ls[i]) ==> exists j | 0 <= j <= i :: i - 4 <= j && IsPhoneWrite(ls[j])
  }

  predicate Guarded(ls: seq<string>) {
    forall i | 0 <= i < |ls| :: GuardedAt(ls, i)
  }

  lemma InsertedIsPhoneWrite(line: string)
    ensures IsPhoneWrite(Inserted(line))
  {
    var s := Inserted(line);
    var k := |Indent(line)|;
    assert s[k..k + |WRITE_LINE|] == WRITE_LINE;
    assert OccursAt(s, WRITE_LINE, k);
  }

  lemma NeedleApart(j: nat)
    requires j <= |WRITE_LINE| - |NEEDLE|
    ensures WRITE_LINE[j..j + |NEEDLE|] != NEEDLE
  {
    assert |WRITE_LINE| - |NEEDLE| == 3;
    var w, n := WRITE_LINE[j..j + |NEEDLE|], |CHILD|;
    assert CHILD[0] == 'c' && CHILD[1] == 'h' && CHILD[2] == 'i' && CHILD[3] == 'l';
    assert NEEDLE[0] == CHILD[0] && w[0] == WRITE_LINE[j] == CHILD[j];
    assert NEEDLE[n] == FLAG[0] == 'i';
    assert j == 0 ==> w[n] == WRITE_LINE[n] == PHONE[0] == 'p';
  }

  lemma InsertedIsNoFlagWrite(line: string)
    ensures !IsFlagWrite(Inserted(line))
  {
    hide LeadingSpaces, IsSpace;
    var s := Inserted(line);
    if k :| 0 <= k <= |s| - |NEEDLE| && OccursAt(s, NEEDLE, k) {
      FlagWriteNotAt(line, k);
    }
  }

  lemma NeedleStart()
    ensures NEEDLE != "" && NEEDLE[0] == 'c' && !IsSpace('c')
  {
    assert NEEDLE[0] == CHILD[0];
  }

  lemma FlagWriteNotAt(line: string, k: nat)
    ensures !OccursAt(Inserted(line), NEEDLE, k)
  {
    hide LeadingSpaces, IsSpace, Indent, NEEDLE, WRITE_LINE;
    NeedleStart();
    var s, n := Inserted(line), |Indent(line)|;
    if k + |NEEDLE| <= |s| {
      if k < n {
        IndentIsLongest(line);
        assert s[k..k + |NEEDLE|][0] == s[k] == Indent(line)[k];
      } else {
        NeedleApart(k - n);
        assert s[k..k + |NEEDLE|] == WRITE_LINE[k - n..k - n + |NEEDLE|];
      }
    }
  }

  lemma RecentWrites(out: seq<string>, line: string)
    ensures var ls := out + [line];
              AnyPhoneWrite(Recent(out) + [line]) <==> exists j | 0 <= j <= |out| :: |out| - 4 <= j && IsPhoneWrite(ls[j])
  {
    hide IsPhoneWrite;
    var ls, r := out + [line], Recent(out) + [line];
    var off := |ls| - |r|;
    assert forall i | 0 <= i < |r| :: r[i] == ls[off + i];
    if i :| 0 <= i < |r| && IsPhoneWrite(r[i]) {
      assert IsPhoneWrite(ls[off + i]);
    }
    if j :| 0 <= j <= |out| && |out| - 4 <= j && IsPhoneWrite(ls[j]) {
      assert IsPhoneWrite(r[j - off]);
    }
  }

  lemma GuardedLast(out: seq<string>, line: string)
    ensures Guarded(out + [line]) <==> Guarded(out) && !NeedsWrite(out, line)
  {
    hide IsPhoneWrite, IsFlagWrite;
    var ls := out + [line];
    RecentWrites(out, line);
    forall i | 0 <= i < |out| ensures GuardedAt(ls, i) <==> GuardedAt(out, i) {
      assert forall j | 0 <= j <= i :: ls[j] == out[j];
    }
    assert GuardedAt(ls, |out|) <==> !NeedsWrite(out, line);
  }

  /** Every flag write of the result has its phone write. */
  lemma {:induction false} RewriteIsGuarded(lines: seq<string>)
    ensures Guarded(Rewrite(lines))
    decreases lines
  {
    hide IsPhoneWrite, IsFlagWrite, Inserted, Guarded, NeedsWrite;
    if lines == [] {
      assert Guarded([]) by { NothingToGuard(); }
    } else {
      var out, line := Rewrite(lines[..|lines| - 1]), lines[|lines| - 1];
      RewriteIsGuarded(lines[..|lines| - 1]);
      if NeedsWrite(out, line) {
        InsertedSettles(out, line);
        GuardedLast(out, Inserted(line));
        GuardedLast(out + [Inserted(line)], line);
        assert out + [Inserted(line), line] == (out + [Inserted(line)]) + [line];
      } else {
        GuardedLast(out, line);
      }
    }
  }

  lemma NothingToGuard()
    ensures Guarded([])
  {
  }

  lemma InsertedSettles(out: seq<string>, line: string)
    ensures !NeedsWrite(out, Inserted(line)) && !NeedsWrite(out + [Inserted(line)], line)
  {
    hide IsPhoneWrite, IsFlagWrite, Inserted;
    InsertedIsNoFlagWrite(line);
    InsertedIsPhoneWrite(line);
    var more := out + [Inserted(line)];
    var r := Recent(more) + [line];
    assert r[|r| - 2] == Inserted(line);
  }

  /** The rewrite changes nothing exactly when every flag write is guarded already. */
  lemma {:induction false} UnchangedIffGuarded(lines: seq<string>)
    ensures Rewrite(lines) == lines <==> Guarded(lines)
    ensures |Rewrite(lines)| >= |lines| && (|Rewrite(lines)| == |lines| ==> Rewrite(lines) == lines)
    decreases lines
  {
    hide IsPhoneWrite, IsFlagWrite, Inserted, Guarded, NeedsWrite;
    if lines == [] {
      assert Guarded([]) by { NothingToGuard(); }
    } else {
      var init, line := lines[..|lines| - 1], lines[|lines| - 1];
      UnchangedIffGuarded(init);
      GuardedLast(init, line);
      assert lines == init + [line];
    }
  }

  // ----- what was inserted -----------------------------------------------------------------------

  /** One flag per line of the result: was it inserted? */
  function Marks(lines: seq<string>): seq<bool> {
    if lines == [] then []
    else
      var out, line := Rewrite(lines[..|lines| - 1]), lines[|lines| - 1];
      Marks(lines[..|lines| - 1]) + if NeedsWrite(out, line) then [true, false] else [false]
  }

  function Unmarked(ls: seq<string>, marks: seq<bool>): seq<string>
    requires |ls| == |marks|
    decreases |ls|
  {
    if ls == [] then []
    else
      var n := |ls| - 1;
      Unmarked(ls[..n], marks[..n]) + if marks[n] then [] else [ls[n]]
  }

  lemma UnmarkedLast(ls: seq<string>, marks: seq<bool>, l: string, m: bool)
    requires |ls| == |marks|
    ensures Unmarked(ls + [l], marks + [m]) == if m then Unmarked(ls, marks) else Unmarked(ls, marks) + [l]
  {
    assert (ls + [l])[..|ls|] == ls && (marks + [m])[..|marks|] == marks;
  }

  lemma NothingUnmarked()
    ensures Unmarked([], []) == []
  {
  }

  /** Each inserted line is the phone write at the indent of the flag write after it, which has no
      phone write on its line or among the four lines before the inserted one. */
  lemma {:induction false} MarkedAreInserted(lines: seq<string>, i: nat)
    requires i < |Marks(lines)| == |Rewrite(lines)| && Marks(lines)[i]
    ensures var out := Rewrite(lines);
              && i + 1 < |out| && out[i] == Indent(out[i + 1]) + WRITE_LINE && Contains(out[i + 1], NEEDLE)
              && !IsPhoneWrite(out[i + 1]) && forall j | 0 <= j < i && i - 4 <= j :: !IsPhoneWrite(out[j])
    decreases lines
  {
    hide AnyPhoneWrite, IsPhoneWrite, Contains, Indent, WRITE_LINE, NEEDLE;
    var init := lines[..|lines| - 1];
    DeletingGivesInput(init);
    if i < |Marks(init)| {
      MarkedAreInserted(init, i);
      assert forall j | 0 <= j <= i + 1 :: Rewrite(lines)[j] == Rewrite(init)[j];
    } else {
      var out, line := Rewrite(init), lines[|lines| - 1];
      RecentWrites(out, line);
      var ls := out + [line];
      assert forall j | 0 <= j < i :: Rewrite(lines)[j] == ls[j];
      assert ls[|out|] == line;
    }
  }

  /** Deleting the inserted lines gives the input back. */
  lemma {:induction false} DeletingGivesInput(lines: seq<string>)
    ensures |Marks(lines)| == |Rewrite(lines)|
    ensures Unmarked(Rewrite(lines), Marks(lines)) == lines
    decreases lines
  {
    hide NeedsWrite, Inserted, Unmarked;
    if lines == [] {
      assert Unmarked([], []) == [] by { NothingUnmarked(); }
    } else {
      var init, line := lines[..|lines| - 1], lines[|lines| - 1];
      var out, marks := Rewrite(init), Marks(init);
      DeletingGivesInput(init);
      assert lines == init + [line];
      if NeedsWrite(out, line) {
        UnmarkedLast(out, marks, Inserted(line), true);
        UnmarkedLast(out + [Inserted(line)], marks + [true], line, false);
        assert out + [Inserted(line), line] == (out + [Inserted(line)]) + [line];
        assert marks + [true, false] == (marks + [true]) + [false];
      } else {
        UnmarkedLast(out, marks, line, false);
      }
    }
  }

  // ----- the text --------------------------------------------------------------------------------------

  lemma {:induction false} RewriteOneLine(lines: seq<string>)
    requires AllOneLine(lines)
    ensures AllOneLine(Rewrite(lines))
    decreases lines
  {
    hide NeedsWrite, OneLine, Inserted;
    if lines != [] {
      var line := lines[|lines| - 1];
      RewriteOneLine(lines[..|lines| - 1]);
      assert OneLine(lines[|lines| - 1]);
      InsertedOneLine(line);
    }
  }

  lemma InsertedOneLine(line: string)
    requires OneLine(line)
    ensures OneLine(Inserted(line))
  {
    hide LeadingSpaces;
    WriteLineFacts();
    var s, n := Inserted(line), |Indent(line)|;
    forall i | 0 <= i < |s| ensures !IsLineBreak(s[i]) {
      if i >= n {
        assert s[i] == WRITE_LINE[i - n];
      }
    }
  }

  /** Splitting and rejoining a guarded rendering gives the same text. */
  lemma TextIsStable(ls: seq<string>)
    requires AllOneLine(ls) && Guarded(ls)
    ensures Ensured(Join(ls)) == Join(ls)
    ensures ls != [] ==> Ensured(Unlines(ls)) == Unlines(ls)
  {
    hide Rewrite, OneLine, Guarded, SplitLines, Unlines, Join;
    UnchangedIffGuarded(ls);
    SplitLinesJoin(ls);
    if ls == [] {
      assert Join(ls) == "" by { JoinNothing(); }
    } else {
      JoinNewline(ls);
      UnlinesEnd(ls);
      SplitUnlines(ls);
      var n := |ls| - 1;
      assert ls == ls[..n] + [ls[n]];
      if ls[n] == "" {
        GuardedLast(ls[..n], ls[n]);
        UnchangedIffGuarded(ls[..n]);
        if ls[..n] == [] {
          assert Join(ls) == "" && Join([]) == "" by { JoinNothing(); assert ls == [""]; }
        } else {
          JoinNewline(ls[..n]);
          UnlinesEnd(ls[..n]);
        }
      } else {
        JoinEnd(ls);
        LastNotNewline(ls[n]);
      }
    }
  }

  lemma {:induction false} RewriteKeepsSome(lines: seq<string>)
    requires lines != []
    ensures Rewrite(lines) != []
  {
    hide NeedsWrite, Inserted;
  }

  /** Ensuring the phone write a second time changes nothing, whatever line ends the file has. */
  lemma EnsuredIsIdempotent(content: string)
    ensures Ensured(Ensured(content)) == Ensured(content)
  {
    hide Rewrite, OneLine, Guarded, SplitLines, Unlines, Join;
    var ls := Rewrite(SplitLines(content));
    RewriteIsGuarded(SplitLines(content));
    RewriteOneLine(SplitLines(content));
    TextIsStable(ls);
    if content != "" && content[|content| - 1] == '\n' {
      EndsInLine(content);
      RewriteKeepsSome(SplitLines(content));
      JoinNewline(ls);
    }
  }
}
