/** What the diff walkers find: which lines are headers, hunk headers and added lines, said of their
    characters, and that both walkers read back what a printed diff adds. */
module DiffWalkerLaws {
  import opened Options
  import opened Text
  import opened DiffWalkers

  // ----- kinds of lines, character by character ----------------------------------------------

  /** An added line starts with one or two plus signs, but not with three. */
  lemma AddedExactly(line: string)
    ensures IsAdded(line) <==> line != "" && line[0] == '+' && !(|line| >= 3 && line[1] == '+' && line[2] == '+')
  {
    assert line != "" ==> (line[..1] == "+" <==> line[0] == '+');
    if |line| >= 3 {
      assert line[..3] == [line[0], line[1], line[2]];
    }
  }

  /** A file header names the path behind the first " b/" that leaves text on either side. */
  lemma HeaderPathExactly(line: string, path: string)
    ensures HeaderPath(line) == Some(path) <==>
            exists q ::
              && q != "" && path != "" && line == "diff --git a/" + q + " b/" + path
              && forall k | 1 <= k < |q| :: !SplitHere(q + " b/" + path, k)
  {
    hide StartsWith, SplitHere, SplitAt, HEADER;
    HeaderText();
    if q :| q != "" && path != "" && line == HEADER + q + " b/" + path && forall k | 1 <= k < |q| :: !SplitHere(q + " b/" + path, k) {
      HeaderIsRead(q, path);
    }
    if HeaderPath(line) == Some(path) {
      var q := ReadIsHeader(line, path);
    }
  }

  lemma HeaderText()
    ensures HEADER == "diff --git a/" && SPLIT == " b/"
  {
  }

  lemma HeaderIsRead(q: string, path: string)
    requires q != "" && path != "" && forall k | 1 <= k < |q| :: !SplitHere(q + SPLIT + path, k)
    ensures HeaderPath(HEADER + q + SPLIT + path) == Some(path)
  {
    var line, rest := HEADER + q + SPLIT + path, q + SPLIT + path;
    assert line[..|HEADER|] == HEADER && line[|HEADER|..] == rest;
    assert rest[|q|..|q| + 3] == SPLIT;
    SplitAtIs(rest, 1, |q|);
    assert rest[|q| + 3..] == path;
  }

  lemma ReadIsHeader(line: string, path: string) returns (q: string)
    requires HeaderPath(line) == Some(path)
    ensures q != "" && path != "" && line == HEADER + q + SPLIT + path && forall k | 1 <= k < |q| :: !SplitHere(q + SPLIT + path, k)
  {
    var rest := line[|HEADER|..];
    var k := SplitAt(rest, 1);
    q := rest[..k];
    SplitAtIs(rest, 1, k);
    assert rest == q + SPLIT + path;
    assert line == HEADER + rest;
  }

  // ----- hunk headers ---------------------------------------------------------------------------

  predicate SpacesIn(s: string, i: nat, k: nat)
  {
    i < k <= |s| && forall j | i <= j < k :: IsSpace(s[j])
  }

  predicate DigitsIn(s: string, i: nat, k: nat)
  {
    i < k <= |s| && forall j | i <= j < k :: IsDigit(s[j])
  }

  /** Nothing, or a comma and digits. */
  predicate CountIn(s: string, i: nat, k: nat) {
    i == k || (i < |s| && s[i] == ',' && DigitsIn(s, i + 1, k))
  }

  /** From `i` on: whitespace, the sign at `a`, digits up to `b`, perhaps a count up to `c`. */
  predicate RangeIn(s: string, i: nat, sign: char, a: nat, b: nat, c: nat) {
    SpacesIn(s, i, a) && a < |s| && s[a] == sign && DigitsIn(s, a + 1, b) && CountIn(s, b, c)
  }

  datatype Cuts = Cuts(oldSign: nat, oldEnd: nat, oldCount: nat, newSign: nat, newEnd: nat, newCount: nat, close: nat)

  /** `@@`, a range with `-`, a range with `+`, whitespace and `@@`. */
  predicate IsHunkHeader(line: string, x: Cuts) {
    && |line| >= 2 && line[0] == '@' && line[1] == '@'
    && RangeIn(line, 2, '-', x.oldSign, x.oldEnd, x.oldCount)
    && RangeIn(line, x.oldCount, '+', x.newSign, x.newEnd, x.newCount)
    && SpacesIn(line, x.newCount, x.close)
    && x.close + 2 <= |line| && line[x.close] == '@' && line[x.close + 1] == '@'
  }

  lemma {:induction false} SkipSpacesTo(s: string, i: nat, k: nat)
    requires i <= k <= |s| && (forall j | i <= j < k :: IsSpace(s[j])) && (k < |s| ==> !IsSpace(s[k]))
    ensures SkipSpaces(s, i) == k
    decreases k - i
  {
    hide IsSpace;
    if i < k {
      SkipSpacesTo(s, i + 1, k);
    }
  }

  lemma {:induction false} SkippedSpaces(s: string, i: nat)
    requires i <= |s|
    ensures forall j | i <= j < SkipSpaces(s, i) :: IsSpace(s[j])
    decreases |s| - i
  {
    hide IsSpace;
    if i < |s| && IsSpace(s[i]) {
      SkippedSpaces(s, i + 1);
    }
  }

  lemma {:induction false} SkippedDigits(s: string, i: nat)
    requires i <= |s|
    ensures forall j | i <= j < SkipDigits(s, i) :: IsDigit(s[j])
    decreases |s| - i
  {
    hide IsDigit;
    if i < |s| && IsDigit(s[i]) {
      SkippedDigits(s, i + 1);
    }
  }

  lemma SpacesAreNotDigits(c: char)
    ensures IsSpace(c) ==> !IsDigit(c) && c != ','
  {
  }

  lemma RangeRead(s: string, i: nat, sign: char, a: nat, b: nat, c: nat)
    requires RangeIn(s, i, sign, a, b, c) && !IsSpace(sign) && c < |s| && IsSpace(s[c])
    ensures i <= |s| && Range(s, i, sign) == Some((a + 1, b, c))
  {
    hide IsSpace, IsDigit;
    SpacesAreNotDigits(s[c]);
    SeparatorsAreNoDigits();
    SkipSpacesTo(s, i, a);
    SkipDigitsTo(s, a + 1, b);
    if b < c {
      SkipDigitsTo(s, b + 1, c);
    }
  }

  lemma ReadRange(s: string, i: nat, sign: char)
    requires i <= |s| && Range(s, i, sign).Some?
    ensures var (d, b, c) := Range(s, i, sign).value; d > 0 && RangeIn(s, i, sign, d - 1, b, c)
  {
    hide IsSpace, IsDigit;
    var a := SkipSpaces(s, i);
    SkippedSpaces(s, i);
    SkippedDigits(s, a + 1);
    var b := SkipDigits(s, a + 1);
    if b < |s| && s[b] == ',' {
      SkippedDigits(s, b + 1);
    }
  }

  lemma HunkHeaderIsRead(line: string, x: Cuts)
    requires IsHunkHeader(line, x)
    ensures x.newSign + 1 < x.newEnd <= |line| && HunkStart(line) == Some(Number(line[x.newSign + 1..x.newEnd]))
  {
    hide IsSpace, IsDigit, Number, Range, RangeIn;
    SpaceIsSpace();
    assert x.newSign + 1 < x.newEnd <= |line| && SpacesIn(line, x.oldCount, x.newSign) by { RangeBoundsIn(line, x.oldCount, '+', x.newSign, x.newEnd, x.newCount); }
    RangeRead(line, 2, '-', x.oldSign, x.oldEnd, x.oldCount);
    RangeRead(line, x.oldCount, '+', x.newSign, x.newEnd, x.newCount);
    SkipSpacesTo(line, x.newCount, x.close);
    assert line[..2] == "@@";
    assert line[x.close..][..2] == "@@";
  }

  lemma RangeBoundsIn(s: string, i: nat, sign: char, a: nat, b: nat, c: nat)
    requires RangeIn(s, i, sign, a, b, c)
    ensures SpacesIn(s, i, a) && a + 1 < b <= |s|
  {
  }

  lemma ReadIsHunkHeader(line: string) returns (x: Cuts)
    requires HunkStart(line).Some?
    ensures IsHunkHeader(line, x)
  {
    hide IsSpace, IsDigit, Number, Range, RangeIn;
    var o := Range(line, 2, '-').value;
    RangeBounds(line, 2, '-');
    ReadRange(line, 2, '-');
    var n := Range(line, o.2, '+').value;
    RangeBounds(line, o.2, '+');
    ReadRange(line, o.2, '+');
    var close := SkipSpaces(line, n.2);
    SkippedSpaces(line, n.2);
    assert line[..2][0] == line[0] && line[..2][1] == line[1];
    assert line[close..][..2][0] == line[close] && line[close..][..2][1] == line[close + 1];
    x := Cuts(o.0 - 1, o.1, o.2, n.0 - 1, n.1, n.2, close);
  }

  /** A hunk header is the regular expression's, and its start is the number behind the plus sign. */
  lemma HunkStartExactly(line: string, n: nat)
    ensures HunkStart(line) == Some(n) <==>
            exists x: Cuts :: IsHunkHeader(line, x) && x.newSign + 1 < x.newEnd <= |line| && n == Number(line[x.newSign + 1..x.newEnd])
  {
    hide HunkStart, IsHunkHeader, Number;
    if x: Cuts :| IsHunkHeader(line, x) && x.newSign + 1 < x.newEnd <= |line| && n == Number(line[x.newSign + 1..x.newEnd]) {
      HunkHeaderIsRead(line, x);
    }
    if HunkStart(line) == Some(n) {
      var x := ReadIsHunkHeader(line);
      HunkHeaderIsRead(line, x);
    }
  }

  // ----- a printed diff ------------------------------------------------------------------------------

  datatype Piece = Context(text: string) | Removed(text: string) | Inserted(text: string)

  datatype HunkOf = HunkOf(oldStart: nat, oldLength: nat, start: nat, length: nat, tail: string, pieces: seq<Piece>)

  /** One file of a diff; the names behind `---` and `+++` may be anything. */
  datatype FileOf = FileOf(path: string, from: string, to: string, hunks: seq<HunkOf>)

  function PieceLine(p: Piece): string {
    (match p case Context(_) => " " case Removed(_) => "-" case Inserted(_) => "+") + p.text
  }

  function PieceLines(ps: seq<Piece>): seq<string> {
    if ps == [] then [] else PieceLines(ps[..|ps| - 1]) + [PieceLine(ps[|ps| - 1])]
  }

  function HunkLines(h: HunkOf): seq<string> {
    [PrintedHunk(h.oldStart, h.oldLength, h.start, h.length, h.tail)] + PieceLines(h.pieces)
  }

  function HunksLines(hs: seq<HunkOf>): seq<string> {
    if hs == [] then [] else HunksLines(hs[..|hs| - 1]) + HunkLines(hs[|hs| - 1])
  }

  function FileLines(d: FileOf): seq<string> {
    [PrintedHeader(d.path), "--- " + d.from, "+++ " + d.to] + HunksLines(d.hunks)
  }

  function DiffLines(ds: seq<FileOf>): seq<string> {
    if ds == [] then [] else DiffLines(ds[..|ds| - 1]) + FileLines(ds[|ds| - 1])
  }

  /** An insertion whose line starts with three plus signs. */
  predicate LooksLikeHeader(p: Piece) {
    p.Inserted? && StartsWith(p.text, "++")
  }

  /** The inserted texts: all of them, or those whose lines do not look like a `+++` line. */
  function Texts(ps: seq<Piece>, all: bool): seq<string> {
    if ps == [] then []
    else
      var p := ps[|ps| - 1];
      Texts(ps[..|ps| - 1], all) + if p.Inserted? && (all || !LooksLikeHeader(p)) then [p.text] else []
  }

  function FileHunks(path: string, hs: seq<HunkOf>, all: bool): seq<Hunk> {
    if hs == [] then []
    else
      var h := hs[|hs| - 1];
      FileHunks(path, hs[..|hs| - 1], all) + [Hunk(path, h.start, Texts(h.pieces, all))]
  }

  function DiffHunks(ds: seq<FileOf>, all: bool): seq<Hunk> {
    if ds == [] then []
    else DiffHunks(ds[..|ds| - 1], all) + FileHunks(ds[|ds| - 1].path, ds[|ds| - 1].hunks, all)
  }

  predicate Readable(ds: seq<FileOf>) {
    forall i | 0 <= i < |ds| :: ds[i].path != "" && NoInnerSplit(ds[i].path)
  }

  // ----- reading it ------------------------------------------------------------------------------------

  lemma ReadLine(lines: seq<string>, raw: string)
    ensures Added(lines + [raw]) == Added(lines) + if IsAdded(raw) && PathAt(lines).Some? then [(PathAt(lines).value, raw[1..])] else []
    ensures PathAt(lines + [raw]) == if HeaderPath(raw).Some? then HeaderPath(raw) else PathAt(lines)
    ensures WalkOver(lines + [raw]) == Advance(WalkOver(lines), raw)
  {
    hide HeaderPath, Advance, IsAdded;
    assert (lines + [raw])[..|lines|] == lines;
    AddedNotEmpty(raw);
  }

  lemma AddedNotEmpty(raw: string)
    ensures IsAdded(raw) ==> raw != ""
  {
    AddedExactly(raw);
  }

  lemma PieceIs(p: Piece)
    ensures var l := PieceLine(p);
              && HeaderPath(l).None? && HunkStart(l).None? && l[1..] == p.text
              && (IsAdded(l) <==> p.Inserted? && !LooksLikeHeader(p))
  {
    var l := PieceLine(p);
    AddedExactly(l);
    assert l != "" && (l[0] == ' ' || l[0] == '-' || l[0] == '+');
    assert |p.text| >= 2 ==> p.text[..2] == [l[1], l[2]];
    NoHeaderStart(l);
  }

  lemma NoHeaderStart(l: string)
    requires l != "" && l[0] != 'd' && l[0] != '@'
    ensures HeaderPath(l).None? && HunkStart(l).None?
  {
    assert HEADER[0] == 'd' && "@@"[0] == '@';
    hide HEADER, StartsWith;
    FirstCharacter(l, HEADER);
    FirstCharacter(l, "@@");
  }

  lemma FirstCharacter(l: string, p: string)
    requires l != "" && p != ""
    ensures StartsWith(l, p) ==> l[0] == p[0]
  {
    if StartsWith(l, p) {
      assert l[..|p|][0] == l[0];
    }
  }

  /** After `lines` the walkers are at `path`; the hunk walker has `w`, the other one its pairs. */
  predicate At(lines: seq<string>, path: string, added: seq<(string, string)>, w: Walk) {
    PathAt(lines) == Some(path) && w.path == Some(path) && Added(lines) == added && WalkOver(lines) == w
  }

  lemma {:induction false} PiecesRead(lines: seq<string>, path: string, added: seq<(string, string)>, w: Walk, ps: seq<Piece>)
    requires At(lines, path, added, w) && w.added.Some?
    ensures At(lines + PieceLines(ps), path, added + Tagged(path, Texts(ps, false)), w.(added := Some(w.added.value + Texts(ps, false))))
    decreases ps
  {
    hide PathAt, Added, WalkOver, HeaderPath, HunkStart, IsAdded, Tagged, LooksLikeHeader, PieceLine;
    if ps == [] {
      TaggedNothing(path);
      assert lines + PieceLines(ps) == lines && added + Tagged(path, Texts(ps, false)) == added;
      assert w.added.value + Texts(ps, false) == w.added.value;
    } else {
      var n := |ps| - 1;
      var before := lines + PieceLines(ps[..n]);
      PiecesRead(lines, path, added, w, ps[..n]);
      PieceIs(ps[n]);
      ReadLine(before, PieceLine(ps[n]));
      var texts, text := Texts(ps[..n], false), ps[n].text;
      TaggedLast(path, texts, text);
      assert lines + PieceLines(ps) == before + [PieceLine(ps[n])];
      SameTail(added, Tagged(path, texts), (path, text));
      SameTail(w.added.value, texts, text);
      if IsAdded(PieceLine(ps[n])) {
        assert Texts(ps, false) == texts + [text];
      } else {
        assert Texts(ps, false) == texts;
        assert Added(before + [PieceLine(ps[n])]) == Added(before);
      }
    }
  }

  lemma SameTail<T>(a: seq<T>, b: seq<T>, x: T)
    ensures a + (b + [x]) == (a + b) + [x] && a + (b + []) == a + b && (a + b) + [] == a + b
  {
  }

  lemma HunkIsRead(lines: seq<string>, path: string, added: seq<(string, string)>, w: Walk, h: HunkOf)
    requires At(lines, path, added, w)
    ensures At(lines + HunkLines(h), path, added + Tagged(path, Texts(h.pieces, false)),
               Walk(Flushed(w), Some(path), h.start, Some(Texts(h.pieces, false))))
  {
    hide PathAt, Added, WalkOver, HeaderPath, HunkStart, IsAdded, Tagged, PieceLines, Texts, PrintedHunk, Flushed;
    var line := PrintedHunk(h.oldStart, h.oldLength, h.start, h.length, h.tail);
    HunkHeaderRoundTrip(h.oldStart, h.oldLength, h.start, h.length, h.tail);
    KindsApart(line);
    ReadLine(lines, line);
    var opened_ := Walk(Flushed(w), Some(path), h.start, Some([]));
    assert added + [] == added;
    PiecesRead(lines + [line], path, added, opened_, h.pieces);
    assert lines + HunkLines(h) == lines + [line] + PieceLines(h.pieces);
    assert [] + Texts(h.pieces, false) == Texts(h.pieces, false);
  }

  lemma FlushedHunk(w: Walk, path: string, start: nat, texts: seq<string>)
    ensures Flushed(Walk(Flushed(w), Some(path), start, Some(texts))) == Flushed(w) + [Hunk(path, start, texts)]
  {
  }

  lemma {:induction false} HunksAreRead(lines: seq<string>, path: string, added: seq<(string, string)>, w: Walk, hs: seq<HunkOf>) returns (v: Walk)
    requires At(lines, path, added, w)
    ensures At(lines + HunksLines(hs), path, added + Flatten(FileHunks(path, hs, false)), v)
    ensures Flushed(v) == Flushed(w) + FileHunks(path, hs, false)
    decreases hs
  {
    hide At, HunkLines, Flatten, Flushed, Texts, Tagged;
    if hs == [] {
      v := w;
      FlattenNothing();
      assert lines + [] == lines && added + [] == added && Flushed(w) + [] == Flushed(w);
    } else {
      var n := |hs| - 1;
      var before := HunksAreRead(lines, path, added, w, hs[..n]);
      var h, so := hs[n], added + Flatten(FileHunks(path, hs[..n], false));
      HunkIsRead(lines + HunksLines(hs[..n]), path, so, before, h);
      v := Walk(Flushed(before), Some(path), h.start, Some(Texts(h.pieces, false)));
      FlushedHunk(before, path, h.start, Texts(h.pieces, false));
      FlattenLast(FileHunks(path, hs[..n], false), Hunk(path, h.start, Texts(h.pieces, false)));
      assert lines + HunksLines(hs) == lines + HunksLines(hs[..n]) + HunkLines(h);
      assert so + Tagged(path, Texts(h.pieces, false)) == added + (Flatten(FileHunks(path, hs[..n], false)) + Tagged(path, Texts(h.pieces, false)));
    }
  }

  lemma FlattenNothing()
    ensures Flatten([]) == []
  {
  }

  lemma {:induction false} FlattenConcat(a: seq<Hunk>, b: seq<Hunk>)
    ensures Flatten(a + b) == Flatten(a) + Flatten(b)
    decreases b
  {
    hide Tagged, Flatten;
    if b == [] {
      FlattenNothing();
      assert a + [] == a && Flatten(a) + [] == Flatten(a);
    } else {
      var n := |b| - 1;
      FlattenConcat(a, b[..n]);
      assert a + b == (a + b[..n]) + [b[n]];
      FlattenLast(a + b[..n], b[n]);
      assert b == b[..n] + [b[n]];
      FlattenLast(b[..n], b[n]);
    }
  }

  lemma FileHeaderIsRead(lines: seq<string>, d: FileOf)
    requires d.path != "" && NoInnerSplit(d.path)
    ensures At(lines + [PrintedHeader(d.path), "--- " + d.from, "+++ " + d.to], d.path, Added(lines),
               Walk(Flushed(WalkOver(lines)), Some(d.path), WalkOver(lines).start, None))
  {
    hide PathAt, Added, WalkOver, HeaderPath, HunkStart, IsAdded, PrintedHeader, NoInnerSplit, Flushed;
    var head, old_, new_ := PrintedHeader(d.path), "--- " + d.from, "+++ " + d.to;
    HeaderLineRoundTrip(d.path);
    KindsApart(head);
    ReadLine(lines, head);
    AddedExactly(old_);
    AddedExactly(new_);
    NoHeaderStart(old_);
    NoHeaderStart(new_);
    ReadLine(lines + [head], old_);
    ReadLine(lines + [head] + [old_], new_);
    assert lines + [head, old_, new_] == lines + [head] + [old_] + [new_];
    assert Added(lines) + [] == Added(lines);
  }

  lemma {:induction false} DiffIsRead(ds: seq<FileOf>)
    requires Readable(ds)
    ensures Flushed(WalkOver(DiffLines(ds))) == DiffHunks(ds, false) && Added(DiffLines(ds)) == Flatten(DiffHunks(ds, false))
    decreases ds
  {
    hide PathAt, Added, WalkOver, NoInnerSplit, Flushed, Flatten, FileHunks, HunksLines, PrintedHeader;
    if ds == [] {
      NothingToRead();
    } else {
      var n := |ds| - 1;
      var d, before := ds[n], DiffLines(ds[..n]);
      DiffIsRead(ds[..n]);
      var top := [PrintedHeader(d.path), "--- " + d.from, "+++ " + d.to];
      FileHeaderIsRead(before, d);
      var w := Walk(Flushed(WalkOver(before)), Some(d.path), WalkOver(before).start, None);
      var v := HunksAreRead(before + top, d.path, Added(before), w, d.hunks);
      assert DiffLines(ds) == before + top + HunksLines(d.hunks);
      NothingOpen(w);
      FlattenConcat(DiffHunks(ds[..n], false), FileHunks(d.path, d.hunks, false));
    }
  }

  lemma NothingOpen(w: Walk)
    requires w.added.None?
    ensures Flushed(w) == w.out
  {
  }

  lemma NothingToRead()
    ensures Flushed(WalkOver([])) == [] && Added([]) == [] && Flatten([]) == []
  {
  }

  /** Over a printed diff both walkers find what it inserts: the hunk walker hunk by hunk, with the
      path and the new start line, the other one line by line under its path. Insertions whose lines
      start with three plus signs are passed over. */
  lemma PrintedDiffIsRead(ds: seq<FileOf>)
    requires Readable(ds)
    ensures Hunks(DiffLines(ds)) == DiffHunks(ds, false) && Added(DiffLines(ds)) == Flatten(DiffHunks(ds, false))
  {
    DiffIsRead(ds);
  }

  // ----- what is passed over -----------------------------------------------------------------------------

  predicate NoneLost(ps: seq<Piece>) {
    forall i | 0 <= i < |ps| :: !LooksLikeHeader(ps[i])
  }

  predicate NoneLostIn(hs: seq<HunkOf>) {
    forall i | 0 <= i < |hs| :: NoneLost(hs[i].pieces)
  }

  predicate NoneLostOf(ds: seq<FileOf>) {
    forall i | 0 <= i < |ds| :: NoneLostIn(ds[i].hunks)
  }

  lemma {:induction false} LostTexts(ps: seq<Piece>)
    ensures |Texts(ps, false)| <= |Texts(ps, true)|
    ensures NoneLost(ps) <==> |Texts(ps, false)| == |Texts(ps, true)|
    ensures NoneLost(ps) ==> Texts(ps, false) == Texts(ps, true)
    decreases ps
  {
    hide LooksLikeHeader;
    if ps != [] {
      var n := |ps| - 1;
      LostTexts(ps[..n]);
      assert NoneLost(ps) <==> NoneLost(ps[..n]) && !LooksLikeHeader(ps[n]);
      assert LooksLikeHeader(ps[n]) ==> ps[n].Inserted? by { LostIsInserted(ps[n]); }
    }
  }

  lemma LostIsInserted(p: Piece)
    ensures LooksLikeHeader(p) ==> p.Inserted?
  {
  }

  lemma {:induction false} TaggedLength(path: string, ls: seq<string>)
    ensures |Tagged(path, ls)| == |ls|
    decreases ls
  {
    if ls != [] {
      TaggedLength(path, ls[..|ls| - 1]);
    }
  }

  lemma {:induction false} LostInFile(path: string, hs: seq<HunkOf>)
    ensures |Flatten(FileHunks(path, hs, false))| <= |Flatten(FileHunks(path, hs, true))|
    ensures NoneLostIn(hs) <==> |Flatten(FileHunks(path, hs, false))| == |Flatten(FileHunks(path, hs, true))|
    ensures NoneLostIn(hs) ==> FileHunks(path, hs, false) == FileHunks(path, hs, true)
    decreases hs
  {
    hide NoneLost, Flatten, Texts, Tagged;
    if hs != [] {
      var n := |hs| - 1;
      var h := hs[n];
      LostInFile(path, hs[..n]);
      LostTexts(h.pieces);
      FlattenLast(FileHunks(path, hs[..n], false), Hunk(path, h.start, Texts(h.pieces, false)));
      FlattenLast(FileHunks(path, hs[..n], true), Hunk(path, h.start, Texts(h.pieces, true)));
      TaggedLength(path, Texts(h.pieces, false));
      TaggedLength(path, Texts(h.pieces, true));
      assert NoneLostIn(hs) <==> NoneLostIn(hs[..n]) && NoneLost(h.pieces);
    }
  }

  lemma {:induction false} LostInDiff(ds: seq<FileOf>)
    ensures |Flatten(DiffHunks(ds, false))| <= |Flatten(DiffHunks(ds, true))|
    ensures NoneLostOf(ds) <==> |Flatten(DiffHunks(ds, false))| == |Flatten(DiffHunks(ds, true))|
    ensures NoneLostOf(ds) ==> DiffHunks(ds, false) == DiffHunks(ds, true)
    decreases ds
  {
    hide NoneLostIn, Flatten, FileHunks;
    if ds != [] {
      var n := |ds| - 1;
      var d := ds[n];
      LostInDiff(ds[..n]);
      LostInFile(d.path, d.hunks);
      FlattenConcat(DiffHunks(ds[..n], false), FileHunks(d.path, d.hunks, false));
      FlattenConcat(DiffHunks(ds[..n], true), FileHunks(d.path, d.hunks, true));
      assert NoneLostOf(ds) <==> NoneLostOf(ds[..n]) && NoneLostIn(d.hunks);
    }
  }

  /** Every inserted line is found if and only if no inserted text starts with two plus signs. */
  lemma NothingLostExactly(ds: seq<FileOf>)
    requires Readable(ds)
    ensures Added(DiffLines(ds)) == Flatten(DiffHunks(ds, true)) <==> NoneLostOf(ds)
  {
    hide Readable, NoneLostOf, Added, Hunks, Flatten, DiffHunks, DiffLines;
    PrintedDiffIsRead(ds);
    LostInDiff(ds);
  }

  /** A counter put up by one in a C-like language, say, is passed over. */
  lemma IncrementIsLost() returns (d: FileOf)
    ensures d.hunks == [HunkOf(1, 0, 1, 1, "", [Inserted("++i;")])] && d.path == "a.c"
    ensures Added(DiffLines([d])) == [] && Flatten(DiffHunks([d], true)) == [("a.c", "++i;")]
  {
    hide StartsWith, PrintedHeader, PrintedHunk, NoInnerSplit, Added, DiffLines;
    var p := Inserted("++i;");
    var h := HunkOf(1, 0, 1, 1, "", [p]);
    d := FileOf("a.c", "a/a.c", "b/a.c", [h]);
    ShortPath();
    PrintedDiffIsRead([d]);
    assert LooksLikeHeader(p) by { PlusPlus(); }
    OneHunk(d, h, p, false);
    OneHunk(d, h, p, true);
  }

  lemma ShortPath()
    ensures NoInnerSplit("a.c")
  {
  }

  lemma PlusPlus()
    ensures StartsWith("++i;", "++")
  {
  }

  lemma OneHunk(d: FileOf, h: HunkOf, p: Piece, all: bool)
    requires d.hunks == [h] && h.pieces == [p] && LooksLikeHeader(p)
    ensures Flatten(DiffHunks([d], all)) == if all then [(d.path, p.text)] else []
  {
    hide StartsWith;
    assert [d][..0] == [] && [h][..0] == [] && [p][..0] == [];
    assert Texts([p], all) == if all then [p.text] else [];
    var g := Hunk(d.path, h.start, Texts([p], all));
    assert DiffHunks([d], all) == [] + FileHunks(d.path, [h], all) == [g];
    FlattenLast([], g);
    FlattenNothing();
    assert [] + [g] == [g];
    TaggedLast(d.path, [], p.text);
    TaggedNothing(d.path);
    assert [] + [p.text] == [p.text];
  }
}
