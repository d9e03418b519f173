/** The search/replace block parser of `aider_format.py`, its grammar, and a printer that
    inverts it on exactly the block lists the parser can produce. */
module AiderParser {
  import opened Options
  import opened Text

  datatype Block = Block(file: string, search: string, replace: string, isNewFile: bool)

  datatype ParseError =
    | NoFilename(line: nat)
    | MissingDivider(file: string)
    | MissingTail(file: string)
    | NoBlocks

  datatype ParseResult = Ok(blocks: seq<Block>) | Err(error: ParseError)

  const SEARCH_HEAD := "<<<<<<< SEARCH"
  const DIVIDER := "======="
  const REPLACE_TAIL := ">>>>>>> REPLACE"
  const NEW_FILE_MARK := "### NEW FILE:"

  predicate NoSpaces(s: string) {
    forall i | 0 <= i < |s| :: !IsSpace(s[i])
  }

  // ----- grammar -------------------------------------------------------------------

  /** The group of `^### NEW FILE:\s*(\S+)\s*$`, when the line matches. */
  function NewFileName(line: string): Option<string> {
    if |line| < |NEW_FILE_MARK| || line[..|NEW_FILE_MARK|] != NEW_FILE_MARK then None
    else
      var name := Trim(line[|NEW_FILE_MARK|..]);
      if name != "" && NoSpaces(name) then Some(name) else None
  }

  datatype Kind = NewFile(name: string) | Blank | Head | FileHeader(file: string)

  /** What a line outside a block is taken for. */
  function KindOf(line: string): Kind {
    if NewFileName(line).Some? then NewFile(NewFileName(line).value)
    else if Trim(line) == "" then Blank
    else if Trim(line) == SEARCH_HEAD then Head
    else FileHeader(Trim(line))
  }

  predicate NoneIs(lines: seq<string>, a: nat, b: nat, marker: string)
    requires b <= |lines|
  {
    forall i | a <= i < b :: Trim(lines[i]) != marker
  }

  /** Index of the first line at or after `from` that strips to `marker`, or `|lines|`. */
  function FirstMarker(lines: seq<string>, from: nat, marker: string): (n: nat)
    requires from <= |lines|
    ensures from <= n <= |lines|
    decreases |lines| - from
  {
    if from == |lines| || Trim(lines[from]) == marker then from else FirstMarker(lines, from + 1, marker)
  }

  lemma {:induction false} FirstMarkerIs(lines: seq<string>, from: nat, marker: string, n: nat)
    requires from <= n <= |lines|
    ensures FirstMarker(lines, from, marker) == n <==>
            NoneIs(lines, from, n, marker) && (n < |lines| ==> Trim(lines[n]) == marker)
    decreases |lines| - from
  {
    hide Trim;
    if from < n && Trim(lines[from]) != marker {
      FirstMarkerIs(lines, from + 1, marker, n);
    }
  }

  function Prepend(bs: seq<Block>, rest: ParseResult): ParseResult {
    if rest.Ok? then Ok(bs + rest.blocks) else rest
  }

  function BlockOf(file: string, s: seq<string>, r: seq<string>, pending: Option<string>): Block {
    Block(file, Join(s), Join(r), pending == Some(file))
  }

  /** What `lines` from index `i` on mean after a filename header `current` and a
      new-file mark `pending`. */
  function Blocks(lines: seq<string>, i: nat, current: Option<string>, pending: Option<string>): ParseResult
    requires i <= |lines|
    decreases |lines| - i
  {
    if i == |lines| then Ok([])
    else
      match KindOf(lines[i])
      case NewFile(name) => Blocks(lines, i + 1, current, Some(name))
      case Blank => Blocks(lines, i + 1, current, pending)
      case FileHeader(file) => Blocks(lines, i + 1, Some(file), pending)
      case Head =>
        if current.None? then Err(NoFilename(i + 1))
        else
          var d := FirstMarker(lines, i + 1, DIVIDER);
          if d == |lines| then Err(MissingDivider(current.value))
          else
            var e := FirstMarker(lines, d + 1, REPLACE_TAIL);
            if e == |lines| then Err(MissingTail(current.value))
            else
              Prepend([BlockOf(current.value, lines[i + 1..d], lines[d + 1..e], pending)],
                      Blocks(lines, e + 1, current, None))
  }

  function Parse(text: string): ParseResult {
    var r := Blocks(SplitLines(text), 0, None, None);
    if r == Ok([]) then Err(NoBlocks) else r
  }

  // ----- the line state machine ------------------------------------------------------

  lemma PrependTwice(a: seq<Block>, b: seq<Block>, rest: ParseResult)
    ensures Prepend(a, Prepend(b, rest)) == Prepend(a + b, rest)
  {
    if rest.Ok? {
      assert a + (b + rest.blocks) == (a + b) + rest.blocks;
    }
  }

  /** The inner loop: collect a block's two bodies, from the line after the search marker. */
  method ScanBody(lines: seq<string>, start: nat)
    returns (searchLines: seq<string>, replaceLines: seq<string>, sawDivider: bool, sawTail: bool, i: nat)
    requires start <= |lines|
    ensures var d := FirstMarker(lines, start, DIVIDER);
              && (sawDivider <==> d < |lines|)
              && (sawDivider ==>
                    var e := FirstMarker(lines, d + 1, REPLACE_TAIL);
                    && searchLines == lines[start..d] && replaceLines == lines[d + 1..e]
                    && (sawTail <==> e < |lines|)
                    && (sawTail ==> i == e + 1))
  {
    hide Trim, FirstMarker;
    i := start;
    searchLines, replaceLines, sawDivider, sawTail := [], [], false, false;
    var inSearch, inReplace := true, false;
    ghost var divider := start;
    while i < |lines|
      invariant start <= i <= |lines| && !sawTail && sawDivider == inReplace == !inSearch
      invariant inSearch ==> searchLines == lines[start..i] && NoneIs(lines, start, i, DIVIDER)
      invariant inSearch ==> replaceLines == []
      invariant inReplace ==> start <= divider < i && FirstMarker(lines, start, DIVIDER) == divider
      invariant inReplace ==> searchLines == lines[start..divider] && replaceLines == lines[divider + 1..i]
      invariant inReplace ==> NoneIs(lines, divider + 1, i, REPLACE_TAIL)
    {
      var inner := lines[i];
      var innerStripped := Trim(inner);
      if inSearch && innerStripped == DIVIDER {
        FirstMarkerIs(lines, start, DIVIDER, i);
        divider := i;
        inSearch, inReplace, sawDivider := false, true, true;
        i := i + 1;
        continue;
      }
      if inReplace && innerStripped == REPLACE_TAIL {
        sawTail := true;
        FirstMarkerIs(lines, divider + 1, REPLACE_TAIL, i);
        i := i + 1;
        break;
      }
      if inSearch {
        searchLines := searchLines + [inner];
      } else {
        replaceLines := replaceLines + [inner];
      }
      i := i + 1;
    }
    if !sawDivider {
      FirstMarkerIs(lines, start, DIVIDER, |lines|);
    } else if !sawTail {
      FirstMarkerIs(lines, divider + 1, REPLACE_TAIL, |lines|);
    }
  }

  method ParseAiderBlocks(text: string) returns (r: ParseResult)
    ensures r == Parse(text)
  {
    hide Trim, NewFileName, Join, FirstMarker;
    var lines := SplitLines(text);
    var blocks: seq<Block> := [];
    var i := 0;
    var pending: Option<string> := None;
    var current: Option<string> := None;
    while i < |lines|
      invariant 0 <= i <= |lines|
      invariant Blocks(lines, 0, None, None) == Prepend(blocks, Blocks(lines, i, current, pending))
    {
      var line := lines[i];
      var stripped := Trim(line);
      var newFile := NewFileName(line);
      if newFile.Some? {
        pending := newFile;
        i := i + 1;
      } else if stripped == "" {
        i := i + 1;
      } else if stripped == SEARCH_HEAD {
        if current.None? {
          return Err(NoFilename(i + 1));
        }
        var searchLines, replaceLines, sawDivider, sawTail, next := ScanBody(lines, i + 1);
        if !sawDivider {
          return Err(MissingDivider(current.value));
        }
        if !sawTail {
          return Err(MissingTail(current.value));
        }
        i := next;
        var b := Block(current.value, Join(searchLines), Join(replaceLines), pending == current);
        PrependTwice(blocks, [b], Blocks(lines, i, current, None));
        blocks := blocks + [b];
        pending := None;
      } else {
        current := Some(stripped);
        i := i + 1;
      }
    }
    if blocks == [] {
      return Err(NoBlocks);
    }
    return Ok(blocks);
  }

  // ----- the printer -----------------------------------------------------------------

  function BodyLines(s: string): seq<string> {
    if s == "" then [] else SplitNewline(s)
  }

  predicate BodyAvoids(s: string, marker: string) {
    AllOneLine(BodyLines(s)) && NoneIs(BodyLines(s), 0, |BodyLines(s)|, marker)
  }

  predicate CanBeHeader(file: string) {
    file != "" && Trimmed(file) && OneLine(file) && file != SEARCH_HEAD
  }

  /** The blocks that have a textual form. */
  predicate WellFormed(b: Block) {
    && CanBeHeader(b.file)
    && BodyAvoids(b.search, DIVIDER)
    && BodyAvoids(b.replace, REPLACE_TAIL)
    && (b.isNewFile ==> NoSpaces(b.file))
  }

  predicate AllWellFormed(bs: seq<Block>) {
    forall i | 0 <= i < |bs| :: WellFormed(bs[i])
  }

  /** A name that would itself read as a new-file mark is indented, which the parser undoes. */
  function Header(file: string): string {
    if NewFileName(file).Some? then " " + file else file
  }

  function HeaderLines(b: Block, current: Option<string>, repeatHeaders: bool): seq<string> {
    if repeatHeaders || current != Some(b.file) then [Header(b.file)] else []
  }

  function MarkLines(b: Block): seq<string> {
    if b.isNewFile then [NEW_FILE_MARK + " " + b.file] else []
  }

  function BodyText(b: Block): seq<string> {
    BodyLines(b.search) + [DIVIDER] + BodyLines(b.replace) + [REPLACE_TAIL]
  }

  /** Blank lines around a block's own: before its mark, its header and its search head, and after
      its tail. */
  datatype Pads = Pads(mark: seq<string>, header: seq<string>, head: seq<string>, tail: seq<string>)

  predicate BlankLines(ls: seq<string>) {
    forall i | 0 <= i < |ls| :: OneLine(ls[i]) && AllSpaces(ls[i])
  }

  predicate BlankPads(p: Pads) {
    BlankLines(p.mark) && BlankLines(p.header) && BlankLines(p.head) && BlankLines(p.tail)
  }

  function RenderBlock(b: Block, p: Pads, current: Option<string>, repeatHeaders: bool): seq<string> {
    ((p.mark + MarkLines(b)) + (p.header + HeaderLines(b, current, repeatHeaders)) + (p.head + [SEARCH_HEAD]))
    + BodyText(b) + p.tail
  }

  function RenderLines(bs: seq<Block>, pads: seq<Pads>, current: Option<string>, repeatHeaders: bool): seq<string>
    requires |pads| == |bs|
  {
    if bs == [] then []
    else RenderBlock(bs[0], pads[0], current, repeatHeaders) + RenderLines(bs[1..], pads[1..], Some(bs[0].file), repeatHeaders)
  }

  /** The block list as text, spread out by blank lines; a header may be left out when it repeats
      the one before. */
  function RenderLoose(bs: seq<Block>, pads: seq<Pads>, repeatHeaders: bool): string
    requires |pads| == |bs|
  {
    Unlines(RenderLines(bs, pads, None, repeatHeaders))
  }

  function NoPads(n: nat): seq<Pads> {
    seq(n, _ => Pads([], [], [], []))
  }

  function Render(bs: seq<Block>, repeatHeaders: bool): string {
    RenderLoose(bs, NoPads(|bs|), repeatHeaders)
  }

  // ----- parsing a rendering -----------------------------------------------------------

  lemma HeaderIsRead(file: string)
    requires CanBeHeader(file)
    ensures NewFileName(Header(file)).None? && Trim(Header(file)) == file && OneLine(Header(file))
  {
    TrimPadded(file);
    TrimOfTrimmed(file);
    assert (" " + file)[0] == ' ';
    if NewFileName(file).Some? {
      var h := " " + file;
      assert h[..|NEW_FILE_MARK|][0] == ' ';
      assert NEW_FILE_MARK[0] == '#';
    }
  }

  lemma NewFileMarkIsRead(file: string)
    requires file != "" && Trimmed(file) && NoSpaces(file)
    ensures NewFileName(NEW_FILE_MARK + " " + file) == Some(file)
    ensures OneLine(NEW_FILE_MARK + " " + file)
  {
    var line := NEW_FILE_MARK + " " + file;
    assert line[..|NEW_FILE_MARK|] == NEW_FILE_MARK;
    assert line[|NEW_FILE_MARK|..] == " " + file;
    TrimPadded(file);
    forall i | 0 <= i < |line| ensures !IsLineBreak(line[i]) {
      if i > |NEW_FILE_MARK| {
        assert line[i] == file[i - |NEW_FILE_MARK| - 1];
      }
    }
  }

  lemma SearchHeadIsRead()
    ensures Trim(SEARCH_HEAD) == SEARCH_HEAD && NewFileName(SEARCH_HEAD).None? && AllOneLine([SEARCH_HEAD])
  {
    hide Trim;
    TrimOfTrimmed(SEARCH_HEAD);
    assert SEARCH_HEAD[..|NEW_FILE_MARK|][0] == '<';
    assert NEW_FILE_MARK[0] == '#';
  }

  lemma DividerIsRead()
    ensures Trim(DIVIDER) == DIVIDER && AllOneLine([DIVIDER])
  {
    hide Trim;
    TrimOfTrimmed(DIVIDER);
  }

  lemma ReplaceTailIsRead()
    ensures Trim(REPLACE_TAIL) == REPLACE_TAIL && AllOneLine([REPLACE_TAIL])
  {
    hide Trim;
    TrimOfTrimmed(REPLACE_TAIL);
  }

  lemma MarkersAreRead()
    ensures Trim(SEARCH_HEAD) == SEARCH_HEAD && NewFileName(SEARCH_HEAD).None?
    ensures Trim(DIVIDER) == DIVIDER && Trim(REPLACE_TAIL) == REPLACE_TAIL
    ensures AllOneLine([SEARCH_HEAD]) && AllOneLine([DIVIDER]) && AllOneLine([REPLACE_TAIL])
  {
    hide Trim, NewFileName, AllOneLine;
    SearchHeadIsRead();
    DividerIsRead();
    ReplaceTailIsRead();
  }

  lemma JoinBodyLines(s: string)
    ensures Join(BodyLines(s)) == s
  {
    JoinSplitNewline(s);
  }

  /** The lines of `all` from index `i` on start with `ls`. */
  predicate StartsAt(all: seq<string>, i: nat, ls: seq<string>) {
    i + |ls| <= |all| && all[i..i + |ls|] == ls
  }

  lemma StartsAtConcat(all: seq<string>, i: nat, a: seq<string>, b: seq<string>)
    requires StartsAt(all, i, a + b)
    ensures StartsAt(all, i, a) && StartsAt(all, i + |a|, b) && i + |a| + |b| <= |all|
  {
    var ls := all[i..i + |a + b|];
    assert all[i..i + |a|] == ls[..|a|] == a;
    assert all[i + |a|..i + |a| + |b|] == ls[|a|..] == b;
  }

  lemma BlankIsBlank(line: string)
    requires AllSpaces(line)
    ensures KindOf(line).Blank?
  {
    hide IsSpace, Trim, NewFileName;
    SpaceIsSpace();
    TrimNothing(line);
    NewFileNameStart(line);
  }

  lemma NewFileNameStart(line: string)
    ensures NewFileName(line).Some? ==> line != "" && line[0] == '#'
  {
    hide Trim;
    assert NEW_FILE_MARK[0] == '#';
    assert |line| >= |NEW_FILE_MARK| ==> line[..|NEW_FILE_MARK|][0] == line[0];
  }

  lemma {:induction false} BlankLinesAreSkipped(all: seq<string>, i: nat, ls: seq<string>, current: Option<string>, pending: Option<string>)
    requires BlankLines(ls) && StartsAt(all, i, ls)
    ensures Blocks(all, i, current, pending) == Blocks(all, i + |ls|, current, pending)
    decreases |ls|
  {
    if ls != [] {
      hide KindOf, AllSpaces, OneLine;
      assert all[i] == all[i..i + |ls|][0] == ls[0];
      BlankIsBlank(ls[0]);
      StartsAtConcat(all, i, [ls[0]], ls[1..]) by { assert [ls[0]] + ls[1..] == ls; }
      BlankLinesAreSkipped(all, i + 1, ls[1..], current, pending);
    }
  }

  lemma RenderedMarkIsRead(all: seq<string>, i: nat, b: Block, current: Option<string>)
    requires WellFormed(b) && StartsAt(all, i, MarkLines(b))
    ensures Blocks(all, i, current, None)
         == Blocks(all, i + |MarkLines(b)|, current, if b.isNewFile then Some(b.file) else None)
  {
    hide Trim;
    if b.isNewFile {
      NewFileMarkIsRead(b.file);
      assert all[i..i + 1][0] == all[i];
    }
  }

  lemma RenderedHeaderIsRead(all: seq<string>, i: nat, b: Block, current: Option<string>, pending: Option<string>,
                             repeatHeaders: bool)
    requires WellFormed(b) && StartsAt(all, i, HeaderLines(b, current, repeatHeaders))
    ensures Blocks(all, i, current, pending)
         == Blocks(all, i + |HeaderLines(b, current, repeatHeaders)|, Some(b.file), pending)
  {
    hide Trim, NewFileName, Header;
    if HeaderLines(b, current, repeatHeaders) != [] {
      HeaderIsRead(b.file);
      assert all[i..i + 1][0] == all[i];
    }
  }

  lemma RenderedBodyIs(all: seq<string>, i: nat, b: Block)
    requires WellFormed(b) && StartsAt(all, i, BodyText(b))
    ensures var d := i + |BodyLines(b.search)|;
              var e := d + 1 + |BodyLines(b.replace)|;
              && e < |all| && all[i..d] == BodyLines(b.search) && all[d + 1..e] == BodyLines(b.replace)
              && FirstMarker(all, i, DIVIDER) == d && FirstMarker(all, d + 1, REPLACE_TAIL) == e
  {
    hide Trim, BodyLines;
    var s, r := BodyLines(b.search), BodyLines(b.replace);
    var d := i + |s|;
    var e := d + 1 + |r|;
    StartsAtConcat(all, i, s + [DIVIDER] + r, [REPLACE_TAIL]);
    StartsAtConcat(all, i, s + [DIVIDER], r);
    StartsAtConcat(all, i, s, [DIVIDER]);
    MarkersAreRead();
    assert all[d] == all[d..d + 1][0] == DIVIDER;
    assert all[e] == all[e..e + 1][0] == REPLACE_TAIL;
    assert forall k | i <= k < d :: all[k] == all[i..d][k - i];
    assert forall k | d + 1 <= k < e :: all[k] == all[d + 1..e][k - d - 1];
    FirstMarkerIs(all, i, DIVIDER, d);
    FirstMarkerIs(all, d + 1, REPLACE_TAIL, e);
  }

  lemma RenderedBodyIsRead(all: seq<string>, i: nat, b: Block, pending: Option<string>)
    requires WellFormed(b) && (b.isNewFile <==> pending == Some(b.file))
    requires StartsAt(all, i, [SEARCH_HEAD]) && StartsAt(all, i + 1, BodyText(b))
    ensures Blocks(all, i, Some(b.file), pending)
         == Prepend([b], Blocks(all, i + 1 + |BodyText(b)|, Some(b.file), None))
  {
    hide Trim, BodyLines, NewFileName, Join, FirstMarker, WellFormed;
    RenderedBodyIs(all, i + 1, b);
    MarkersAreRead();
    assert all[i..i + 1][0] == all[i];
    JoinBodyLines(b.search);
    JoinBodyLines(b.replace);
  }

  lemma RenderedBlockIsRead(all: seq<string>, i: nat, b: Block, p: Pads, current: Option<string>, repeatHeaders: bool)
    requires WellFormed(b) && BlankPads(p) && StartsAt(all, i, RenderBlock(b, p, current, repeatHeaders))
    ensures Blocks(all, i, current, None)
         == Prepend([b], Blocks(all, i + |RenderBlock(b, p, current, repeatHeaders)|, Some(b.file), None))
  {
    hide Blocks, MarkLines, HeaderLines, WellFormed, StartsAt, BodyText, BlankLines;
    var ms, hs := MarkLines(b), HeaderLines(b, current, repeatHeaders);
    var pending := if b.isNewFile then Some(b.file) else None;
    var top := (p.mark + ms) + (p.header + hs) + (p.head + [SEARCH_HEAD]);
    StartsAtConcat(all, i, top + BodyText(b), p.tail);
    StartsAtConcat(all, i, top, BodyText(b));
    StartsAtConcat(all, i, (p.mark + ms) + (p.header + hs), p.head + [SEARCH_HEAD]);
    StartsAtConcat(all, i, p.mark + ms, p.header + hs);
    StartsAtConcat(all, i, p.mark, ms);
    var j := i + |p.mark| + |ms|;
    StartsAtConcat(all, j, p.header, hs);
    var h := j + |p.header| + |hs|;
    StartsAtConcat(all, h, p.head, [SEARCH_HEAD]);
    BlankLinesAreSkipped(all, i, p.mark, current, None);
    RenderedMarkIsRead(all, i + |p.mark|, b, current);
    BlankLinesAreSkipped(all, j, p.header, current, pending);
    RenderedHeaderIsRead(all, j + |p.header|, b, current, pending, repeatHeaders);
    BlankLinesAreSkipped(all, h, p.head, Some(b.file), pending);
    RenderedBodyIsRead(all, h + |p.head|, b, pending);
    BlankLinesAreSkipped(all, i + |top| + |BodyText(b)|, p.tail, Some(b.file), None);
  }

  lemma NothingLeft(all: seq<string>, current: Option<string>)
    ensures Blocks(all, |all|, current, None) == Ok([])
  {
  }

  predicate AllBlank(pads: seq<Pads>) {
    forall i | 0 <= i < |pads| :: BlankPads(pads[i])
  }

  lemma {:induction false} RenderedLinesAreRead(all: seq<string>, i: nat, bs: seq<Block>, pads: seq<Pads>,
                                                current: Option<string>, repeatHeaders: bool)
    requires |pads| == |bs| && AllWellFormed(bs) && AllBlank(pads)
    requires StartsAt(all, i, RenderLines(bs, pads, current, repeatHeaders))
    requires |all| == i + |RenderLines(bs, pads, current, repeatHeaders)|
    ensures Blocks(all, i, current, None) == Ok(bs)
    decreases bs
  {
    hide Blocks, WellFormed, RenderBlock, StartsAt, BlankPads;
    if bs == [] {
      NothingLeft(all, current);
    } else {
      var first := RenderBlock(bs[0], pads[0], current, repeatHeaders);
      StartsAtConcat(all, i, first, RenderLines(bs[1..], pads[1..], Some(bs[0].file), repeatHeaders));
      RenderedBlockIsRead(all, i, bs[0], pads[0], current, repeatHeaders);
      RenderedLinesAreRead(all, i + |first|, bs[1..], pads[1..], Some(bs[0].file), repeatHeaders);
      assert [bs[0]] + bs[1..] == bs;
    }
  }

  lemma AllOneLineConcat(a: seq<string>, b: seq<string>)
    ensures AllOneLine(a + b) <==> AllOneLine(a) && AllOneLine(b)
  {
    hide OneLine;
    assert forall i | 0 <= i < |a| :: (a + b)[i] == a[i];
    assert forall i | 0 <= i < |b| :: (a + b)[|a| + i] == b[i];
  }

  lemma HeadLinesAreLines(b: Block, current: Option<string>, repeatHeaders: bool)
    requires WellFormed(b)
    ensures AllOneLine(MarkLines(b)) && AllOneLine(HeaderLines(b, current, repeatHeaders))
  {
    hide Trim, NewFileName, Header, OneLine;
    HeaderIsRead(b.file);
    if b.isNewFile {
      NewFileMarkIsRead(b.file);
    }
  }

  lemma BlankAreLines(ls: seq<string>)
    requires BlankLines(ls)
    ensures AllOneLine(ls)
  {
    hide OneLine, AllSpaces;
  }

  lemma RenderedBlockIsLines(b: Block, p: Pads, current: Option<string>, repeatHeaders: bool)
    requires WellFormed(b) && BlankPads(p)
    ensures AllOneLine(RenderBlock(b, p, current, repeatHeaders))
  {
    hide Trim, AllOneLine, BodyLines, MarkLines, HeaderLines, BlankLines;
    var ms, hs := MarkLines(b), HeaderLines(b, current, repeatHeaders);
    var s, r := BodyLines(b.search), BodyLines(b.replace);
    MarkersAreRead();
    HeadLinesAreLines(b, current, repeatHeaders);
    BlankAreLines(p.mark);
    BlankAreLines(p.header);
    BlankAreLines(p.head);
    BlankAreLines(p.tail);
    AllOneLineConcat(p.mark, ms);
    AllOneLineConcat(p.header, hs);
    AllOneLineConcat(p.head, [SEARCH_HEAD]);
    AllOneLineConcat(p.mark + ms, p.header + hs);
    AllOneLineConcat((p.mark + ms) + (p.header + hs), p.head + [SEARCH_HEAD]);
    AllOneLineConcat(s, [DIVIDER]);
    AllOneLineConcat(s + [DIVIDER], r);
    AllOneLineConcat(s + [DIVIDER] + r, [REPLACE_TAIL]);
    AllOneLineConcat((p.mark + ms) + (p.header + hs) + (p.head + [SEARCH_HEAD]), BodyText(b));
    AllOneLineConcat((p.mark + ms) + (p.header + hs) + (p.head + [SEARCH_HEAD]) + BodyText(b), p.tail);
  }

  lemma {:induction false} RenderedLinesAreLines(bs: seq<Block>, pads: seq<Pads>, current: Option<string>, repeatHeaders: bool)
    requires |pads| == |bs| && AllWellFormed(bs) && AllBlank(pads)
    ensures AllOneLine(RenderLines(bs, pads, current, repeatHeaders))
    decreases bs
  {
    if bs != [] {
      hide WellFormed, AllOneLine, RenderBlock, BlankPads;
      RenderedBlockIsLines(bs[0], pads[0], current, repeatHeaders);
      RenderedLinesAreLines(bs[1..], pads[1..], Some(bs[0].file), repeatHeaders);
      AllOneLineConcat(RenderBlock(bs[0], pads[0], current, repeatHeaders),
                       RenderLines(bs[1..], pads[1..], Some(bs[0].file), repeatHeaders));
    }
  }

  /** Parsing undoes printing, however many whitespace-only lines stand before marks, headers and
      search heads and after tails, and whether or not repeated headers are written. */
  lemma ParseRenderLoose(bs: seq<Block>, pads: seq<Pads>, repeatHeaders: bool)
    requires bs != [] && |pads| == |bs| && AllWellFormed(bs) && AllBlank(pads)
    ensures Parse(RenderLoose(bs, pads, repeatHeaders)) == Ok(bs)
  {
    hide KindOf, WellFormed, AllOneLine, Blocks, RenderLines, Unlines, SplitLines, BlankPads;
    var lines := RenderLines(bs, pads, None, repeatHeaders);
    RenderedLinesAreLines(bs, pads, None, repeatHeaders);
    SplitUnlines(lines);
    assert lines[0..0 + |lines|] == lines;
    RenderedLinesAreRead(lines, 0, bs, pads, None, repeatHeaders);
  }

  lemma ParseRender(bs: seq<Block>, repeatHeaders: bool)
    requires bs != [] && AllWellFormed(bs)
    ensures Parse(Render(bs, repeatHeaders)) == Ok(bs)
  {
    hide Parse, RenderLoose, WellFormed;
    ParseRenderLoose(bs, NoPads(|bs|), repeatHeaders);
  }

  // ----- what the parser can produce ---------------------------------------------------

  lemma ParsedBodyAvoids(lines: seq<string>, a: nat, b: nat, marker: string)
    requires a <= b <= |lines| && AllOneLine(lines) && NoneIs(lines, a, b, marker)
    ensures BodyAvoids(Join(lines[a..b]), marker)
  {
    hide Trim, Join, OneLine;
    var ls := lines[a..b];
    if Join(ls) != "" {
      assert ls != [] by { assert Join([]) == "" by { JoinNothing(); } }
      forall i | 0 <= i < |ls| ensures NoNewline(ls[i]) {
        OneLineHasNoNewline(ls[i]);
      }
      SplitNewlineJoin(ls);
    }
  }

  predicate Reachable(current: Option<string>, pending: Option<string>) {
    (current.Some? ==> CanBeHeader(current.value)) && (pending.Some? ==> NoSpaces(pending.value))
  }

  lemma HeaderFromLine(line: string)
    requires OneLine(line)
    ensures KindOf(line).FileHeader? ==> CanBeHeader(KindOf(line).file)
    ensures KindOf(line).NewFile? ==> NoSpaces(KindOf(line).name)
  {
    hide Trim;
    TrimOneLine(line);
    TrimIsTrimmed(line);
  }

  lemma {:induction false} BlocksAreWellFormed(lines: seq<string>, i: nat, current: Option<string>, pending: Option<string>)
    requires i <= |lines| && AllOneLine(lines) && Reachable(current, pending)
    requires Blocks(lines, i, current, pending).Ok?
    ensures AllWellFormed(Blocks(lines, i, current, pending).blocks)
    decreases |lines| - i
  {
    hide KindOf, Trim, Join, BodyAvoids, CanBeHeader, OneLine;
    if i < |lines| {
      HeaderFromLine(lines[i]);
      match KindOf(lines[i])
      case NewFile(name) => BlocksAreWellFormed(lines, i + 1, current, Some(name));
      case Blank => BlocksAreWellFormed(lines, i + 1, current, pending);
      case FileHeader(file) => BlocksAreWellFormed(lines, i + 1, Some(file), pending);
      case Head =>
        var d := FirstMarker(lines, i + 1, DIVIDER);
        var e := FirstMarker(lines, d + 1, REPLACE_TAIL);
        FirstMarkerIs(lines, i + 1, DIVIDER, d);
        FirstMarkerIs(lines, d + 1, REPLACE_TAIL, e);
        ParsedBodyAvoids(lines, i + 1, d, DIVIDER);
        ParsedBodyAvoids(lines, d + 1, e, REPLACE_TAIL);
        BlocksAreWellFormed(lines, e + 1, current, None);
    }
  }

  lemma ParsedIsWellFormed(text: string)
    requires Parse(text).Ok?
    ensures Parse(text).blocks != [] && AllWellFormed(Parse(text).blocks)
  {
    hide KindOf, WellFormed;
    BlocksAreWellFormed(SplitLines(text), 0, None, None);
  }

  /** The parser's range: a block list is the reading of some text exactly when it is
      non-empty and every block is well formed. */
  lemma ParserRange(bs: seq<Block>)
    ensures (exists text :: Parse(text) == Ok(bs)) <==> bs != [] && AllWellFormed(bs)
  {
    if text :| Parse(text) == Ok(bs) {
      ParsedIsWellFormed(text);
    }
    if bs != [] && AllWellFormed(bs) {
      ParseRender(bs, true);
    }
  }

  /** Printing is right on exactly the parser's range ... */
  lemma RoundTripExactly(bs: seq<Block>, repeatHeaders: bool)
    ensures Parse(Render(bs, repeatHeaders)) == Ok(bs) <==> bs != [] && AllWellFormed(bs)
  {
    if Parse(Render(bs, repeatHeaders)) == Ok(bs) {
      ParsedIsWellFormed(Render(bs, repeatHeaders));
    }
    if bs != [] && AllWellFormed(bs) {
      ParseRender(bs, repeatHeaders);
    }
  }

  /** ... so every accepted text has the same reading as the printing of its reading. */
  lemma ReparseIsStable(text: string, repeatHeaders: bool)
    requires Parse(text).Ok?
    ensures Parse(Render(Parse(text).blocks, repeatHeaders)) == Parse(text)
  {
    ParsedIsWellFormed(text);
    ParseRender(Parse(text).blocks, repeatHeaders);
  }
}
