/** What a text means to the block parser, said of the positions of its lines: which lines are
    blocks, which header and mark belong to each, and when each error is raised. */
module AiderParserLaws {
  import opened Options
  import opened Text
  import opened AiderParser

  // ----- kinds of lines -------------------------------------------------------------------

  /** The new-file mark is the regular expression's: the fixed text, whitespace, a name without
      whitespace, whitespace. */
  lemma NewFileNameExactly(line: string, name: string)
    ensures NewFileName(line) == Some(name) <==>
            && name != "" && NoSpaces(name)
            && exists a, b :: AllSpaces(a) && AllSpaces(b) && line == "### NEW FILE:" + a + name + b
  {
    hide IsSpace, AllSpaces, NoSpaces, Trim, NewFileName, NEW_FILE_MARK;
    MarkText();
    if a, b :| AllSpaces(a) && AllSpaces(b) && line == NEW_FILE_MARK + a + name + b && name != "" && NoSpaces(name) {
      MarkIsRead(a, name, b);
    }
    if NewFileName(line) == Some(name) {
      var a, b := ReadIsMark(line, name);
    }
  }

  lemma MarkText()
    ensures NEW_FILE_MARK == "### NEW FILE:"
  {
  }

  lemma MarkIsRead(a: string, name: string, b: string)
    requires AllSpaces(a) && AllSpaces(b) && name != "" && NoSpaces(name)
    ensures NewFileName(NEW_FILE_MARK + a + name + b) == Some(name)
  {
    var line, n := NEW_FILE_MARK + a + name + b, |NEW_FILE_MARK|;
    assert Trimmed(name);
    hide IsSpace, AllSpaces, Trim, NEW_FILE_MARK;
    assert line[..n] == NEW_FILE_MARK && line[n..] == a + name + b;
    TrimBetween(a, name, b);
  }

  lemma ReadIsMark(line: string, name: string) returns (a: string, b: string)
    requires NewFileName(line) == Some(name)
    ensures AllSpaces(a) && AllSpaces(b) && line == NEW_FILE_MARK + a + name + b && name != "" && NoSpaces(name)
  {
    hide IsSpace, AllSpaces, Trim, NEW_FILE_MARK;
    var n := |NEW_FILE_MARK|;
    TrimExactly(line[n..], name);
    a, b :| AllSpaces(a) && AllSpaces(b) && line[n..] == a + name + b;
    assert line == line[..n] + line[n..];
  }

  /** Outside a block a line is a new-file mark, blank, a search head, or else a file header. */
  lemma KindExactly(line: string)
    ensures KindOf(line).NewFile? <==> exists name :: NewFileName(line) == Some(name)
    ensures KindOf(line).NewFile? ==> NewFileName(line) == Some(KindOf(line).name)
    ensures KindOf(line).Blank? <==> AllSpaces(line)
    ensures KindOf(line).Head? <==> Trim(line) == "<<<<<<< SEARCH"
    ensures KindOf(line).FileHeader? ==> KindOf(line).file == Trim(line)
  {
    hide IsSpace, Trim;
    TrimExactly(line, "");
    if Trim(line) == "" {
      var a, b :| AllSpaces(a) && AllSpaces(b) && line == a + "" + b;
    } else {
      assert !AllSpaces(line) by { if AllSpaces(line) { TrimNothing(line); } }
    }
    if AllSpaces(line) {
      TrimNothing(line);
      BlankIsBlank(line);
    }
    MarkIsNoHead(line);
  }

  lemma MarkIsNoHead(line: string)
    ensures NewFileName(line).Some? ==> Trim(line) != SEARCH_HEAD
  {
    hide IsSpace, LeadingSpaces, TextEnd, Trim;
    NewFileNameStart(line);
    SpaceIsSpace();
    if line != "" && line[0] == '#' {
      TrimKeepsFirst(line);
      assert SEARCH_HEAD[0] == '<';
    }
  }

  lemma TrimKeepsFirst(line: string)
    requires line != "" && !IsSpace(line[0])
    ensures Trim(line) != "" && Trim(line)[0] == line[0]
  {
    TextEndIsText(line, 0, |line|);
  }

  // ----- blocks among the lines ----------------------------------------------------------------

  /** The lines of a block's three markers. */
  datatype Spot = Spot(head: nat, divider: nat, tail: nat)

  predicate IsBlockAt(lines: seq<string>, s: Spot) {
    && s.head < s.divider < s.tail < |lines| && KindOf(lines[s.head]).Head?
    && NoneIs(lines, s.head + 1, s.divider, DIVIDER) && Trim(lines[s.divider]) == DIVIDER
    && NoneIs(lines, s.divider + 1, s.tail, REPLACE_TAIL) && Trim(lines[s.tail]) == REPLACE_TAIL
  }

  predicate Outside(spots: seq<Spot>, i: int) {
    forall k | 0 <= k < |spots| :: !(spots[k].head <= i <= spots[k].tail)
  }

  /** The blocks of the first `n` lines, in order; no search head is left outside them. */
  predicate Layout(lines: seq<string>, spots: seq<Spot>, n: nat)
    requires n <= |lines|
  {
    && (forall k | 0 <= k < |spots| :: IsBlockAt(lines, spots[k]) && spots[k].tail < n)
    && (forall j, k | 0 <= j < k < |spots| :: spots[j].tail < spots[k].head)
    && (forall i | 0 <= i < n && Outside(spots, i) :: !KindOf(lines[i]).Head?)
  }

  /** Line `i` is the last file header above line `n`. */
  predicate HeaderAt(lines: seq<string>, spots: seq<Spot>, n: nat, i: nat, file: string)
    requires n <= |lines|
  {
    && i < n && Outside(spots, i) && KindOf(lines[i]) == FileHeader(file)
    && forall j | i < j < n && Outside(spots, j) :: !KindOf(lines[j]).FileHeader?
  }

  /** Line `i` is the last new-file mark above line `n`, and no block stands between. */
  predicate MarkAt(lines: seq<string>, spots: seq<Spot>, n: nat, i: nat, file: string)
    requires n <= |lines|
  {
    && i < n && KindOf(lines[i]) == NewFile(file)
    && (forall j | i <= j < n :: Outside(spots, j))
    && forall j | i < j < n :: !KindOf(lines[j]).NewFile?
  }

  ghost predicate HeaderFor(lines: seq<string>, spots: seq<Spot>, n: nat, file: string)
    requires n <= |lines|
  {
    exists i: nat :: HeaderAt(lines, spots, n, i, file)
  }

  ghost predicate MarkFor(lines: seq<string>, spots: seq<Spot>, n: nat, file: string)
    requires n <= |lines|
  {
    exists i: nat :: MarkAt(lines, spots, n, i, file)
  }

  /** The block at `s`: its file is that of the last header, its bodies are the lines between the
      markers, and it is a new file if the last mark since the block before names that file. */
  ghost predicate ReadsAs(lines: seq<string>, spots: seq<Spot>, s: Spot, b: Block)
    requires s.head < s.divider < s.tail < |lines|
  {
    && HeaderFor(lines, spots, s.head, b.file)
    && b.search == Join(lines[s.head + 1..s.divider]) && b.replace == Join(lines[s.divider + 1..s.tail])
    && (b.isNewFile <==> MarkFor(lines, spots, s.head, b.file))
  }

  ghost predicate Reads(lines: seq<string>, spots: seq<Spot>, n: nat, bs: seq<Block>)
    requires n <= |lines|
  {
    Layout(lines, spots, n) && |bs| == |spots| && forall k | 0 <= k < |spots| :: ReadsAs(lines, spots, spots[k], bs[k])
  }

  /** The blocks before line `n` are complete; line `n` opens another one for `file`. */
  ghost predicate OpensAt(lines: seq<string>, n: nat, file: string) {
    n < |lines| && KindOf(lines[n]).Head?
    && exists spots, bs :: Reads(lines, spots, n, bs) && HeaderFor(lines, spots, n, file)
  }

  /** The whole of `lines` is laid out as `bs`. */
  ghost predicate Means(lines: seq<string>, bs: seq<Block>) {
    exists spots :: Reads(lines, spots, |lines|, bs)
  }

  ghost predicate Explains(lines: seq<string>, r: ParseResult) {
    match r
    case Ok(bs) => Means(lines, bs)
    case Err(NoFilename(n)) => NoHeaderAbove(lines, n)
    case Err(MissingDivider(file)) => exists h: nat :: OpensAt(lines, h, file) && NoneIs(lines, h + 1, |lines|, DIVIDER)
    case Err(MissingTail(file)) => exists h: nat, d: nat :: OpensAt(lines, h, file) && DividedAt(lines, h, d)
    case Err(NoBlocks) => false
  }

  /** Line number `n` is the first search head, and no file header stands above it. */
  predicate NoHeaderAbove(lines: seq<string>, n: nat) {
    && 1 <= n <= |lines| && KindOf(lines[n - 1]).Head?
    && forall i | 0 <= i < n - 1 :: !KindOf(lines[i]).Head? && !KindOf(lines[i]).FileHeader?
  }

  /** The first divider below `h` is at `d`, and no tail comes below it. */
  predicate DividedAt(lines: seq<string>, h: nat, d: nat) {
    h < d < |lines| && NoneIs(lines, h + 1, d, DIVIDER) && Trim(lines[d]) == DIVIDER
    && NoneIs(lines, d + 1, |lines|, REPLACE_TAIL)
  }

  // ----- what the parser knows at a line ---------------------------------------------------------

  ghost predicate Current(lines: seq<string>, spots: seq<Spot>, n: nat, current: Option<string>)
    requires n <= |lines|
  {
    match current
    case None => forall i | 0 <= i < n && Outside(spots, i) :: !KindOf(lines[i]).FileHeader?
    case Some(file) => HeaderFor(lines, spots, n, file)
  }

  ghost predicate Pending(lines: seq<string>, spots: seq<Spot>, n: nat, pending: Option<string>)
    requires n <= |lines|
  {
    match pending
    case None => forall i | 0 <= i < n && (forall j | i <= j < n :: Outside(spots, j)) :: !KindOf(lines[i]).NewFile?
    case Some(file) => MarkFor(lines, spots, n, file)
  }

  lemma HeaderIsUnique(lines: seq<string>, spots: seq<Spot>, n: nat, f: string, g: string)
    requires n <= |lines| && HeaderFor(lines, spots, n, f) && HeaderFor(lines, spots, n, g)
    ensures f == g
  {
    hide Outside, KindOf;
    var i: nat :| HeaderAt(lines, spots, n, i, f);
    var j: nat :| HeaderAt(lines, spots, n, j, g);
  }

  lemma MarkIsPending(lines: seq<string>, spots: seq<Spot>, n: nat, pending: Option<string>, file: string)
    requires n <= |lines| && Pending(lines, spots, n, pending)
    ensures pending == Some(file) <==> MarkFor(lines, spots, n, file)
  {
    hide Outside, KindOf;
    if i: nat :| MarkAt(lines, spots, n, i, file) {
      if pending.Some? {
        var j: nat :| MarkAt(lines, spots, n, j, pending.value);
      }
    }
  }

  function CurrentAfter(k: Kind, current: Option<string>): Option<string> {
    if k.FileHeader? then Some(k.file) else current
  }

  function PendingAfter(k: Kind, pending: Option<string>): Option<string> {
    if k.NewFile? then Some(k.name) else pending
  }

  lemma CurrentStep(lines: seq<string>, spots: seq<Spot>, n: nat, current: Option<string>)
    requires n < |lines| && Outside(spots, n) && Current(lines, spots, n, current)
    ensures Current(lines, spots, n + 1, CurrentAfter(KindOf(lines[n]), current))
  {
    hide Outside, KindOf;
    var k := KindOf(lines[n]);
    if k.FileHeader? {
      assert HeaderAt(lines, spots, n + 1, n, k.file);
    } else if current.Some? {
      var i: nat :| HeaderAt(lines, spots, n, i, current.value);
      assert HeaderAt(lines, spots, n + 1, i, current.value);
    }
  }

  lemma PendingStep(lines: seq<string>, spots: seq<Spot>, n: nat, pending: Option<string>)
    requires n < |lines| && Outside(spots, n) && Pending(lines, spots, n, pending)
    ensures Pending(lines, spots, n + 1, PendingAfter(KindOf(lines[n]), pending))
  {
    hide Outside, KindOf;
    var k := KindOf(lines[n]);
    if k.NewFile? {
      assert MarkAt(lines, spots, n + 1, n, k.name);
    } else if pending.Some? {
      var i: nat :| MarkAt(lines, spots, n, i, pending.value);
      assert MarkAt(lines, spots, n + 1, i, pending.value);
    } else {
      forall i | 0 <= i < n + 1 && (forall j | i <= j < n + 1 :: Outside(spots, j)) ensures !KindOf(lines[i]).NewFile? {
        if i < n {
          assert forall j | i <= j < n :: Outside(spots, j);
        }
      }
    }
  }

  lemma BlocksStep(lines: seq<string>, n: nat, current: Option<string>, pending: Option<string>)
    requires n < |lines| && !KindOf(lines[n]).Head?
    ensures var k := KindOf(lines[n]);
              Blocks(lines, n, current, pending) == Blocks(lines, n + 1, CurrentAfter(k, current), PendingAfter(k, pending))
  {
    hide KindOf;
  }

  lemma BlocksAtBlock(lines: seq<string>, s: Spot, current: string, pending: Option<string>)
    requires IsBlockAt(lines, s)
    ensures Blocks(lines, s.head, Some(current), pending)
         == Prepend([BlockOf(current, lines[s.head + 1..s.divider], lines[s.divider + 1..s.tail], pending)],
                    Blocks(lines, s.tail + 1, Some(current), None))
  {
    hide KindOf, Trim, Join, FirstMarker;
    FirstMarkerIs(lines, s.head + 1, DIVIDER, s.divider);
    FirstMarkerIs(lines, s.divider + 1, REPLACE_TAIL, s.tail);
  }

  // ----- after a block ---------------------------------------------------------------------------------

  lemma AfterBlock(lines: seq<string>, spots: seq<Spot>, k: nat, current: string)
    requires k < |spots| && IsBlockAt(lines, spots[k]) && HeaderFor(lines, spots, spots[k].head, current)
    ensures Current(lines, spots, spots[k].tail + 1, Some(current)) && Pending(lines, spots, spots[k].tail + 1, None)
  {
    var s := spots[k];
    assert forall j | s.head <= j <= s.tail :: !Outside(spots, j);
    hide KindOf, NoneIs, Outside;
    var i: nat :| HeaderAt(lines, spots, s.head, i, current);
    assert HeaderAt(lines, spots, s.tail + 1, i, current);
    assert !Outside(spots, s.tail);
  }

  predicate InOrder(spots: seq<Spot>, n: nat) {
    && (forall k | 0 <= k < |spots| :: spots[k].head < spots[k].tail < n)
    && (forall j, k | 0 <= j < k < |spots| :: spots[j].tail < spots[k].head)
  }

  lemma LayoutOrder(lines: seq<string>, spots: seq<Spot>, n: nat)
    requires n <= |lines| && Layout(lines, spots, n)
    ensures InOrder(spots, n)
  {
    hide KindOf, Trim, NoneIs, Outside;
  }

  lemma BlockIsRead(lines: seq<string>, spots: seq<Spot>, m: nat, bs: seq<Block>, k: nat, current: Option<string>, pending: Option<string>)
    requires m <= |lines| && Reads(lines, spots, m, bs) && k < |spots| && spots[k].head <= |lines|
    requires Current(lines, spots, spots[k].head, current) && Pending(lines, spots, spots[k].head, pending)
    ensures spots[k].tail < m && Blocks(lines, spots[k].head, current, pending)
         == Prepend([bs[k]], Blocks(lines, spots[k].tail + 1, Some(bs[k].file), None))
    ensures Current(lines, spots, spots[k].tail + 1, Some(bs[k].file)) && Pending(lines, spots, spots[k].tail + 1, None)
  {
    hide KindOf, Blocks, Current, Pending, HeaderFor, MarkFor, Trim, NoneIs, Join, Outside;
    var s, file := spots[k], bs[k].file;
    assert ReadsAs(lines, spots, s, bs[k]);
    CurrentIsHeader(lines, spots, s.head, current, file);
    MarkIsPending(lines, spots, s.head, pending, file);
    BlocksAtBlock(lines, s, file, pending);
    AfterBlock(lines, spots, k, file);
  }

  /** Reading along a layout gives its blocks. */
  lemma {:induction false} LayoutIsRead(lines: seq<string>, spots: seq<Spot>, m: nat, bs: seq<Block>, n: nat, k: nat,
                                        current: Option<string>, pending: Option<string>)
    returns (current': Option<string>, pending': Option<string>)
    requires m <= |lines| && Reads(lines, spots, m, bs) && k <= |spots| && n <= m
    requires (k > 0 ==> spots[k - 1].tail < n) && (k < |spots| ==> n <= spots[k].head)
    requires Current(lines, spots, n, current) && Pending(lines, spots, n, pending)
    ensures Current(lines, spots, m, current') && Pending(lines, spots, m, pending')
    ensures Blocks(lines, n, current, pending) == Prepend(bs[k..], Blocks(lines, m, current', pending'))
    decreases m - n
  {
    hide KindOf, Blocks, Current, Pending, HeaderFor, MarkFor, Trim, NoneIs, Join, Layout, ReadsAs, Outside;
    LayoutOrder(lines, spots, m);
    if k < |spots| && n == spots[k].head {
      var s := spots[k];
      BlockIsRead(lines, spots, m, bs, k, current, pending);
      current', pending' := LayoutIsRead(lines, spots, m, bs, s.tail + 1, k + 1, Some(bs[k].file), None);
      PrependTwice([bs[k]], bs[k + 1..], Blocks(lines, m, current', pending'));
      assert [bs[k]] + bs[k + 1..] == bs[k..];
    } else if n < m {
      OutsideHere(lines, spots, m, n, k);
      CurrentStep(lines, spots, n, current);
      PendingStep(lines, spots, n, pending);
      BlocksStep(lines, n, current, pending);
      current', pending' := LayoutIsRead(lines, spots, m, bs, n + 1, k, CurrentAfter(KindOf(lines[n]), current),
                                         PendingAfter(KindOf(lines[n]), pending));
    } else {
      AllRead(lines, spots, m, n, k);
      current', pending' := current, pending;
      assert bs[k..] == [];
      PrependNothing(Blocks(lines, m, current, pending));
    }
  }

  lemma PrependNothing(r: ParseResult)
    ensures Prepend([], r) == r
  {
    assert r.Ok? ==> [] + r.blocks == r.blocks;
  }

  lemma AllRead(lines: seq<string>, spots: seq<Spot>, m: nat, n: nat, k: nat)
    requires m <= |lines| && Layout(lines, spots, m) && k <= |spots| && n == m && (k < |spots| ==> n <= spots[k].head)
    ensures k == |spots|
  {
    hide KindOf, Outside;
  }

  lemma OutsideHere(lines: seq<string>, spots: seq<Spot>, m: nat, n: nat, k: nat)
    requires m <= |lines| && Layout(lines, spots, m) && k <= |spots| && n < m
    requires (k > 0 ==> spots[k - 1].tail < n) && (k < |spots| ==> n < spots[k].head)
    ensures Outside(spots, n) && !KindOf(lines[n]).Head?
  {
    hide KindOf, IsBlockAt;
    LayoutOrder(lines, spots, m);
    BetweenSpots(spots, m, n, k);
  }

  lemma BetweenSpots(spots: seq<Spot>, m: nat, n: nat, k: nat)
    requires InOrder(spots, m) && k <= |spots|
    requires (k > 0 ==> spots[k - 1].tail < n) && (k < |spots| ==> n < spots[k].head)
    ensures Outside(spots, n)
  {
  }

  lemma CurrentIsHeader(lines: seq<string>, spots: seq<Spot>, n: nat, current: Option<string>, file: string)
    requires n <= |lines| && Current(lines, spots, n, current) && HeaderFor(lines, spots, n, file)
    ensures current == Some(file)
  {
    hide Outside, KindOf;
    var i: nat :| HeaderAt(lines, spots, n, i, file);
    if current.Some? {
      HeaderIsUnique(lines, spots, n, current.value, file);
    }
  }

  lemma AtTheTop(lines: seq<string>, spots: seq<Spot>)
    ensures Current(lines, spots, 0, None) && Pending(lines, spots, 0, None)
  {
  }

  lemma StartsBelow(lines: seq<string>, spots: seq<Spot>, m: nat, bs: seq<Block>) returns (current: Option<string>, pending: Option<string>)
    requires m <= |lines| && Reads(lines, spots, m, bs)
    ensures Current(lines, spots, m, current) && Pending(lines, spots, m, pending)
    ensures Blocks(lines, 0, None, None) == Prepend(bs, Blocks(lines, m, current, pending))
  {
    hide KindOf, Blocks, Current, Pending, Reads;
    AtTheTop(lines, spots);
    current, pending := LayoutIsRead(lines, spots, m, bs, 0, 0, None, None);
    assert bs[0..] == bs;
  }

  /** An explained result is the parser's. */
  lemma ExplainedIsRead(lines: seq<string>, r: ParseResult)
    requires Explains(lines, r)
    ensures Blocks(lines, 0, None, None) == r
  {
    hide KindOf, Current, Pending, Reads, HeaderFor, Layout, Trim, NoneIs, FirstMarker;
    match r
    case Ok(bs) =>
      var spots :| Reads(lines, spots, |lines|, bs);
      var current, pending := StartsBelow(lines, spots, |lines|, bs);
      assert Blocks(lines, |lines|, current, pending) == Ok([]);
      assert bs + [] == bs;
    case Err(NoFilename(n)) =>
      NothingAbove(lines, n);
      var current, pending := StartsBelow(lines, [], n - 1, []);
      NoCurrent(lines, n - 1, current);
    case Err(MissingDivider(file)) =>
      var h: nat :| OpensAt(lines, h, file) && NoneIs(lines, h + 1, |lines|, DIVIDER);
      var spots, bs :| Reads(lines, spots, h, bs) && HeaderFor(lines, spots, h, file);
      var current, pending := StartsBelow(lines, spots, h, bs);
      CurrentIsHeader(lines, spots, h, current, file);
      FirstMarkerIs(lines, h + 1, DIVIDER, |lines|);
    case Err(MissingTail(file)) =>
      var h: nat, d: nat :| OpensAt(lines, h, file) && DividedAt(lines, h, d);
      var spots, bs :| Reads(lines, spots, h, bs) && HeaderFor(lines, spots, h, file);
      var current, pending := StartsBelow(lines, spots, h, bs);
      CurrentIsHeader(lines, spots, h, current, file);
      FirstMarkerIs(lines, h + 1, DIVIDER, d);
      FirstMarkerIs(lines, d + 1, REPLACE_TAIL, |lines|);
  }

  lemma NothingAbove(lines: seq<string>, n: nat)
    requires NoHeaderAbove(lines, n)
    ensures Reads(lines, [], n - 1, [])
  {
    hide KindOf;
  }

  lemma NoCurrent(lines: seq<string>, n: nat, current: Option<string>)
    requires n <= |lines| && Current(lines, [], n, current) && forall i | 0 <= i < n :: !KindOf(lines[i]).FileHeader?
    ensures current.None?
  {
    hide KindOf;
  }

  // ----- every result is explained ----------------------------------------------------------------------

  lemma MoreSpots(spots: seq<Spot>, s: Spot, n: nat)
    requires n <= s.head
    ensures forall i | i < n :: Outside(spots + [s], i) <==> Outside(spots, i)
  {
    forall i | i < n ensures Outside(spots + [s], i) <==> Outside(spots, i) {
      assert forall k | 0 <= k < |spots| :: (spots + [s])[k] == spots[k];
    }
  }

  lemma SameReading(lines: seq<string>, spots: seq<Spot>, s: Spot, n: nat, file: string)
    requires n <= s.head && n <= |lines|
    ensures HeaderFor(lines, spots + [s], n, file) <==> HeaderFor(lines, spots, n, file)
    ensures MarkFor(lines, spots + [s], n, file) <==> MarkFor(lines, spots, n, file)
  {
    MoreSpots(spots, s, n);
    hide Outside, KindOf;
    forall i: nat
      ensures HeaderAt(lines, spots + [s], n, i, file) <==> HeaderAt(lines, spots, n, i, file)
      ensures MarkAt(lines, spots + [s], n, i, file) <==> MarkAt(lines, spots, n, i, file)
    {
    }
  }

  lemma BlocksGrow(lines: seq<string>, spots: seq<Spot>, s: Spot)
    requires s.head <= |lines| && Layout(lines, spots, s.head) && IsBlockAt(lines, s)
    ensures forall k | 0 <= k <= |spots| :: IsBlockAt(lines, (spots + [s])[k]) && (spots + [s])[k].tail < s.tail + 1
    ensures forall j, k | 0 <= j < k <= |spots| :: (spots + [s])[j].tail < (spots + [s])[k].head
  {
    assert s.head < s.tail;
    hide IsBlockAt, KindOf, Outside;
  }

  lemma NoHeadOutside(lines: seq<string>, spots: seq<Spot>, s: Spot, i: nat)
    requires s.head <= |lines| && Layout(lines, spots, s.head) && s.tail < |lines|
    requires i < s.tail + 1 && Outside(spots + [s], i)
    ensures !KindOf(lines[i]).Head?
  {
    hide IsBlockAt, KindOf;
    var all := spots + [s];
    assert all[|spots|] == s;
    assert i < s.head;
    MoreSpots(spots, s, s.head);
  }

  lemma LayoutGrows(lines: seq<string>, spots: seq<Spot>, s: Spot)
    requires s.head <= |lines| && Layout(lines, spots, s.head) && IsBlockAt(lines, s)
    ensures Layout(lines, spots + [s], s.tail + 1)
  {
    assert s.tail < |lines|;
    BlocksGrow(lines, spots, s);
    hide IsBlockAt, KindOf, Outside;
    forall i: nat | i < s.tail + 1 && Outside(spots + [s], i) ensures !KindOf(lines[i]).Head? {
      NoHeadOutside(lines, spots, s, i);
    }
  }

  lemma ReadsGrow(lines: seq<string>, spots: seq<Spot>, bs: seq<Block>, s: Spot, file: string, pending: Option<string>)
    requires s.head <= |lines| && Reads(lines, spots, s.head, bs) && IsBlockAt(lines, s)
    requires HeaderFor(lines, spots, s.head, file) && Pending(lines, spots, s.head, pending)
    ensures Reads(lines, spots + [s], s.tail + 1,
                  bs + [BlockOf(file, lines[s.head + 1..s.divider], lines[s.divider + 1..s.tail], pending)])
  {
    hide KindOf, Trim, NoneIs, HeaderFor, MarkFor, Join, Pending, Outside;
    LayoutGrows(lines, spots, s);
    var b := BlockOf(file, lines[s.head + 1..s.divider], lines[s.divider + 1..s.tail], pending);
    var all := spots + [s];
    MarkIsPending(lines, spots, s.head, pending, file);
    SameReading(lines, spots, s, s.head, file);
    forall k | 0 <= k < |all| ensures ReadsAs(lines, all, all[k], (bs + [b])[k]) {
      if k < |spots| {
        assert ReadsAs(lines, spots, spots[k], bs[k]);
        SameReading(lines, spots, s, spots[k].head, bs[k].file);
      }
    }
  }

  lemma LayoutStep(lines: seq<string>, spots: seq<Spot>, n: nat)
    requires n < |lines| && Layout(lines, spots, n) && !KindOf(lines[n]).Head?
    ensures Layout(lines, spots, n + 1) && Outside(spots, n)
  {
    hide KindOf, Trim, NoneIs;
  }

  /** The blocks read so far and whatever the rest is read as. */
  lemma {:induction false} Explain(lines: seq<string>, spots: seq<Spot>, bs: seq<Block>, n: nat,
                                   current: Option<string>, pending: Option<string>)
    requires n <= |lines| && Reads(lines, spots, n, bs)
    requires Current(lines, spots, n, current) && Pending(lines, spots, n, pending)
    requires current.None? ==> spots == []
    ensures Explains(lines, Prepend(bs, Blocks(lines, n, current, pending)))
    decreases |lines| - n
  {
    hide KindOf, Current, Pending, HeaderFor, MarkFor, Trim, NoneIs, Join, Layout, Outside, FirstMarker, ReadsAs;
    if n == |lines| {
      assert bs + [] == bs;
    } else if !KindOf(lines[n]).Head? {
      LayoutStep(lines, spots, n);
      CurrentStep(lines, spots, n, current);
      PendingStep(lines, spots, n, pending);
      BlocksStep(lines, n, current, pending);
      Explain(lines, spots, bs, n + 1, CurrentAfter(KindOf(lines[n]), current), PendingAfter(KindOf(lines[n]), pending));
    } else if current.None? {
      NoHeaderYet(lines, n);
    } else {
      ExplainBlock(lines, spots, bs, n, current.value, pending);
    }
  }

  lemma NoHeaderYet(lines: seq<string>, n: nat)
    requires n < |lines| && KindOf(lines[n]).Head? && Layout(lines, [], n) && Current(lines, [], n, None)
    ensures NoHeaderAbove(lines, n + 1)
  {
    hide KindOf;
  }

  lemma {:induction false} ExplainBlock(lines: seq<string>, spots: seq<Spot>, bs: seq<Block>, n: nat, file: string, pending: Option<string>)
    requires n < |lines| && KindOf(lines[n]).Head? && Reads(lines, spots, n, bs)
    requires Current(lines, spots, n, Some(file)) && Pending(lines, spots, n, pending)
    ensures Explains(lines, Prepend(bs, Blocks(lines, n, Some(file), pending)))
    decreases |lines| - n, 0
  {
    hide KindOf, Pending, HeaderFor, MarkFor, Trim, Join, Layout, Outside, FirstMarker, ReadsAs;
    var d := FirstMarker(lines, n + 1, DIVIDER);
    FirstMarkerIs(lines, n + 1, DIVIDER, d);
    assert OpensAt(lines, n, file);
    if d < |lines| {
      var e := FirstMarker(lines, d + 1, REPLACE_TAIL);
      FirstMarkerIs(lines, d + 1, REPLACE_TAIL, e);
      if e < |lines| {
        var s := Spot(n, d, e);
        var b := BlockOf(file, lines[n + 1..d], lines[d + 1..e], pending);
        BlocksAtBlock(lines, s, file, pending);
        ReadsGrow(lines, spots, bs, s, file, pending);
        SameReading(lines, spots, s, n, file);
        AfterBlock(lines, spots + [s], |spots|, file);
        Explain(lines, spots + [s], bs + [b], e + 1, Some(file), None);
        PrependTwice(bs, [b], Blocks(lines, e + 1, Some(file), None));
      } else {
        assert DividedAt(lines, n, d);
      }
    }
  }

  lemma EveryResultExplained(lines: seq<string>)
    ensures Explains(lines, Blocks(lines, 0, None, None))
  {
    hide KindOf, Blocks, Current, Pending, Explains;
    AtTheTop(lines, []);
    assert Reads(lines, [], 0, []) by { NothingRead(lines); }
    Explain(lines, [], [], 0, None, None);
    PrependNothing(Blocks(lines, 0, None, None));
  }

  lemma NothingRead(lines: seq<string>)
    ensures Reads(lines, [], 0, [])
  {
  }

  // ----- the laws ------------------------------------------------------------------------------------------

  /** A text is read as these blocks exactly if its lines are laid out as such. */
  lemma ReadingExactly(text: string, bs: seq<Block>)
    ensures var lines := SplitLines(text);
              Parse(text) == Ok(bs) <==> bs != [] && Means(lines, bs)
  {
    hide Blocks, Means, SplitLines;
    var lines := SplitLines(text);
    EveryResultExplained(lines);
    if Means(lines, bs) {
      ExplainedIsRead(lines, Ok(bs));
    }
    if Parse(text) == Ok(bs) {
      assert Explains(lines, Ok(bs));
    }
  }

  /** And each error is raised exactly on the texts it speaks of. */
  lemma ErrorsExactly(text: string, n: nat, file: string)
    ensures var lines := SplitLines(text);
              && (Parse(text) == Err(NoBlocks) <==> forall i | 0 <= i < |lines| :: !KindOf(lines[i]).Head?)
              && (Parse(text) == Err(NoFilename(n)) <==> NoHeaderAbove(lines, n))
              && (Parse(text) == Err(MissingDivider(file)) <==>
                    exists h: nat :: OpensAt(lines, h, file) && NoneIs(lines, h + 1, |lines|, DIVIDER))
              && (Parse(text) == Err(MissingTail(file)) <==>
                    exists h: nat, d: nat :: OpensAt(lines, h, file) && DividedAt(lines, h, d))
  {
    hide KindOf, Blocks, OpensAt, NoHeaderAbove, DividedAt, NoneIs, SplitLines;
    var lines := SplitLines(text);
    EveryResultExplained(lines);
    OnlyOneExplained(lines, Ok([]));
    OnlyOneExplained(lines, Err(NoFilename(n)));
    OnlyOneExplained(lines, Err(MissingDivider(file)));
    OnlyOneExplained(lines, Err(MissingTail(file)));
    NoHeadNoBlocks(lines);
  }

  lemma OnlyOneExplained(lines: seq<string>, r: ParseResult)
    ensures Explains(lines, r) ==> Blocks(lines, 0, None, None) == r
  {
    hide Explains, Blocks;
    if Explains(lines, r) {
      ExplainedIsRead(lines, r);
    }
  }

  lemma NoHeadNoBlocks(lines: seq<string>)
    ensures (forall i | 0 <= i < |lines| :: !KindOf(lines[i]).Head?) <==> Explains(lines, Ok([]))
  {
    hide KindOf;
    if forall i | 0 <= i < |lines| :: !KindOf(lines[i]).Head? {
      assert Reads(lines, [], |lines|, []);
    }
    if spots :| Reads(lines, spots, |lines|, []) {
      assert spots == [];
      assert forall i :: Outside(spots, i);
    }
  }
}
