/** What the block appliers guarantee: files do not influence each other, errors and edits
    account for every block, and the disk applier refines the in-memory one. */
module AiderLaws {
  import opened Options
  import opened Text
  import opened Occurrences
  import opened AiderApply

  // ----- one file's share of a run ---------------------------------------------------------

  function Own(bs: seq<Block>, file: string): seq<Block> {
    if bs == [] then []
    else
      var n := |bs| - 1;
      Own(bs[..n], file) + if bs[n].file == file then [bs[n]] else []
  }

  datatype FileRun = FileRun(state: Option<FileState>, reasons: seq<Reason>)

  function RunFile(w: World, own: seq<Block>): FileRun {
    if own == [] then FileRun(None, [])
    else
      var n := |own| - 1;
      var before := RunFile(w, own[..n]);
      var o := Step(w, own[n], before.state);
      FileRun(o.state, before.reasons + if o.error.Some? then [o.error.value] else [])
  }

  function ReasonsFor(errors: seq<ApplyError>, file: string): seq<Reason> {
    if errors == [] then []
    else
      var n := |errors| - 1;
      ReasonsFor(errors[..n], file) + if errors[n].file == file then [errors[n].reason] else []
  }

  lemma RunFileLast(w: World, own: seq<Block>, b: Block)
    ensures var before := RunFile(w, own);
              var o := Step(w, b, before.state);
              RunFile(w, own + [b]) == FileRun(o.state, before.reasons + if o.error.Some? then [o.error.value] else [])
  {
    hide Step;
    assert (own + [b])[..|own|] == own;
  }

  lemma ReasonsForLast(errors: seq<ApplyError>, e: ApplyError, file: string)
    ensures ReasonsFor(errors + [e], file) == ReasonsFor(errors, file) + if e.file == file then [e.reason] else []
  {
    assert (errors + [e])[..|errors|] == errors;
  }

  lemma PutOnFile(s: Store, index: nat, b: Block, o: Outcome, file: string)
    requires b.file in s.state ==> o.state.Some?
    ensures Put(s, index, b.file, o).Get(file) == if file == b.file then o.state else s.Get(file)
    ensures ReasonsFor(Put(s, index, b.file, o).errors, file)
         == ReasonsFor(s.errors, file) + if file == b.file && o.error.Some? then [o.error.value] else []
  {
    hide ReasonsFor;
    if o.error.Some? {
      ReasonsForLast(s.errors, ApplyError(b.file, index, o.error.value), file);
    }
  }

  /** A run over many files is, on each file, the run over that file's own blocks. */
  lemma {:induction false} Projection(w: World, bs: seq<Block>, file: string)
    ensures RunBlocks(w, bs).Get(file) == RunFile(w, Own(bs, file)).state
    ensures ReasonsFor(RunBlocks(w, bs).errors, file) == RunFile(w, Own(bs, file)).reasons
    decreases bs
  {
    if bs != [] {
      hide Step, Put, ReasonsFor, RunFile;
      var n := |bs| - 1;
      Projection(w, bs[..n], file);
      var s, b := RunBlocks(w, bs[..n]), bs[n];
      PutOnFile(s, n, b, Step(w, b, s.Get(b.file)), file);
      if b.file == file {
        RunFileLast(w, Own(bs[..n], file), b);
      } else {
        assert Own(bs, file) == Own(bs[..n], file);
      }
    }
  }

  lemma {:induction false} OwnKeepsNew(bs: seq<Block>, file: string)
    ensures HasNew(bs, file) <==> HasNew(Own(bs, file), file)
    decreases bs
  {
    if bs != [] {
      var n := |bs| - 1;
      OwnKeepsNew(bs[..n], file);
      HasNewLast(bs[..n], bs[n], file);
      assert bs == bs[..n] + [bs[n]];
      if bs[n].file == file {
        HasNewLast(Own(bs[..n], file), bs[n], file);
      } else {
        assert Own(bs, file) == Own(bs[..n], file);
      }
    }
  }

  lemma HasNewLast(bs: seq<Block>, b: Block, file: string)
    ensures HasNew(bs + [b], file) <==> HasNew(bs, file) || (b.isNewFile && b.file == file)
  {
    var all := bs + [b];
    assert forall i | 0 <= i < |bs| :: all[i] == bs[i];
    assert all[|bs|] == b;
  }

  // ----- files are independent ---------------------------------------------------------------

  /** `cs` lists the blocks of `bs` with each file's blocks in the same order. */
  ghost predicate SamePerFile(bs: seq<Block>, cs: seq<Block>) {
    forall file :: Own(bs, file) == Own(cs, file)
  }

  function Pairs(errors: seq<ApplyError>): multiset<(string, Reason)> {
    if errors == [] then multiset{}
    else
      var n := |errors| - 1;
      Pairs(errors[..n]) + multiset{(errors[n].file, errors[n].reason)}
  }

  lemma {:induction false} PairsByFile(errors: seq<ApplyError>, file: string, reason: Reason)
    ensures Pairs(errors)[(file, reason)] == multiset(ReasonsFor(errors, file))[reason]
    decreases errors
  {
    if errors != [] {
      PairsByFile(errors[..|errors| - 1], file, reason);
    }
  }

  /** Reordering blocks without reordering any one file's blocks changes neither the
      before/after map nor the errors (up to block index), only the order of listing. */
  lemma FilesAreIndependent(w: World, bs: seq<Block>, cs: seq<Block>)
    requires SamePerFile(bs, cs)
    ensures Apply(w, bs).beforeAfter == Apply(w, cs).beforeAfter
    ensures forall file :: ReasonsFor(Apply(w, bs).errors, file) == ReasonsFor(Apply(w, cs).errors, file)
    ensures Pairs(Apply(w, bs).errors) == Pairs(Apply(w, cs).errors)
    ensures multiset(Apply(w, bs).appliedFiles) == multiset(Apply(w, cs).appliedFiles)
  {
    var s, t := RunBlocks(w, bs), RunBlocks(w, cs);
    forall file
      ensures s.Get(file) == t.Get(file) && (HasNew(bs, file) <==> HasNew(cs, file))
      ensures ReasonsFor(s.errors, file) == ReasonsFor(t.errors, file)
    {
      SameOnFile(w, bs, cs, file);
    }
    SameStateSameChanges(s, t, bs, cs);
    SameReasonsSamePairs(s.errors, t.errors);
    AppliedFilesAreChanges(w, bs);
    AppliedFilesAreChanges(w, cs);
    DistinctSameElements(Apply(w, bs).appliedFiles, Apply(w, cs).appliedFiles);
  }

  lemma SameOnFile(w: World, bs: seq<Block>, cs: seq<Block>, file: string)
    requires Own(bs, file) == Own(cs, file)
    ensures RunBlocks(w, bs).Get(file) == RunBlocks(w, cs).Get(file) && (HasNew(bs, file) <==> HasNew(cs, file))
    ensures ReasonsFor(RunBlocks(w, bs).errors, file) == ReasonsFor(RunBlocks(w, cs).errors, file)
  {
    Projection(w, bs, file);
    Projection(w, cs, file);
    OwnKeepsNew(bs, file);
    OwnKeepsNew(cs, file);
  }

  lemma SameStateSameChanges(s: Store, t: Store, bs: seq<Block>, cs: seq<Block>)
    requires forall file :: s.Get(file) == t.Get(file) && (HasNew(bs, file) <==> HasNew(cs, file))
    ensures Changes(s, bs) == Changes(t, cs)
  {
    hide HasNew;
    forall file
      ensures file in s.state <==> file in t.state
      ensures file in s.state ==> s.state[file] == t.state[file]
    {
      assert s.Get(file) == t.Get(file);
    }
  }

  lemma SameReasonsSamePairs(es: seq<ApplyError>, fs: seq<ApplyError>)
    requires forall file :: ReasonsFor(es, file) == ReasonsFor(fs, file)
    ensures Pairs(es) == Pairs(fs)
  {
    hide Pairs, ReasonsFor;
    forall p: (string, Reason) ensures Pairs(es)[p] == Pairs(fs)[p] {
      PairsByFile(es, p.0, p.1);
      PairsByFile(fs, p.0, p.1);
    }
  }

  lemma {:induction false} DistinctCount(fs: seq<string>, f: string)
    requires Distinct(fs)
    ensures multiset(fs)[f] == if f in fs then 1 else 0
  {
    if fs != [] {
      var n := |fs| - 1;
      DistinctCount(fs[..n], f);
      assert fs == fs[..n] + [fs[n]];
    }
  }

  lemma DistinctSameElements(fs: seq<string>, gs: seq<string>)
    requires Distinct(fs) && Distinct(gs) && forall f :: f in fs <==> f in gs
    ensures multiset(fs) == multiset(gs)
  {
    forall f ensures multiset(fs)[f] == multiset(gs)[f] {
      DistinctCount(fs, f);
      DistinctCount(gs, f);
    }
  }

  // ----- a file's text is the fold of its successful edits --------------------------------------

  function Successful(w: World, own: seq<Block>): seq<Block> {
    if own == [] then []
    else
      var n := |own| - 1;
      var o := Step(w, own[n], RunFile(w, own[..n]).state);
      Successful(w, own[..n]) + if o.error.None? then [own[n]] else []
  }

  /** Every edit in order, or nothing if one is refused. */
  function EditAll(text: string, bs: seq<Block>): Option<string> {
    if bs == [] then Some(text)
    else
      var n := |bs| - 1;
      match EditAll(text, bs[..n])
      case None => None
      case Some(t) => match Edit(t, bs[n]) { case Refused(_) => None case Edited(u) => Some(u) }
  }

  ghost predicate IsFold(st: Option<FileState>, good: seq<Block>) {
    match st
    case None => good == []
    case Some(fs) =>
      EditAll(fs.before, good) == Some(fs.text)
  }

  lemma EditAllLast(text: string, good: seq<Block>, b: Block, t: string)
    requires EditAll(text, good) == Some(t) && Edit(t, b).Edited?
    ensures EditAll(text, good + [b]) == Some(Edit(t, b).text)
  {
    hide Edit;
    assert (good + [b])[..|good|] == good;
  }

  lemma FoldStep(w: World, b: Block, st: Option<FileState>, good: seq<Block>)
    requires IsFold(st, good)
    ensures var o := Step(w, b, st);
              IsFold(o.state, good + if o.error.None? then [b] else [])
  {
    hide Edit, Load, Taken, EditAll;
    var load, o := Open(w, b, st), Step(w, b, st);
    assert good + [] == good;
    if load.state.Some? {
      var fs := load.state.value;
      assert EditAll(fs.before, good) == Some(fs.text) by { NoEdits(fs.before); }
      if o.error.None? {
        EditAllLast(fs.before, good, b, fs.text);
      }
    }
  }

  lemma NoEdits(text: string)
    ensures EditAll(text, []) == Some(text)
  {
  }

  lemma {:induction false} FoldOfOwn(w: World, own: seq<Block>)
    ensures IsFold(RunFile(w, own).state, Successful(w, own))
    decreases own
  {
    hide Step, IsFold;
    if own == [] {
      NothingFolded();
    } else {
      var n := |own| - 1;
      FoldOfOwn(w, own[..n]);
      FoldStep(w, own[n], RunFile(w, own[..n]).state, Successful(w, own[..n]));
    }
  }

  lemma NothingFolded()
    ensures IsFold(None, [])
  {
  }

  // ----- which block opens a file, and with what text ----------------------------------------------

  /** The text a block gives its file if no earlier block opened it; none if it cannot open it. */
  function OpensWith(w: World, b: Block): Option<string> {
    if !b.isNewFile then Load(w, b.file) else if Taken(w, b.file) then None else Some("")
  }

  /** The first of a file's own blocks that can open it gives it `text`. */
  predicate OpenedAt(w: World, own: seq<Block>, i: nat, text: string) {
    i < |own| && OpensWith(w, own[i]) == Some(text) && forall j | 0 <= j < i :: OpensWith(w, own[j]).None?
  }

  lemma StepOpens(w: World, b: Block, st: Option<FileState>)
    ensures var before := if st.Some? then Some(st.value.before) else OpensWith(w, b);
              var o := Step(w, b, st);
              (o.state.Some? <==> before.Some?) && (o.state.Some? ==> Some(o.state.value.before) == before)
  {
    hide Edit, Load, Taken;
  }

  lemma {:induction false} FirstOpener(w: World, own: seq<Block>)
    ensures var st := RunFile(w, own).state;
              && (st.None? ==> forall i | 0 <= i < |own| :: OpensWith(w, own[i]).None?)
              && (st.Some? ==> exists i: nat :: OpenedAt(w, own, i, st.value.before))
    decreases own
  {
    if own != [] {
      hide Step, OpensWith;
      var n := |own| - 1;
      var st := RunFile(w, own[..n]).state;
      FirstOpener(w, own[..n]);
      StepOpens(w, own[n], st);
      if st.Some? {
        var i: nat :| OpenedAt(w, own[..n], i, st.value.before);
        assert OpenedAt(w, own, i, st.value.before);
      } else {
        assert forall j | 0 <= j < n :: own[..n][j] == own[j];
        assert OpensWith(w, own[n]).Some? ==> OpenedAt(w, own, n, OpensWith(w, own[n]).value);
      }
    }
  }

  /** Some block of `bs` for `file` can open it. */
  predicate CanBeOpened(w: World, bs: seq<Block>, file: string) {
    exists i | 0 <= i < |bs| :: bs[i].file == file && OpensWith(w, bs[i]).Some?
  }

  lemma CanBeOpenedLast(w: World, bs: seq<Block>, b: Block, file: string)
    ensures CanBeOpened(w, bs + [b], file) <==> CanBeOpened(w, bs, file) || (b.file == file && OpensWith(w, b).Some?)
  {
    hide OpensWith;
    var all := bs + [b];
    assert forall i | 0 <= i < |bs| :: all[i] == bs[i];
    assert all[|bs|] == b;
  }

  lemma {:induction false} OpenedExactly(w: World, bs: seq<Block>, file: string)
    ensures CanBeOpened(w, bs, file) <==> RunFile(w, Own(bs, file)).state.Some?
    decreases bs
  {
    if bs != [] {
      hide Step, OpensWith, CanBeOpened, RunFile;
      var n := |bs| - 1;
      var b, own := bs[n], Own(bs[..n], file);
      OpenedExactly(w, bs[..n], file);
      CanBeOpenedLast(w, bs[..n], b, file);
      assert bs == bs[..n] + [b];
      if b.file == file {
        RunFileLast(w, own, b);
        StepOpens(w, b, RunFile(w, own).state);
      } else {
        assert Own(bs, file) == own;
      }
    } else {
      NothingOpened(w, file);
    }
  }

  lemma NothingOpened(w: World, file: string)
    ensures !CanBeOpened(w, [], file) && RunFile(w, []).state.None?
  {
  }

  /** A file's reported text is its successful blocks, in order, applied to its first text: the
      loaded one, or the empty one if a new-file block was the first that could open it. */
  lemma FinalTextIsFold(w: World, bs: seq<Block>, file: string)
    requires file in Apply(w, bs).beforeAfter
    ensures var (before, after) := Apply(w, bs).beforeAfter[file];
              && (exists i: nat :: OpenedAt(w, Own(bs, file), i, before))
              && EditAll(before, Successful(w, Own(bs, file))) == Some(after)
  {
    hide EditAll, Successful, OpenedAt, RunFile, RunBlocks, Own;
    Projection(w, bs, file);
    FirstOpener(w, Own(bs, file));
    FoldOfOwn(w, Own(bs, file));
  }

  // ----- every block is one error or one edit ------------------------------------------------------

  function OutcomeAt(w: World, bs: seq<Block>, i: nat): Outcome
    requires i < |bs|
  {
    Step(w, bs[i], RunBlocks(w, bs[..i]).Get(bs[i].file))
  }

  /** Error `e` is the failure of the block it names. */
  predicate IsFailure(w: World, bs: seq<Block>, e: ApplyError) {
    e.blockIndex < |bs| && e.file == bs[e.blockIndex].file && OutcomeAt(w, bs, e.blockIndex).error == Some(e.reason)
  }

  predicate Listed(errors: seq<ApplyError>, i: nat) {
    exists j | 0 <= j < |errors| :: errors[j].blockIndex == i
  }

  ghost predicate ErrorsAreOutcomes(w: World, bs: seq<Block>, errors: seq<ApplyError>) {
    && (forall j | 0 <= j < |errors| :: IsFailure(w, bs, errors[j]))
    && (forall j, k | 0 <= j < k < |errors| :: errors[j].blockIndex < errors[k].blockIndex)
    && (forall i | 0 <= i < |bs| :: OutcomeAt(w, bs, i).error.Some? <==> Listed(errors, i))
  }

  lemma OutcomeOfPrefix(w: World, bs: seq<Block>, n: nat, i: nat)
    requires i < n <= |bs|
    ensures OutcomeAt(w, bs[..n], i) == OutcomeAt(w, bs, i)
  {
    assert bs[..n][..i] == bs[..i];
  }

  lemma ListedLast(errors: seq<ApplyError>, e: ApplyError, i: nat)
    ensures Listed(errors + [e], i) <==> Listed(errors, i) || e.blockIndex == i
  {
    var all := errors + [e];
    assert forall j | 0 <= j < |errors| :: all[j] == errors[j];
    assert all[|errors|] == e;
  }

  lemma AddOutcome(w: World, bs: seq<Block>, n: nat, errors: seq<ApplyError>, all: seq<ApplyError>)
    requires |bs| == n + 1 && ErrorsAreOutcomes(w, bs[..n], errors)
    requires var o := OutcomeAt(w, bs, n);
              all == errors + if o.error.Some? then [ApplyError(bs[n].file, n, o.error.value)] else []
    ensures ErrorsAreOutcomes(w, bs, all)
  {
    hide OutcomeAt, Listed;
    forall i | 0 <= i < n ensures OutcomeAt(w, bs[..n], i) == OutcomeAt(w, bs, i) {
      OutcomeOfPrefix(w, bs, n, i);
    }
    forall j | 0 <= j < |all| ensures IsFailure(w, bs, all[j]) {
      if j < |errors| {
        assert IsFailure(w, bs[..n], errors[j]);
      }
    }
    assert !Listed(errors, n) by { NotListed(errors, n); }
    if OutcomeAt(w, bs, n).error.Some? {
      forall i: nat ensures Listed(all, i) <==> Listed(errors, i) || i == n {
        ListedLast(errors, all[|errors|], i);
      }
    } else {
      assert all == errors;
    }
  }

  lemma NotListed(errors: seq<ApplyError>, n: nat)
    requires forall j | 0 <= j < |errors| :: errors[j].blockIndex < n
    ensures !Listed(errors, n)
  {
  }

  /** Errors come in block order, one for each block that failed and none for any other. */
  lemma {:induction false} ErrorPerFailedBlock(w: World, bs: seq<Block>)
    ensures ErrorsAreOutcomes(w, bs, RunBlocks(w, bs).errors)
    decreases bs
  {
    if bs != [] {
      hide Step, ErrorsAreOutcomes;
      var n := |bs| - 1;
      ErrorPerFailedBlock(w, bs[..n]);
      AddOutcome(w, bs, n, RunBlocks(w, bs[..n]).errors, RunBlocks(w, bs).errors);
    }
  }

  /** A failing block changes no loaded text; a succeeding one changes only its own file's. */
  lemma BlockTouchesOneText(w: World, bs: seq<Block>, i: nat)
    requires i < |bs|
    ensures var s, t := RunBlocks(w, bs[..i]), RunBlocks(w, bs[..i + 1]);
              var o := OutcomeAt(w, bs, i);
              && (forall f | f in s.state && (o.error.Some? || f != bs[i].file) :: f in t.state && t.state[f] == s.state[f])
              && (o.error.None? && bs[i].file in s.state ==>
                    bs[i].file in t.state && Edit(s.state[bs[i].file].text, bs[i]) == Edited(t.state[bs[i].file].text))
  {
    hide Edit;
    RunBlocksStep(w, bs, i);
  }

  /** `n` is the largest number of occurrences no two of which overlap. */
  ghost predicate MostDisjoint(s: string, p: string, n: nat) {
    && (exists ks :: |ks| == n && DisjointOccurrences(s, p, 0, ks))
    && forall ks | DisjointOccurrences(s, p, 0, ks) :: |ks| <= n
  }

  lemma CountIsMostDisjoint(s: string, p: string, n: nat)
    requires p != ""
    ensures Count(s, p, 0) == n <==> MostDisjoint(s, p, n)
  {
    hide DisjointOccurrences, Count;
    CountIsMaximal(s, p, n);
    CountIsMaximal(s, p, Count(s, p, 0));
    forall ks | DisjointOccurrences(s, p, 0, ks) ensures |ks| <= Count(s, p, 0) {
      CountBounds(s, p, 0, ks);
    }
  }

  /** When an edit succeeds and why it is refused, in terms of where the SEARCH text occurs. */
  lemma EditOutcomes(text: string, b: Block)
    ensures b.search == "" ==> Edit(text, b) == Edited(if b.isNewFile then b.replace else text + b.replace)
    ensures Edit(text, b) == Refused(AnchorOnPlaceholder) <==> b.search != "" && MentionsPlaceholder(b.search)
    ensures b.search != "" && !MentionsPlaceholder(b.search) ==>
              && (Edit(text, b).Edited? <==> exists k: nat :: LoneCluster(text, b.search, k))
              && (Edit(text, b) == Refused(AnchorNotFound) <==> forall j: nat :: !OccursAt(text, b.search, j))
              && (forall n: nat :: Edit(text, b) == Refused(AnchorAmbiguous(n)) <==> n >= 2 && MostDisjoint(text, b.search, n))
  {
    hide MentionsPlaceholder, MostDisjoint, Count, LoneCluster, Find, OccursAt;
    if b.search != "" {
      CountZero(text, b.search, 0);
      CountOne(text, b.search);
      forall n: nat ensures Count(text, b.search, 0) == n <==> MostDisjoint(text, b.search, n) {
        CountIsMostDisjoint(text, b.search, n);
      }
    }
  }

  /** The successful edit with a SEARCH text: the leftmost occurrence goes, the rest stays, and
      every other occurrence overlapped the replaced one. */
  lemma EditReplacesTheMatch(text: string, b: Block, after: string)
    requires b.search != "" && Edit(text, b) == Edited(after)
    ensures exists k: nat ::
              && LoneCluster(text, b.search, k)
              && after == text[..k] + b.replace + text[k + |b.search|..]
  {
    CountOne(text, b.search);
  }

  lemma OpenedOnce(w: World, own: seq<Block>, i: nat, j: nat, s: string, t: string)
    requires OpenedAt(w, own, i, s) && OpenedAt(w, own, j, t)
    ensures i == j && s == t
  {
    hide OpensWith;
  }

  /** A file is reported exactly if some block of its own can open it and, from the text that gives
      it, its successful blocks lead to another one or one of its blocks, failed or not, is a
      new-file block. */
  lemma ReportedIffChangedOrNew(w: World, bs: seq<Block>, file: string)
    ensures file in Apply(w, bs).beforeAfter <==>
            exists i: nat, first ::
              && OpenedAt(w, Own(bs, file), i, first)
              && (HasNew(bs, file) || EditAll(first, Successful(w, Own(bs, file))) != Some(first))
  {
    hide Successful, OpenedAt, RunFile, RunBlocks, Own, HasNew, CanBeOpened, EditAll;
    var own := Own(bs, file);
    Projection(w, bs, file);
    FirstOpener(w, own);
    FoldOfOwn(w, own);
    var st := RunFile(w, own).state;
    forall i: nat, first | OpenedAt(w, own, i, first) ensures st.Some? && st.value.before == first {
      OpenerOpens(w, own, i, first);
      var k: nat :| OpenedAt(w, own, k, st.value.before);
      OpenedOnce(w, own, i, k, first, st.value.before);
    }
  }

  lemma OpenerOpens(w: World, own: seq<Block>, i: nat, first: string)
    requires OpenedAt(w, own, i, first)
    ensures RunFile(w, own).state.Some?
  {
    hide RunFile, OpensWith;
    FirstOpener(w, own);
    assert OpensWith(w, own[i]).Some?;
  }

  /** A file none of whose blocks succeeds is reported all the same exactly if one of them is a
      new-file block and one of them, not always the same, can open the file. */
  lemma FailedNewFileIsReported(w: World, bs: seq<Block>, file: string)
    requires Successful(w, Own(bs, file)) == []
    ensures file in Apply(w, bs).beforeAfter <==> HasNew(bs, file) && CanBeOpened(w, bs, file)
    ensures file in Apply(w, bs).beforeAfter ==>
              var (before, after) := Apply(w, bs).beforeAfter[file];
              before == after && exists i: nat :: OpenedAt(w, Own(bs, file), i, before)
  {
    hide Successful, OpenedAt, RunFile, RunBlocks, Own, HasNew, CanBeOpened;
    Projection(w, bs, file);
    OpenedExactly(w, bs, file);
    FirstOpener(w, Own(bs, file));
    FoldOfOwn(w, Own(bs, file));
  }

  /** It happens: a new-file block whose SEARCH is not empty fails, yet its file is reported, empty. */
  lemma LoneFailedNewFile(w: World, b: Block)
    requires b.isNewFile && b.search != "" && !Taken(w, b.file)
    ensures Apply(w, [b]).beforeAfter == map[b.file := ("", "")]
    ensures |Apply(w, [b]).errors| == 1
  {
    hide Taken, MentionsPlaceholder, Apply;
    assert Count("", b.search, 0) == 0;
    OneBlock(w, b, Step(w, b, None));
  }

  lemma OneReported(s: Store, bs: seq<Block>, file: string)
    requires file in s.state && HasNew(bs, file)
    ensures ReportedFiles(s, bs, [file]) == [file]
  {
    assert [file][..0] == [];
    NothingReported(s, bs);
    hide HasNew;
  }

  lemma OneBlock(w: World, b: Block, o: Outcome)
    requires Step(w, b, None) == o && b.isNewFile
    ensures var r, errors := Apply(w, [b]), if o.error.Some? then [ApplyError(b.file, 0, o.error.value)] else [];
              r == if o.state.None? then ApplyResult([], errors, map[])
                   else ApplyResult([b.file], errors, map[b.file := (o.state.value.before, o.state.value.text)])
  {
    hide Step, RunBlocks, HasNew, ReportedFiles;
    var s := RunBlocks(w, [b]);
    OneBlockStore(w, b);
    OneNew(b);
    if o.state.Some? {
      assert s.order == [b.file];
      OneReported(s, [b], b.file);
      assert Changes(s, [b]) == map[b.file := (o.state.value.before, o.state.value.text)];
    } else {
      NothingReported(s, [b]);
      assert Changes(s, [b]) == map[];
    }
  }

  lemma OneBlockStore(w: World, b: Block)
    ensures RunBlocks(w, [b]) == Put(Store(map[], [], []), 0, b.file, Step(w, b, None))
  {
    hide Step;
    RunBlocksStep(w, [b], 0);
    NoBlocksRun(w, [b]);
    assert [b][..1] == [b];
  }

  lemma OneNew(b: Block)
    ensures HasNew([b], b.file) <==> b.isNewFile
  {
    assert [b][0] == b;
  }

  lemma NothingReported(s: Store, bs: seq<Block>)
    ensures ReportedFiles(s, bs, []) == []
  {
  }

  // ----- why a block fails -------------------------------------------------------------------------

  predicate NamedBy(bs: seq<Block>, i: nat, file: string, isNew: bool)
    requires i <= |bs|
  {
    exists j | 0 <= j < i :: bs[j].file == file && bs[j].isNewFile == isNew
  }

  lemma EditReasons(text: string, b: Block)
    ensures Edit(text, b).Refused? ==> !Edit(text, b).reason.NewFileTaken? && !Edit(text, b).reason.FileMissing? && !Edit(text, b).reason.NotUtf8?
  {
    hide MentionsPlaceholder;
  }

  lemma LoadErrors(w: World, b: Block, st: Option<FileState>)
    ensures var e := Step(w, b, st).error;
              && (e == Some(NewFileTaken) <==> st.None? && b.isNewFile && Taken(w, b.file))
              && (e == Some(FileMissing) <==> st.None? && !b.isNewFile && Load(w, b.file).None? && LoadError(w, b.file).FileMissing?)
              && (e == Some(NotUtf8) <==> st.None? && !b.isNewFile && Load(w, b.file).None? && LoadError(w, b.file).NotUtf8?)
  {
    hide Edit, Load, Taken;
    var load := Open(w, b, st);
    if load.state.Some? {
      EditReasons(load.state.value.text, b);
    }
  }

  lemma OpenedBefore(w: World, bs: seq<Block>, i: nat, file: string)
    requires i <= |bs|
    ensures RunBlocks(w, bs[..i]).Get(file).Some? <==> exists j | 0 <= j < i :: bs[j].file == file && OpensWith(w, bs[j]).Some?
  {
    hide RunBlocks, RunFile, Own, OpensWith;
    Projection(w, bs[..i], file);
    OpenedExactly(w, bs[..i], file);
    assert forall j | 0 <= j < i :: bs[..i][j] == bs[j];
  }

  /** On disk a new-file block is refused exactly for an existing file that no block before it has
      read; another block fails to load exactly a file that does not exist and was not created
      before, or one that is not UTF-8. */
  lemma LoadErrorsOnDisk(files: map<string, DiskFile>, bs: seq<Block>, i: nat)
    requires i < |bs|
    ensures var b, e := bs[i], OutcomeAt(Disk(files), bs, i).error;
              var f := b.file;
              && (e == Some(NewFileTaken) <==> b.isNewFile && f in files && !(files[f].Utf8? && NamedBy(bs, i, f, false)))
              && (e == Some(FileMissing) <==> !b.isNewFile && f !in files && !NamedBy(bs, i, f, true))
              && (e == Some(NotUtf8) <==> !b.isNewFile && f in files && files[f].Binary?)
  {
    hide Step, RunBlocks, UniversalNewlines;
    var w, f := Disk(files), bs[i].file;
    LoadErrors(w, bs[i], RunBlocks(w, bs[..i]).Get(f));
    OpenedBefore(w, bs, i, f);
  }

  /** In memory it is refused exactly over text that no block before it has loaded; another block
      fails to load exactly a file that was not given and not created before. */
  lemma LoadErrorsInMemory(originals: map<string, string>, bs: seq<Block>, i: nat)
    requires i < |bs|
    ensures var b, e := bs[i], OutcomeAt(Memory(originals), bs, i).error;
              var f := b.file;
              && (e == Some(NewFileTaken) <==>
                    b.isNewFile && f in originals && Trim(originals[f]) != "" && !NamedBy(bs, i, f, false))
              && (e == Some(FileMissing) <==> !b.isNewFile && f !in originals && !NamedBy(bs, i, f, true))
              && e != Some(NotUtf8)
  {
    hide Step, RunBlocks, Trim;
    var w, f := Memory(originals), bs[i].file;
    LoadErrors(w, bs[i], RunBlocks(w, bs[..i]).Get(f));
    OpenedBefore(w, bs, i, f);
  }

  /** A block whose file is open, or opens with it, succeeds or fails as its edit does on the text
      that the file's successful blocks before it have made of the first one. */
  lemma OutcomeIsEdit(w: World, bs: seq<Block>, i: nat, k: nat, first: string)
    requires i < |bs| && OpenedAt(w, Own(bs[..i], bs[i].file) + [bs[i]], k, first)
    ensures var text := EditAll(first, Successful(w, Own(bs[..i], bs[i].file)));
              text.Some? && OutcomeAt(w, bs, i).error ==
                match Edit(text.value, bs[i]) { case Edited(_) => None case Refused(reason) => Some(reason) }
  {
    hide Edit, EditAll, Successful, RunFile, RunBlocks, Own, Load, Taken;
    var b := bs[i];
    var own := Own(bs[..i], b.file);
    Projection(w, bs[..i], b.file);
    FirstOpener(w, own);
    FoldOfOwn(w, own);
    var st := RunFile(w, own).state;
    if st.Some? {
      var j: nat :| OpenedAt(w, own, j, st.value.before);
      assert OpenedAt(w, own + [b], j, st.value.before);
      OpenedOnce(w, own + [b], k, j, first, st.value.before);
    } else {
      assert forall j | 0 <= j < |own| :: (own + [b])[j] == own[j];
      assert k == |own|;
      NoEdits(first);
    }
  }

  // ----- the order of the applied files ---------------------------------------------------------------

  /** Block `k` is the first of its file that can open it. */
  predicate FirstOpens(w: World, bs: seq<Block>, k: nat) {
    k < |bs| && OpensWith(w, bs[k]).Some? && forall j | 0 <= j < k && bs[j].file == bs[k].file :: OpensWith(w, bs[j]).None?
  }

  predicate Ascending(ks: seq<nat>) {
    forall i, j | 0 <= i < j < |ks| :: ks[i] < ks[j]
  }

  predicate OpenedBy(w: World, bs: seq<Block>, files: seq<string>, ks: seq<nat>) {
    |ks| == |files| && Ascending(ks) && forall i | 0 <= i < |ks| :: FirstOpens(w, bs, ks[i]) && bs[ks[i]].file == files[i]
  }

  lemma OpenedByMore(w: World, bs: seq<Block>, files: seq<string>, ks: seq<nat>)
    requires bs != [] && OpenedBy(w, bs[..|bs| - 1], files, ks)
    ensures OpenedBy(w, bs, files, ks)
  {
    hide OpensWith;
    var n := |bs| - 1;
    forall i | 0 <= i < |ks| ensures FirstOpens(w, bs, ks[i]) && bs[ks[i]].file == files[i] {
      assert FirstOpens(w, bs[..n], ks[i]);
      assert forall j | 0 <= j <= ks[i] :: bs[..n][j] == bs[j];
    }
  }

  lemma {:induction false} OrderOfOpening(w: World, bs: seq<Block>) returns (ks: seq<nat>)
    ensures OpenedBy(w, bs, RunBlocks(w, bs).order, ks)
    decreases bs
  {
    ks := [];
    if bs != [] {
      hide Step, OpensWith, OpenedBy;
      var n := |bs| - 1;
      var s, b := RunBlocks(w, bs[..n]), bs[n];
      ks := OrderOfOpening(w, bs[..n]);
      OpenedByMore(w, bs, s.order, ks);
      StepOpens(w, b, s.Get(b.file));
      OpenedBefore(w, bs, n, b.file);
      assert RunBlocks(w, bs) == Put(s, n, b.file, Step(w, b, s.Get(b.file)));
      if s.Get(b.file).None? && OpensWith(w, b).Some? {
        OpenerAdded(w, bs, s.order, ks);
        ks := ks + [n];
      }
    }
  }

  lemma OpenerAdded(w: World, bs: seq<Block>, order: seq<string>, ks: seq<nat>)
    requires bs != [] && OpenedBy(w, bs[..|bs| - 1], order, ks) && OpenedBy(w, bs, order, ks) && FirstOpens(w, bs, |bs| - 1)
    ensures OpenedBy(w, bs, order + [bs[|bs| - 1].file], ks + [|bs| - 1])
  {
    hide OpensWith;
    assert forall i | 0 <= i < |ks| :: FirstOpens(w, bs[..|bs| - 1], ks[i]);
  }

  lemma {:induction false} ReportedKeepsOrder(w: World, s: Store, bs: seq<Block>, order: seq<string>, ks: seq<nat>) returns (rs: seq<nat>)
    requires OpenedBy(w, bs, order, ks)
    ensures OpenedBy(w, bs, ReportedFiles(s, bs, order), rs)
    ensures forall i | 0 <= i < |rs| :: rs[i] in ks
    decreases order
  {
    rs := [];
    if order != [] {
      hide OpensWith, HasNew, FirstOpens;
      var n := |order| - 1;
      rs := ReportedKeepsOrder(w, s, bs, order[..n], ks[..n]);
      assert forall i | 0 <= i < |rs| :: rs[i] in ks[..n];
      if order[n] in s.state && Reported(s.state[order[n]], HasNew(bs, order[n])) {
        rs := rs + [ks[n]];
      }
    }
  }

  /** Applied files are listed in the order in which their first opening blocks come. */
  lemma AppliedInOrder(w: World, bs: seq<Block>) returns (ks: seq<nat>)
    ensures OpenedBy(w, bs, Apply(w, bs).appliedFiles, ks)
  {
    hide OpenedBy, RunBlocks;
    ks := OrderOfOpening(w, bs);
    ks := ReportedKeepsOrder(w, RunBlocks(w, bs), bs, RunBlocks(w, bs).order, ks);
  }
}
