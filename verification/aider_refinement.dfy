/** When the disk applier and the in-memory applier agree. */
module AiderRefinement {
  import opened Options
  import opened Text
  import AiderParser
  import opened AiderApply
  import opened AiderLaws

  /** The in-memory originals hold exactly the named files that can be read from disk. */
  ghost predicate Mirrors(files: map<string, DiskFile>, originals: map<string, string>, bs: seq<Block>) {
    forall i | 0 <= i < |bs| :: Load(Memory(originals), bs[i].file) == Load(Disk(files), bs[i].file)
  }

  predicate NamedBefore(bs: seq<Block>, i: nat, file: string)
    requires i <= |bs|
  {
    exists j | 0 <= j < i :: bs[j].file == file
  }

  predicate IsBlank(files: map<string, DiskFile>, file: string) {
    file in files && files[file].Utf8? && Trim(UniversalNewlines(files[file].raw)) == ""
  }

  /** A new-file block for an existing path that only the disk applier turns down: the file is
      unreadable, or blank and not yet opened by an earlier block. */
  predicate Conflict(files: map<string, DiskFile>, bs: seq<Block>, i: nat) {
    i < |bs| && var file := bs[i].file;
    bs[i].isNewFile && file in files
    && (files[file].Binary? || (IsBlank(files, file) && !NamedBefore(bs, i, file)))
  }

  ghost predicate ConflictFree(files: map<string, DiskFile>, bs: seq<Block>) {
    forall i: nat :: !Conflict(files, bs, i)
  }

  /** The two appliers word "cannot be loaded" differently. */
  function Category(r: Reason): Reason {
    if r.NotUtf8? then FileMissing else r
  }

  predicate SameError(e: ApplyError, f: ApplyError) {
    e.file == f.file && e.blockIndex == f.blockIndex && Category(e.reason) == Category(f.reason)
  }

  predicate SameErrors(es: seq<ApplyError>, fs: seq<ApplyError>) {
    |es| == |fs| && forall i | 0 <= i < |es| :: SameError(es[i], fs[i])
  }

  ghost predicate Agree(r: ApplyResult, q: ApplyResult) {
    r.appliedFiles == q.appliedFiles && r.beforeAfter == q.beforeAfter && SameErrors(r.errors, q.errors)
  }

  // ----- without a conflict the runs go hand in hand ---------------------------------------

  lemma StepsAgree(files: map<string, DiskFile>, originals: map<string, string>, b: Block, st: Option<FileState>)
    requires Load(Memory(originals), b.file) == Load(Disk(files), b.file)
    requires st.None? && b.isNewFile ==> (Taken(Memory(originals), b.file) <==> Taken(Disk(files), b.file))
    ensures var d, m := Step(Disk(files), b, st), Step(Memory(originals), b, st);
              && d.state == m.state && (d.error.Some? <==> m.error.Some?)
              && (d.error.Some? ==> Category(d.error.value) == Category(m.error.value))
  {
    hide Edit, Load, Taken;
  }

  ghost predicate InStep(files: map<string, DiskFile>, bs: seq<Block>, d: Store, m: Store) {
    && d.state == m.state && d.order == m.order && SameErrors(d.errors, m.errors)
    && forall i | 0 <= i < |bs| :: IsBlank(files, bs[i].file) ==> bs[i].file in d.state
  }

  lemma TakenAlike(files: map<string, DiskFile>, originals: map<string, string>, bs: seq<Block>, d: Store, m: Store)
    requires bs != [] && Mirrors(files, originals, bs) && ConflictFree(files, bs)
    requires InStep(files, bs[..|bs| - 1], d, m)
    requires bs[|bs| - 1].isNewFile && bs[|bs| - 1].file !in d.state
    ensures var file := bs[|bs| - 1].file;
              Taken(Memory(originals), file) <==> Taken(Disk(files), file)
    ensures !IsBlank(files, bs[|bs| - 1].file)
  {
    hide Trim, UniversalNewlines;
    var n := |bs| - 1;
    assert !Conflict(files, bs, n);
    if NamedBefore(bs, n, bs[n].file) {
      var j :| 0 <= j < n && bs[j].file == bs[n].file;
      assert bs[..n][j] == bs[j];
    }
  }

  lemma {:induction false} RunsAgree(files: map<string, DiskFile>, originals: map<string, string>, bs: seq<Block>)
    requires Mirrors(files, originals, bs) && ConflictFree(files, bs)
    ensures InStep(files, bs, RunBlocks(Disk(files), bs), RunBlocks(Memory(originals), bs))
    decreases bs
  {
    if bs != [] {
      hide Step, Put, Taken, Load, IsBlank, SameErrors;
      var n := |bs| - 1;
      forall i: nat ensures !Conflict(files, bs[..n], i) {
        assert !Conflict(files, bs, i);
        ConflictInPrefix(files, bs, n, i);
      }
      RunsAgree(files, originals, bs[..n]);
      StepKeepsAgreement(files, originals, bs, RunBlocks(Disk(files), bs[..n]), RunBlocks(Memory(originals), bs[..n]));
    } else {
      assert SameErrors([], []);
    }
  }

  lemma ConflictInPrefix(files: map<string, DiskFile>, bs: seq<Block>, n: nat, i: nat)
    requires n <= |bs|
    ensures Conflict(files, bs[..n], i) ==> Conflict(files, bs, i)
  {
    hide IsBlank;
    if i < n && NamedBefore(bs, i, bs[i].file) {
      var j :| 0 <= j < i && bs[j].file == bs[i].file;
      assert bs[..n][j] == bs[j];
    }
  }

  lemma StepKeepsAgreement(files: map<string, DiskFile>, originals: map<string, string>, bs: seq<Block>, d: Store, m: Store)
    requires bs != [] && Mirrors(files, originals, bs) && ConflictFree(files, bs)
    requires InStep(files, bs[..|bs| - 1], d, m)
    ensures var n, b := |bs| - 1, bs[|bs| - 1];
              InStep(files, bs, Put(d, n, b.file, Step(Disk(files), b, d.Get(b.file))),
                                Put(m, n, b.file, Step(Memory(originals), b, m.Get(b.file))))
  {
    hide Step, IsBlank, Taken, Conflict, Load;
    var n, b := |bs| - 1, bs[|bs| - 1];
    if b.isNewFile && b.file !in d.state {
      TakenAlike(files, originals, bs, d, m);
    }
    StepsAgree(files, originals, b, d.Get(b.file));
    BlankIsOpened(files, b, d.Get(b.file));
    assert forall i | 0 <= i < n :: bs[..n][i] == bs[i];
  }

  lemma BlankIsOpened(files: map<string, DiskFile>, b: Block, st: Option<FileState>)
    ensures IsBlank(files, b.file) && !(st.None? && b.isNewFile) ==> Step(Disk(files), b, st).state.Some?
  {
    hide Edit, Trim, UniversalNewlines;
  }

  // ----- with a conflict they part ------------------------------------------------------------

  lemma TakenExactly(w: World, b: Block, st: Option<FileState>)
    ensures Step(w, b, st).error == Some(NewFileTaken) <==> st.None? && b.isNewFile && Taken(w, b.file)
  {
    hide Taken, Load, MentionsPlaceholder;
  }

  lemma {:induction false} NotNamedNotOpened(w: World, bs: seq<Block>, i: nat, file: string)
    requires i <= |bs| && !NamedBefore(bs, i, file)
    ensures file !in RunBlocks(w, bs[..i]).state
  {
    if i > 0 {
      hide Step;
      RunBlocksStep(w, bs, i - 1);
      assert bs[i - 1].file != file;
      NotNamedNotOpened(w, bs, i - 1, file);
    }
  }

  lemma {:induction false} BinaryNeverOpened(files: map<string, DiskFile>, bs: seq<Block>, file: string)
    requires file in files && files[file].Binary?
    ensures file !in RunBlocks(Disk(files), bs).state
    decreases bs
  {
    if bs != [] {
      hide Edit;
      BinaryNeverOpened(files, bs[..|bs| - 1], file);
    }
  }

  lemma ConflictShows(files: map<string, DiskFile>, originals: map<string, string>, bs: seq<Block>, i: nat)
    requires Mirrors(files, originals, bs) && Conflict(files, bs, i)
    ensures OutcomeAt(Disk(files), bs, i).error == Some(NewFileTaken)
    ensures OutcomeAt(Memory(originals), bs, i).error != Some(NewFileTaken)
  {
    hide Step, RunBlocks, Trim, UniversalNewlines;
    var b := bs[i];
    TakenExactly(Disk(files), b, RunBlocks(Disk(files), bs[..i]).Get(b.file));
    TakenExactly(Memory(originals), b, RunBlocks(Memory(originals), bs[..i]).Get(b.file));
    if files[b.file].Binary? {
      BinaryNeverOpened(files, bs[..i], b.file);
    } else {
      NotNamedNotOpened(Disk(files), bs, i, b.file);
    }
  }

  lemma ConflictParts(files: map<string, DiskFile>, originals: map<string, string>, bs: seq<Block>, i: nat)
    requires Mirrors(files, originals, bs) && Conflict(files, bs, i)
    ensures !SameErrors(RunBlocks(Disk(files), bs).errors, RunBlocks(Memory(originals), bs).errors)
  {
    hide RunBlocks, OutcomeAt, Conflict, Mirrors;
    var ds, ms := RunBlocks(Disk(files), bs).errors, RunBlocks(Memory(originals), bs).errors;
    assert i < |bs| by { ConflictIndex(files, bs, i); }
    ConflictShows(files, originals, bs, i);
    ErrorPerFailedBlock(Disk(files), bs);
    ErrorPerFailedBlock(Memory(originals), bs);
    assert Listed(ds, i);
    var j :| 0 <= j < |ds| && ds[j].blockIndex == i;
    assert IsFailure(Disk(files), bs, ds[j]);
    forall k | 0 <= k < |ms| ensures !SameError(ds[j], ms[k]) {
      assert IsFailure(Memory(originals), bs, ms[k]);
    }
    assert j < |ms| ==> !SameError(ds[j], ms[j]);
  }

  lemma ConflictIndex(files: map<string, DiskFile>, bs: seq<Block>, i: nat)
    requires Conflict(files, bs, i)
    ensures i < |bs|
  {
  }

  /** The disk applier and the in-memory applier give the same files, the same before/after map
      and the same errors exactly when no new-file block names an unreadable or blank file. */
  lemma DiskRefinesMemory(files: map<string, DiskFile>, originals: map<string, string>, bs: seq<Block>)
    requires Mirrors(files, originals, bs)
    ensures Agree(Apply(Disk(files), bs), Apply(Memory(originals), bs)) <==> ConflictFree(files, bs)
  {
    hide RunBlocks, Conflict, Mirrors, HasNew, SameErrors;
    if ConflictFree(files, bs) {
      RunsAgree(files, originals, bs);
      SameStoreSameReport(RunBlocks(Disk(files), bs), RunBlocks(Memory(originals), bs), bs,
                          RunBlocks(Disk(files), bs).order);
    } else {
      var i: nat :| Conflict(files, bs, i);
      ConflictParts(files, originals, bs, i);
    }
  }

  /** They do part: a new-file block for an existing blank file is refused on disk and fills the
      file in memory. */
  lemma BlankFileParts() returns (files: map<string, DiskFile>, originals: map<string, string>, bs: seq<Block>)
    ensures Mirrors(files, originals, bs) && !ConflictFree(files, bs)
    ensures Apply(Disk(files), bs) == ApplyResult([], [ApplyError("f", 0, NewFileTaken)], map[])
    ensures Apply(Memory(originals), bs) == ApplyResult(["f"], [], map["f" := ("", "x")])
  {
    var b: Block := AiderParser.Block("f", "", "x", true);
    files, originals, bs := map["f" := Utf8("")], map["f" := ""], [b];
    assert UniversalNewlines("") == "" && Trim("") == "";
    assert Load(Memory(originals), "f") == Load(Disk(files), "f");
    assert Conflict(files, bs, 0);
    assert bs[0] == b && bs[..0] == [];
    OneBlock(Disk(files), b, Outcome(None, Some(NewFileTaken)));
    OneBlock(Memory(originals), b, Outcome(Some(FileState("", "x")), None));
  }

  lemma {:induction false} SameStoreSameReport(s: Store, t: Store, bs: seq<Block>, order: seq<string>)
    requires s.state == t.state
    ensures ReportedFiles(s, bs, order) == ReportedFiles(t, bs, order) && Changes(s, bs) == Changes(t, bs)
    decreases order
  {
    hide HasNew;
    if order != [] {
      SameStoreSameReport(s, t, bs, order[..|order| - 1]);
    }
  }
}
