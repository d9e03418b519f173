/** The two block appliers of `aider_format.py`: against a dictionary of file contents and
    against a directory. Both are proved against one fold of blocks over per-file states. */
module AiderApply {
  import opened Options
  import opened Text
  import opened Occurrences
  import AiderParser

  type Block = AiderParser.Block

  datatype Reason =
    | NewFileTaken
    | FileMissing
    | NotUtf8
    | AnchorOnPlaceholder
    | AnchorNotFound
    | AnchorAmbiguous(matches: nat)

  datatype ApplyError = ApplyError(file: string, blockIndex: nat, reason: Reason)

  datatype ApplyResult = ApplyResult(
    appliedFiles: seq<string>,
    errors: seq<ApplyError>,
    beforeAfter: map<string, (string, string)>)

  // ----- where originals come from -----------------------------------------------------

  datatype DiskFile = Utf8(raw: string) | Binary

  datatype World = Memory(originals: map<string, string>) | Disk(files: map<string, DiskFile>)

  /** Text-mode reading: `\r\n` and `\r` become `\n`. */
  function UniversalNewlines(raw: string): string {
    if raw == "" then ""
    else if raw[0] == '\r' then
      "\n" + UniversalNewlines(if |raw| > 1 && raw[1] == '\n' then raw[2..] else raw[1..])
    else [raw[0]] + UniversalNewlines(raw[1..])
  }

  lemma {:induction false} UniversalHasNoReturn(raw: string)
    ensures '\r' !in UniversalNewlines(raw)
    ensures '\r' !in raw ==> UniversalNewlines(raw) == raw
  {
    if raw != "" {
      UniversalHasNoReturn(raw[1..]);
      if |raw| > 1 {
        UniversalHasNoReturn(raw[2..]);
      }
      assert raw == [raw[0]] + raw[1..];
    }
  }

  /** Reading splits into the same lines, however they were ended. */
  lemma {:induction false} UniversalAtBreak(line: string, rest: string)
    requires '\r' !in line
    ensures UniversalNewlines(line + "\r\n" + rest) == line + "\n" + UniversalNewlines(rest)
    ensures UniversalNewlines(line + "\n" + rest) == line + "\n" + UniversalNewlines(rest)
    ensures (rest == "" || rest[0] != '\n') ==> UniversalNewlines(line + "\r" + rest) == line + "\n" + UniversalNewlines(rest)
  {
    if line == "" {
      assert ("" + "\r\n" + rest)[2..] == rest;
      assert ("" + "\n" + rest)[1..] == rest;
      assert ("" + "\r" + rest)[1..] == rest;
    } else {
      UniversalAtBreak(line[1..], rest);
      assert line == [line[0]] + line[1..];
      assert (line + "\r\n" + rest)[1..] == line[1..] + "\r\n" + rest;
      assert (line + "\n" + rest)[1..] == line[1..] + "\n" + rest;
      assert (line + "\r" + rest)[1..] == line[1..] + "\r" + rest;
      assert line[0] in line;
    }
  }

  function Load(w: World, file: string): Option<string> {
    match w
    case Memory(originals) => if file in originals then Some(originals[file]) else None
    case Disk(files) =>
      if file in files && files[file].Utf8? then Some(UniversalNewlines(files[file].raw)) else None
  }

  /** Whether a new-file block is refused: any existing path on disk, non-blank text in memory. */
  predicate Taken(w: World, file: string) {
    match w
    case Memory(originals) => file in originals && Trim(originals[file]) != ""
    case Disk(files) => file in files
  }

  function LoadError(w: World, file: string): Reason {
    if w.Disk? && file in w.files then NotUtf8 else FileMissing
  }

  // ----- one block on one file -----------------------------------------------------------

  predicate MentionsPlaceholder(search: string) {
    Contains(search, "elided by ast_truncate") || Contains(search, "=== ast_truncate header ===")
  }

  datatype EditResult = Edited(text: string) | Refused(reason: Reason)

  function Edit(text: string, b: Block): EditResult {
    if b.search == "" then Edited(if b.isNewFile then b.replace else text + b.replace)
    else if MentionsPlaceholder(b.search) then Refused(AnchorOnPlaceholder)
    else
      var n := Count(text, b.search, 0);
      if n == 0 then Refused(AnchorNotFound)
      else if n > 1 then Refused(AnchorAmbiguous(n))
      else Edited(ReplaceFirst(text, b.search, b.replace))
  }

  datatype FileState = FileState(before: string, text: string)

  datatype Outcome = Outcome(state: Option<FileState>, error: Option<Reason>)

  function Open(w: World, b: Block, st: Option<FileState>): Outcome {
    if st.Some? then Outcome(st, None)
    else if b.isNewFile then
      if Taken(w, b.file) then Outcome(None, Some(NewFileTaken)) else Outcome(Some(FileState("", "")), None)
    else
      match Load(w, b.file)
      case None => Outcome(None, Some(LoadError(w, b.file)))
      case Some(text) => Outcome(Some(FileState(text, text)), None)
  }

  function Step(w: World, b: Block, st: Option<FileState>): (o: Outcome)
    ensures st.Some? ==> o.state.Some? && o.state.value.before == st.value.before
    ensures o.state.None? ==> o.error.Some?
  {
    var load := Open(w, b, st);
    if load.error.Some? then load
    else
      match Edit(load.state.value.text, b)
      case Edited(text) => Outcome(Some(load.state.value.(text := text)), None)
      case Refused(reason) => Outcome(load.state, Some(reason))
  }

  // ----- all blocks on all files ------------------------------------------------------------

  /** The applier's dictionaries, with the order in which files entered them. */
  datatype Store = Store(state: map<string, FileState>, order: seq<string>, errors: seq<ApplyError>) {
    function Get(file: string): Option<FileState> {
      if file in state then Some(state[file]) else None
    }
  }

  function Put(s: Store, index: nat, file: string, o: Outcome): Store {
    Store(if o.state.Some? then s.state[file := o.state.value] else s.state,
          if o.state.Some? && file !in s.state then s.order + [file] else s.order,
          if o.error.Some? then s.errors + [ApplyError(file, index, o.error.value)] else s.errors)
  }

  function RunBlocks(w: World, bs: seq<Block>): Store {
    if bs == [] then Store(map[], [], [])
    else
      var n := |bs| - 1;
      var s := RunBlocks(w, bs[..n]);
      Put(s, n, bs[n].file, Step(w, bs[n], s.Get(bs[n].file)))
  }

  predicate HasNew(bs: seq<Block>, file: string) {
    exists i | 0 <= i < |bs| :: bs[i].isNewFile && bs[i].file == file
  }

  predicate Reported(st: FileState, isNew: bool) {
    st.text != st.before || isNew
  }

  function ReportedFiles(s: Store, bs: seq<Block>, order: seq<string>): seq<string> {
    if order == [] then []
    else
      var n := |order| - 1;
      var f := order[n];
      ReportedFiles(s, bs, order[..n]) + if f in s.state && Reported(s.state[f], HasNew(bs, f)) then [f] else []
  }

  function Changes(s: Store, bs: seq<Block>): map<string, (string, string)> {
    map f | f in s.state && Reported(s.state[f], HasNew(bs, f)) :: (s.state[f].before, s.state[f].text)
  }

  function Apply(w: World, bs: seq<Block>): ApplyResult {
    var s := RunBlocks(w, bs);
    ApplyResult(ReportedFiles(s, bs, s.order), s.errors, Changes(s, bs))
  }

  // ----- the appliers -------------------------------------------------------------------

  predicate Holds(s: Store, fileState: map<string, string>, fileBefore: map<string, string>) {
    && fileState.Keys == fileBefore.Keys == s.state.Keys
    && forall f | f in fileState :: s.state[f] == FileState(fileBefore[f], fileState[f])
  }

  lemma RunBlocksStep(w: World, bs: seq<Block>, n: nat)
    requires n < |bs|
    ensures var s := RunBlocks(w, bs[..n]);
              RunBlocks(w, bs[..n + 1]) == Put(s, n, bs[n].file, Step(w, bs[n], s.Get(bs[n].file)))
  {
    assert bs[..n + 1][..n] == bs[..n];
  }

  /** The part of a loop body that edits a loaded file. */
  method EditText(current: string, block: Block) returns (e: EditResult)
    ensures e == Edit(current, block)
  {
    if block.isNewFile && block.search == "" {
      return Edited(block.replace);
    }
    if block.search == "" {
      return Edited(current + block.replace);
    }
    if MentionsPlaceholder(block.search) {
      return Refused(AnchorOnPlaceholder);
    }
    var occurrences := Count(current, block.search, 0);
    if occurrences == 0 {
      return Refused(AnchorNotFound);
    }
    if occurrences > 1 {
      return Refused(AnchorAmbiguous(occurrences));
    }
    return Edited(ReplaceFirst(current, block.search, block.replace));
  }

  predicate Distinct(fs: seq<string>) {
    forall i, j | 0 <= i < j < |fs| :: fs[i] != fs[j]
  }

  ghost predicate OrderMatches(s: Store) {
    (forall f :: f in s.state <==> f in s.order) && Distinct(s.order)
  }

  lemma {:induction false} OrderIsKeys(w: World, bs: seq<Block>)
    ensures OrderMatches(RunBlocks(w, bs))
    decreases bs
  {
    hide Step;
    if bs != [] {
      var n := |bs| - 1;
      OrderIsKeys(w, bs[..n]);
      var s := RunBlocks(w, bs[..n]);
      PutKeepsOrder(s, n, bs[n].file, Step(w, bs[n], s.Get(bs[n].file)));
    }
  }

  lemma PutKeepsOrder(s: Store, index: nat, file: string, o: Outcome)
    requires OrderMatches(s)
    ensures OrderMatches(Put(s, index, file, o))
  {
    var t := Put(s, index, file, o);
    assert forall f :: f in s.order + [file] <==> f in s.order || f == file;
  }

  /** The closing loop of both appliers: report what changed, and every file a block created. */
  method CollectReported(bs: seq<Block>, order: seq<string>, fileState: map<string, string>,
                         fileBefore: map<string, string>, ghost s: Store)
    returns (applied: seq<string>, changes: map<string, (string, string)>)
    requires Holds(s, fileState, fileBefore)
    requires forall f :: f in s.state <==> f in order
    ensures applied == ReportedFiles(s, bs, order) && changes == Changes(s, bs)
  {
    hide HasNew;
    applied, changes := [], map[];
    for k := 0 to |order|
      invariant applied == ReportedFiles(s, bs, order[..k])
      invariant forall f :: f in changes <==> f in order[..k] && Reported(s.state[f], HasNew(bs, f))
      invariant forall f | f in changes :: changes[f] == (s.state[f].before, s.state[f].text)
    {
      var path := order[k];
      var before, after := fileBefore[path], fileState[path];
      assert order[..k + 1] == order[..k] + [path] && order[..k + 1][..k] == order[..k];
      assert s.state[path] == FileState(before, after);
      if after == before && !HasNew(bs, path) {
        continue;
      }
      applied := applied + [path];
      changes := changes[path := (before, after)];
    }
    assert order[..|order|] == order;
  }

  /** `apply_aider_blocks_in_memory`. */
  method ApplyInMemory(blocks: seq<Block>, originals: map<string, string>) returns (r: ApplyResult)
    ensures r == Apply(Memory(originals), blocks)
    ensures forall f | f in r.beforeAfter ::
              if f in originals && Trim(originals[f]) != "" then r.beforeAfter[f].0 == originals[f]
              else r.beforeAfter[f].0 == "" || (f in originals && r.beforeAfter[f].0 == originals[f])
  {
    hide Edit, Trim, RunBlocks, ReportedFiles, Changes;
    ghost var w := Memory(originals);
    var fileState, fileBefore: map<string, string> := map[], map[];
    var order: seq<string>, errors: seq<ApplyError> := [], [];
    NoBlocksRun(w, blocks);
    for idx := 0 to |blocks|
      invariant Holds(RunBlocks(w, blocks[..idx]), fileState, fileBefore)
      invariant RunBlocks(w, blocks[..idx]).order == order && RunBlocks(w, blocks[..idx]).errors == errors
    {
      var block := blocks[idx];
      RunBlocksStep(w, blocks, idx);
      if block.isNewFile && block.file !in fileState {
        if block.file in originals && Trim(originals[block.file]) != "" {
          errors := errors + [ApplyError(block.file, idx, NewFileTaken)];
          continue;
        }
        fileState, fileBefore := fileState[block.file := ""], fileBefore[block.file := ""];
        order := order + [block.file];
      }
      if block.file !in fileState {
        if block.file !in originals {
          errors := errors + [ApplyError(block.file, idx, FileMissing)];
          continue;
        }
        var original := originals[block.file];
        fileState, fileBefore := fileState[block.file := original], fileBefore[block.file := original];
        order := order + [block.file];
      }
      var edit := EditText(fileState[block.file], block);
      if edit.Refused? {
        errors := errors + [ApplyError(block.file, idx, edit.reason)];
        continue;
      }
      fileState := fileState[block.file := edit.text];
    }
    assert blocks[..|blocks|] == blocks;
    OrderIsKeys(w, blocks);
    var applied, changes := CollectReported(blocks, order, fileState, fileBefore, RunBlocks(w, blocks));
    MemoryBefores(originals, blocks);
    BeforesReported(RunBlocks(w, blocks), blocks);
    r := ApplyResult(applied, errors, changes);
  }

  lemma BeforesReported(s: Store, bs: seq<Block>)
    ensures forall f | f in Changes(s, bs) :: f in s.state && Changes(s, bs)[f].0 == s.state[f].before
  {
    hide HasNew;
  }

  /** The first text of a file in memory: the original one, or nothing if that is blank or missing. */
  lemma {:induction false} MemoryBefores(originals: map<string, string>, bs: seq<Block>)
    ensures var s := RunBlocks(Memory(originals), bs).state;
              forall f | f in s ::
                if f in originals && Trim(originals[f]) != "" then s[f].before == originals[f]
                else s[f].before == "" || (f in originals && s[f].before == originals[f])
    decreases bs
  {
    if bs != [] {
      hide Edit, Trim;
      MemoryBefores(originals, bs[..|bs| - 1]);
    }
  }

  /** The first text of a file on disk: what it holds, or nothing if it is not there. */
  lemma {:induction false} DiskBefores(files: map<string, DiskFile>, bs: seq<Block>)
    ensures var s := RunBlocks(Disk(files), bs).state;
              forall f | f in s ::
                if f in files then files[f].Utf8? && s[f].before == UniversalNewlines(files[f].raw) else s[f].before == ""
    decreases bs
  {
    if bs != [] {
      hide Edit, UniversalNewlines;
      DiskBefores(files, bs[..|bs| - 1]);
    }
  }

  lemma NoBlocksRun(w: World, bs: seq<Block>)
    ensures RunBlocks(w, bs[..0]) == Store(map[], [], [])
  {
  }

  class Sandbox {
    var files: map<string, DiskFile>

    method WriteBack(applied: seq<string>, changes: map<string, (string, string)>)
      requires forall f :: f in applied <==> f in changes
      modifies this
      ensures forall f | f in changes :: f in files && files[f] == Utf8(changes[f].1)
      ensures forall f | f !in changes :: (f in files <==> f in old(files)) && (f in files ==> files[f] == old(files)[f])
    {
      for k := 0 to |applied|
        invariant forall f :: f in files <==> f in old(files) || f in applied[..k]
        invariant forall f | f in files :: files[f] == if f in applied[..k] then Utf8(changes[f].1) else old(files)[f]
      {
        assert applied[..k + 1] == applied[..k] + [applied[k]];
        assert applied[k] in changes;
        files := files[applied[k] := Utf8(changes[applied[k]].1)];
      }
      assert applied[..|applied|] == applied;
      forall f | f in changes ensures f in files && files[f] == Utf8(changes[f].1) {
        assert f in applied;
      }
    }

    /** `apply_aider_blocks`: read each file before its first block, write the changed ones back. */
    method ApplyBlocks(blocks: seq<Block>) returns (r: ApplyResult)
      modifies this
      ensures r == Apply(Disk(old(files)), blocks)
      ensures forall f | f in r.beforeAfter :: f in files && files[f] == Utf8(r.beforeAfter[f].1)
      ensures forall f | f !in r.beforeAfter :: (f in files <==> f in old(files)) && (f in files ==> files[f] == old(files)[f])
      ensures forall f | f in r.beforeAfter ::
                if f in old(files) then old(files)[f].Utf8? && r.beforeAfter[f].0 == UniversalNewlines(old(files)[f].raw)
                else r.beforeAfter[f].0 == ""
    {
      hide Edit, UniversalNewlines, RunBlocks, ReportedFiles, Changes;
      ghost var w := Disk(files);
      var fileState, fileBefore: map<string, string> := map[], map[];
      var order: seq<string>, errors: seq<ApplyError> := [], [];
      NoBlocksRun(w, blocks);
      for idx := 0 to |blocks|
        invariant files == old(files)
        invariant Holds(RunBlocks(w, blocks[..idx]), fileState, fileBefore)
        invariant RunBlocks(w, blocks[..idx]).order == order && RunBlocks(w, blocks[..idx]).errors == errors
      {
        var block := blocks[idx];
        RunBlocksStep(w, blocks, idx);
        if block.isNewFile && block.file !in fileState {
          if block.file in files {
            errors := errors + [ApplyError(block.file, idx, NewFileTaken)];
            continue;
          }
          fileState, fileBefore := fileState[block.file := ""], fileBefore[block.file := ""];
          order := order + [block.file];
        }
        if block.file !in fileState {
          if block.file !in files {
            errors := errors + [ApplyError(block.file, idx, FileMissing)];
            continue;
          }
          if files[block.file].Binary? {
            errors := errors + [ApplyError(block.file, idx, NotUtf8)];
            continue;
          }
          var original := UniversalNewlines(files[block.file].raw);
          fileState, fileBefore := fileState[block.file := original], fileBefore[block.file := original];
          order := order + [block.file];
        }
        var edit := EditText(fileState[block.file], block);
        if edit.Refused? {
          errors := errors + [ApplyError(block.file, idx, edit.reason)];
          continue;
        }
        fileState := fileState[block.file := edit.text];
      }
      assert blocks[..|blocks|] == blocks;
      OrderIsKeys(w, blocks);
      var applied, changes := CollectReported(blocks, order, fileState, fileBefore, RunBlocks(w, blocks));
      AppliedFilesAreChanges(w, blocks);
      DiskBefores(files, blocks);
      BeforesReported(RunBlocks(w, blocks), blocks);
      WriteBack(applied, changes);
      r := ApplyResult(applied, errors, changes);
    }
  }

  lemma {:induction false} ReportedExactly(s: Store, bs: seq<Block>, order: seq<string>)
    requires Distinct(order)
    ensures forall f :: f in ReportedFiles(s, bs, order) <==>
                        f in order && f in s.state && Reported(s.state[f], HasNew(bs, f))
    ensures Distinct(ReportedFiles(s, bs, order))
    decreases order
  {
    hide HasNew;
    if order != [] {
      var n := |order| - 1;
      ReportedExactly(s, bs, order[..n]);
      assert order == order[..n] + [order[n]];
    }
  }

  /** The list of applied files names each reported file once. */
  lemma AppliedFilesAreChanges(w: World, bs: seq<Block>)
    ensures forall f :: f in Apply(w, bs).appliedFiles <==> f in Apply(w, bs).beforeAfter
    ensures Distinct(Apply(w, bs).appliedFiles)
  {
    hide RunBlocks, HasNew;
    OrderIsKeys(w, bs);
    ReportedExactly(RunBlocks(w, bs), bs, RunBlocks(w, bs).order);
  }
}
