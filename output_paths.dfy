/**
 * Where the rewritten files of one version go: the version directory
 * `outputPrefix + "v" + version`, the file's path relative to the base
 * directory, and the subdirectory that has to exist for it; and the flush at
 * the end of each source file, which writes every rewrite buffer and then
 * drops the changes.
 */
module OutputPaths {
  import opened Common
  import opened Strings
  import opened Permutations
  import opened SemanticUtil
  import opened Rewriting

  // ----------------------------------------------------------------- paths

  /** The version directory: `outputPrefix << "v" << version`. */
  function FullPath(outputPrefix: string, version: nat): string {
    outputPrefix + "v" + NatToString(version)
  }

  /** `substr` past the end of the string throws `std::out_of_range`. */
  datatype PathError = OutOfRange

  /**
   * `fileName.substr(fileName.find(baseDirectory) + baseDirectory.length() + skip)`,
   * with the `size_t` sum wrapping around when `find` returns `npos`.
   */
  function RelativeFrom(fileName: string, baseDirectory: string, skip: nat): Result<string, PathError> {
    var start := (FindPosition(fileName, baseDirectory) + |baseDirectory| + skip) % SIZE_T_MODULUS;
    if start <= |fileName| then Ok(fileName[start..]) else Err(OutOfRange)
  }

  /** The relative path of the later writers: everything after the first occurrence of the base directory. */
  function RelativePath(fileName: string, baseDirectory: string): Result<string, PathError> {
    RelativeFrom(fileName, baseDirectory, 0)
  }

  /** The relative path of the older writer, which skips one more character. */
  function AnalyserRelativePath(fileName: string, baseDirectory: string): Result<string, PathError> {
    RelativeFrom(fileName, baseDirectory, 1)
  }

  /**
   * When the base directory occurs in the file name, the relative path is
   * what follows its first occurrence, so prefix, base directory and
   * relative path put back together give the file name. When it does not
   * occur, `npos + length` wraps around to `length - 1` and the result is
   * a suffix of the file name that has nothing to do with the base.
   */
  lemma RelativePathSpec(fileName: string, baseDirectory: string)
    requires |fileName| < NPOS && |baseDirectory| < NPOS
    ensures Find(fileName, baseDirectory).Some? ==>
              var p := Find(fileName, baseDirectory).value;
              RelativePath(fileName, baseDirectory) == Ok(fileName[p + |baseDirectory|..]) &&
              fileName == fileName[..p] + baseDirectory + RelativePath(fileName, baseDirectory).value
    ensures Find(fileName, baseDirectory).None? ==>
              |baseDirectory| > 0 &&
              RelativePath(fileName, baseDirectory)
                == if |baseDirectory| - 1 <= |fileName| then Ok(fileName[|baseDirectory| - 1..]) else Err(OutOfRange)
  {
    if Find(fileName, baseDirectory).Some? {
      var p := Find(fileName, baseDirectory).value;
      assert fileName[p..p + |baseDirectory|] == baseDirectory;
      assert fileName == fileName[..p] + fileName[p..p + |baseDirectory|] + fileName[p + |baseDirectory|..];
    } else {
      assert NPOS + |baseDirectory| == SIZE_T_MODULUS + (|baseDirectory| - 1);
      assert (NPOS + |baseDirectory|) % SIZE_T_MODULUS == |baseDirectory| - 1;
    }
  }

  /**
   * The older writer's relative path is the later one without its first
   * character, and it throws when the base directory ends the file name.
   */
  lemma AnalyserRelativePathDropsOne(fileName: string, baseDirectory: string)
    requires |fileName| < NPOS && |baseDirectory| < NPOS && Contains(fileName, baseDirectory)
    ensures RelativePath(fileName, baseDirectory).Ok?
    ensures |RelativePath(fileName, baseDirectory).value| > 0 ==>
              AnalyserRelativePath(fileName, baseDirectory) == Ok(RelativePath(fileName, baseDirectory).value[1..])
    ensures |RelativePath(fileName, baseDirectory).value| == 0 ==>
              AnalyserRelativePath(fileName, baseDirectory) == Err(OutOfRange)
  {
    RelativePathSpec(fileName, baseDirectory);
  }

  /**
   * With the base directory written with its trailing slash, the older
   * writer loses the first letter of the file's own name.
   */
  lemma AnalyserRelativePathLosesLetter()
    ensures RelativePath("src/main.c", "src/") == Ok("main.c")
    ensures AnalyserRelativePath("src/main.c", "src/") == Ok("ain.c")
  {
    var fileName, base := "src/main.c", "src/";
    assert OccursAt(fileName, base, 0);
    assert Find(fileName, base) == Some(0);
    assert FindPosition(fileName, base) == 0;
    assert (0 + 4 + 0) % SIZE_T_MODULUS == 4 && (0 + 4 + 1) % SIZE_T_MODULUS == 5;
    assert fileName[4..] == "main.c" && fileName[5..] == "ain.c";
  }

  /** The directory to create for a relative path: everything before its last `/` or `\`, if it has one. */
  function Subdirectory(relative: string): (r: Option<string>)
    ensures r.Some? ==>
              |r.value| < |relative| && r.value == relative[..|r.value|] && relative[|r.value|] in SEPARATORS &&
              forall q :: |r.value| < q < |relative| ==> relative[q] !in SEPARATORS
    ensures r.None? <==> forall q :: 0 <= q < |relative| ==> relative[q] !in SEPARATORS
  {
    match FindLastOf(relative, SEPARATORS)
    case Some(i) => Some(relative[..i])
    case None => None
  }

  /** The file a buffer is written to: `fullPath + "/" + relative`. */
  function OutputFilePath(fullPath: string, relative: string): string {
    fullPath + "/" + relative
  }

  /** The subdirectory created for a file is the directory the file is written into. */
  lemma SubdirectoryHoldsFile(fullPath: string, relative: string)
    requires Subdirectory(relative).Some?
    ensures var dir := fullPath + "/" + Subdirectory(relative).value;
            var rest := relative[|Subdirectory(relative).value| + 1..];
            OutputFilePath(fullPath, relative) == dir + [relative[|Subdirectory(relative).value|]] + rest &&
            forall q :: 0 <= q < |rest| ==> rest[q] !in SEPARATORS
  {
    var sub := Subdirectory(relative).value;
    assert relative == sub + [relative[|sub|]] + relative[|sub| + 1..];
  }

  /**
   * A rewritten file of a version lies where that version's reports lie, so
   * two versions never write the same file.
   */
  lemma VersionsWriteApart(outputPrefix: string, v1: nat, v2: nat, relative: string)
    requires v1 != v2
    ensures OutputFilePath(FullPath(outputPrefix, v1), relative) == JsonFilePath(outputPrefix, v1, relative)
    ensures OutputFilePath(FullPath(outputPrefix, v1), relative) != OutputFilePath(FullPath(outputPrefix, v2), relative)
  {
    JsonFilePathShape(outputPrefix, v1, relative);
    JsonFilePathShape(outputPrefix, v2, relative);
    JsonPathsDistinct(outputPrefix, v1, v2, relative);
  }

  // ------------------------------------------------------------ the flush

  /** How a flush ended. */
  datatype WriteStatus =
    | Written
    | MkdirFailed
    | SubdirectoryMkdirFailed(directory: string)
    | RelativePathOutOfRange(fileName: string)

  /** What a flush did: the directories it asked `mkdir -p` for, the files it wrote (path, source file), and how it ended. */
  datatype Flush = Flush(directories: seq<string>, files: seq<(string, string)>, status: WriteStatus)

  /**
   * One turn of the buffer loop, for the buffer of `fileName`, followed by
   * `rest`, what the remaining turns do. A relative path that throws ends
   * the flush; a failed subdirectory `mkdir` ends it only when the writer
   * checks for that.
   */
  function Turn(fullPath: string, fileName: string, relativeOf: string -> Result<string, PathError>,
                checkSubdirectories: bool, mkdirFails: string -> bool, rest: Flush): Flush
  {
    match relativeOf(fileName)
    case Err(_) => Flush([], [], RelativePathOutOfRange(fileName))
    case Ok(relative) =>
      var sub := Subdirectory(relative);
      var dirs := if sub.Some? then [fullPath + "/" + sub.value] else [];
      if sub.Some? && checkSubdirectories && mkdirFails(fullPath + "/" + sub.value) then
        Flush(dirs, [], SubdirectoryMkdirFailed(fullPath + "/" + sub.value))
      else
        Flush(dirs + rest.directories, [(OutputFilePath(fullPath, relative), fileName)] + rest.files, rest.status)
  }

  /** The buffer loop, over the buffers' file names in iteration order. */
  function WriteBuffers(fullPath: string, order: seq<string>, relativeOf: string -> Result<string, PathError>,
                        checkSubdirectories: bool, mkdirFails: string -> bool): Flush
    decreases |order|
  {
    if |order| == 0 then Flush([], [], Written)
    else Turn(fullPath, order[0], relativeOf, checkSubdirectories, mkdirFails,
              WriteBuffers(fullPath, order[1..], relativeOf, checkSubdirectories, mkdirFails))
  }

  /** `writeChangesToOutput`: the version directory first; if it cannot be made, nothing is written. */
  function WriteChanges(fullPath: string, order: seq<string>, relativeOf: string -> Result<string, PathError>,
                        checkSubdirectories: bool, mkdirFails: string -> bool): Flush
  {
    if mkdirFails(fullPath) then Flush([fullPath], [], MkdirFailed)
    else
      var f := WriteBuffers(fullPath, order, relativeOf, checkSubdirectories, mkdirFails);
      Flush([fullPath] + f.directories, f.files, f.status)
  }

  /**
   * The buffers are written in order, each to `fullPath + "/" + relative`;
   * the flush completes exactly when every buffer is written; and a writer
   * that does not check subdirectories stops only on a path that throws.
   */
  lemma {:induction false} WriteBuffersSpec(fullPath: string, order: seq<string>, relativeOf: string -> Result<string, PathError>,
                                            checkSubdirectories: bool, mkdirFails: string -> bool)
    ensures var f := WriteBuffers(fullPath, order, relativeOf, checkSubdirectories, mkdirFails);
            |f.files| <= |order| &&
            (forall i :: 0 <= i < |f.files| ==>
               f.files[i].1 == order[i] && relativeOf(order[i]).Ok? &&
               f.files[i].0 == OutputFilePath(fullPath, relativeOf(order[i]).value)) &&
            (f.status == Written <==> |f.files| == |order|) &&
            f.status != MkdirFailed &&
            (!checkSubdirectories ==> !f.status.SubdirectoryMkdirFailed?) &&
            (f.status.RelativePathOutOfRange? ==> relativeOf(order[|f.files|]).Err?)
    decreases |order|
  {
    if |order| > 0 && relativeOf(order[0]).Ok? {
      var relative := relativeOf(order[0]).value;
      var sub := Subdirectory(relative);
      if !(sub.Some? && checkSubdirectories && mkdirFails(fullPath + "/" + sub.value)) {
        WriteBuffersSpec(fullPath, order[1..], relativeOf, checkSubdirectories, mkdirFails);
        var rest := WriteBuffers(fullPath, order[1..], relativeOf, checkSubdirectories, mkdirFails);
        var f := WriteBuffers(fullPath, order, relativeOf, checkSubdirectories, mkdirFails);
        assert f.files == [(OutputFilePath(fullPath, relative), order[0])] + rest.files;
        forall i | 0 <= i < |f.files|
          ensures f.files[i].1 == order[i] && relativeOf(order[i]).Ok? &&
                  f.files[i].0 == OutputFilePath(fullPath, relativeOf(order[i]).value)
        {
          if i > 0 {
            assert f.files[i] == rest.files[i - 1];
            assert order[i] == order[1..][i - 1];
          }
        }
        if f.status.RelativePathOutOfRange? {
          assert order[|f.files|] == order[1..][|rest.files|];
        }
      }
    }
  }

  /** The rewriter's buffers, once each, in the order the buffer iterator visits them. */
  predicate BufferOrder(rw: Rewriter, order: seq<string>)
    reads rw
  {
    Distinct(order) && (set i | 0 <= i < |order| :: order[i]) == rw.Buffers()
  }

  /** The loop from buffer `i` on is the turn at `i` followed by the loop from `i + 1` on. */
  lemma WriteBuffersUnfold(fullPath: string, order: seq<string>, i: nat, relativeOf: string -> Result<string, PathError>,
                           checkSubdirectories: bool, mkdirFails: string -> bool)
    requires i < |order|
    ensures WriteBuffers(fullPath, order[i..], relativeOf, checkSubdirectories, mkdirFails)
              == Turn(fullPath, order[i], relativeOf, checkSubdirectories, mkdirFails,
                      WriteBuffers(fullPath, order[i + 1..], relativeOf, checkSubdirectories, mkdirFails))
  {
    assert order[i..][0] == order[i] && order[i..][1..] == order[i + 1..];
  }

  /**
   * One turn of the buffer loop: the directories it asks for, the file it
   * writes, and, when the flush ends here, how.
   */
  method WriteBuffer(fullPath: string, fileName: string, relativeOf: string -> Result<string, PathError>,
                     checkSubdirectories: bool, mkdirFails: string -> bool)
    returns (dirs: seq<string>, written: (string, string), stop: Option<WriteStatus>)
    ensures forall rest: Flush {:trigger Turn(fullPath, fileName, relativeOf, checkSubdirectories, mkdirFails, rest)} ::
              Turn(fullPath, fileName, relativeOf, checkSubdirectories, mkdirFails, rest)
                == if stop.Some? then Flush(dirs, [], stop.value)
                   else Flush(dirs + rest.directories, [written] + rest.files, rest.status)
  {
    written := ("", fileName);
    var r := relativeOf(fileName);
    if r.Err? {
      return [], written, Some(RelativePathOutOfRange(fileName));
    }
    var relative := r.value;
    written := (OutputFilePath(fullPath, relative), fileName);
    var sub := Subdirectory(relative);
    dirs := [];
    stop := None;
    if sub.Some? {
      var dir := fullPath + "/" + sub.value;
      dirs := [dir];
      if checkSubdirectories && mkdirFails(dir) {
        stop := Some(SubdirectoryMkdirFailed(dir));
      }
    }
  }

  /**
   * `writeChangesToOutput` as a loop: `mkdirFails(d)` says whether
   * `system("mkdir -p " + d)` returns -1, and a buffer's contents are named
   * by its file.
   */
  method WriteChangesToOutput(fullPath: string, order: seq<string>, relativeOf: string -> Result<string, PathError>,
                              checkSubdirectories: bool, mkdirFails: string -> bool) returns (flush: Flush)
    ensures flush == WriteChanges(fullPath, order, relativeOf, checkSubdirectories, mkdirFails)
  {
    if mkdirFails(fullPath) {
      return Flush([fullPath], [], MkdirFailed);
    }
    ghost var whole := WriteBuffers(fullPath, order, relativeOf, checkSubdirectories, mkdirFails);
    var directories := [fullPath];
    var files: seq<(string, string)> := [];
    ghost var rest := whole;
    var i := 0;
    assert order[0..] == order;
    while i < |order|
      invariant 0 <= i <= |order|
      invariant rest == WriteBuffers(fullPath, order[i..], relativeOf, checkSubdirectories, mkdirFails)
      invariant [fullPath] + whole.directories == directories + rest.directories
      invariant whole.files == files + rest.files
      invariant whole.status == rest.status
    {
      WriteBuffersUnfold(fullPath, order, i, relativeOf, checkSubdirectories, mkdirFails);
      ghost var next := WriteBuffers(fullPath, order[i + 1..], relativeOf, checkSubdirectories, mkdirFails);
      var dirs, written, stop := WriteBuffer(fullPath, order[i], relativeOf, checkSubdirectories, mkdirFails);
      assert rest == Turn(fullPath, order[i], relativeOf, checkSubdirectories, mkdirFails, next);
      if stop.Some? {
        assert files + rest.files == files;
        return Flush(directories + dirs, files, stop.value);
      }
      assert directories + rest.directories == (directories + dirs) + next.directories;
      ConcatAssociates(files, [written], next.files);
      directories := directories + dirs;
      files := files + [written];
      rest := next;
      i := i + 1;
    }
    flush := Flush(directories, files, Written);
  }

  /** The phase a `SemanticFrontendAction` runs in. */
  datatype Phase = Analysis | Rewrite

  /**
   * `SemanticFrontendAction::EndSourceFileAction`: only in the rewrite
   * phase and only with some buffer, the changes are written under
   * `outputPrefix + "v" + version` and then undone. A relative path that
   * throws `std::out_of_range` leaves the action before `undoChanges`, and,
   * since nothing catches it, ends the tool: the edits stay.
   */
  method SemanticEndSourceFileAction(rw: Rewriter, phase: Phase, outputPrefix: string, version: nat,
                                     baseDirectory: string, order: seq<string>, mkdirFails: string -> bool)
    returns (flush: Option<Flush>)
    requires BufferOrder(rw, order)
    modifies rw
    ensures phase == Rewrite && old(rw.HasBuffers()) ==>
              flush == Some(WriteChanges(FullPath(outputPrefix, version), order,
                                         f => RelativePath(f, baseDirectory), false, mkdirFails))
    ensures flush.Some? && !flush.value.status.RelativePathOutOfRange? ==> !rw.HasBuffers()
    ensures flush.Some? && flush.value.status.RelativePathOutOfRange? ==> rw.edits == old(rw.edits)
    ensures !(phase == Rewrite && old(rw.HasBuffers())) ==> flush.None? && rw.edits == old(rw.edits)
  {
    if phase == Rewrite && rw.HasBuffers() {
      var f := WriteChangesToOutput(FullPath(outputPrefix, version), order,
                                    f => RelativePath(f, baseDirectory), false, mkdirFails);
      flush := Some(f);
      if !f.status.RelativePathOutOfRange? {
        rw.UndoChanges();
      }
    } else {
      flush := None;
    }
  }

  /**
   * `RewritingFrontendAction::EndSourceFileAction`: with some buffer, the
   * changes are written under `outputPrefix + "v" + id`, a failed
   * subdirectory `mkdir` stopping the rest, and then undone, so every
   * version starts from a clean rewriter. A relative path that throws
   * `std::out_of_range` skips `undoChanges` and ends the tool: no next
   * version runs, and the edits stay.
   */
  method RewritingEndSourceFileAction(rw: Rewriter, outputPrefix: string, id: nat,
                                      baseDirectory: string, order: seq<string>, mkdirFails: string -> bool)
    returns (flush: Option<Flush>)
    requires BufferOrder(rw, order)
    modifies rw
    ensures old(rw.HasBuffers()) ==>
              flush == Some(WriteChanges(FullPath(outputPrefix, id), order,
                                         f => RelativePath(f, baseDirectory), true, mkdirFails))
    ensures !old(rw.HasBuffers()) ==> flush.None? && rw.edits == old(rw.edits)
    ensures flush.Some? && flush.value.status.RelativePathOutOfRange? ==> rw.edits == old(rw.edits)
    ensures !(flush.Some? && flush.value.status.RelativePathOutOfRange?) ==> !rw.HasBuffers()
  {
    if rw.HasBuffers() {
      var f := WriteChangesToOutput(FullPath(outputPrefix, id), order,
                                    f => RelativePath(f, baseDirectory), true, mkdirFails);
      flush := Some(f);
      if !f.status.RelativePathOutOfRange? {
        rw.UndoChanges();
      }
    } else {
      flush := None;
    }
  }

  /**
   * A flush writes nothing when the version directory cannot be made, and
   * otherwise writes, in buffer order, each buffer to the version directory
   * joined with its relative path.
   */
  lemma WriteChangesSpec(fullPath: string, order: seq<string>, relativeOf: string -> Result<string, PathError>,
                         checkSubdirectories: bool, mkdirFails: string -> bool)
    ensures var f := WriteChanges(fullPath, order, relativeOf, checkSubdirectories, mkdirFails);
            |f.directories| > 0 && f.directories[0] == fullPath &&
            |f.files| <= |order| &&
            (mkdirFails(fullPath) <==> f.status == MkdirFailed) &&
            (f.status == MkdirFailed ==> f.files == []) &&
            (f.status == Written <==> !mkdirFails(fullPath) && |f.files| == |order|) &&
            forall i :: 0 <= i < |f.files| ==>
              f.files[i].1 == order[i] && relativeOf(order[i]).Ok? &&
              f.files[i].0 == OutputFilePath(fullPath, relativeOf(order[i]).value)
  {
    WriteBuffersSpec(fullPath, order, relativeOf, checkSubdirectories, mkdirFails);
  }
}
