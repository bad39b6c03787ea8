/**
 * The older struct reordering pass: an analyser that records each struct's
 * fields under the struct's name, a rewriter that finds every field's slot
 * by its recorded position and writes the chosen field there, a set that
 * keeps a struct from being rewritten twice, and the flush at the end of
 * each source file.
 */
module SemanticAnalyser {
  import opened Common
  import opened Permutations
  import opened Ast
  import opened Rewriting
  import opened OutputPaths

  /** `FieldData`: the field's position in its declaration, its name, its type and its source range. */
  datatype FieldData = FieldData(position: int, fieldName: string, fieldType: string, sourceRange: SourceRange)

  /** `StructData` of the older revision: the struct's name and file, and its fields as recorded. */
  class StructData {
    const name: string
    const fileName: string
    var fieldData: seq<FieldData>

    constructor (name: string, fileName: string)
      ensures this.name == name && this.fileName == fileName && fieldData == []
    {
      this.name := name;
      this.fileName := fileName;
      fieldData := [];
    }

    /** `addFieldData(position, name, type, range)`: appended after the fields recorded so far. */
    method AddFieldData(position: int, fieldName: string, fieldType: string, sourceRange: SourceRange)
      modifies this
      ensures fieldData == old(fieldData) + [FieldData(position, fieldName, fieldType, sourceRange)]
    {
      fieldData := fieldData + [FieldData(position, fieldName, fieldType, sourceRange)];
    }
  }

  /** The fields the analyser records for a declaration: positions `0, 1, ...` in declaration order. */
  function Recorded(fs: seq<Field>): seq<FieldData> {
    seq(|fs|, i requires 0 <= i < |fs| => FieldData(i, fs[i].name, fs[i].typeName, fs[i].range))
  }

  /**
   * The struct scratch state of the older revision: the analysed structs by
   * name, the reorderings to apply by name, and the names already rewritten.
   */
  class StructReordering {
    var structMap: map<string, StructData>
    var structReorderings: map<string, StructData>
    var rewritten: set<string>

    constructor ()
      ensures structMap == map[] && structReorderings == map[] && rewritten == {}
    {
      structMap := map[];
      structReorderings := map[];
      rewritten := {};
    }

    /** The recorded fields of every analysed struct, by name. */
    ghost function FieldsView(): map<string, seq<FieldData>>
      reads this, structMap.Values
    {
      map n | n in structMap :: structMap[n].fieldData
    }
  }

  /** One analysed declaration: a struct whose name is still unknown gets the declaration's fields. */
  function RecordStep(m: map<string, seq<FieldData>>, d: RecordDecl, requireDefinition: bool): map<string, seq<FieldData>> {
    if d.kind == StructKind && (d.isDefinition || !requireDefinition) && d.name !in m
    then m[d.name := Recorded(d.fields)]
    else m
  }

  /**
   * The fields recorded per struct name after visiting `decls` in order.
   * The analyser as written registers every struct declaration
   * (`requireDefinition` false); the later revision registers definitions only.
   */
  function RecordAll(m: map<string, seq<FieldData>>, decls: seq<RecordDecl>, requireDefinition: bool): map<string, seq<FieldData>>
    decreases |decls|
  {
    if |decls| == 0 then m
    else RecordStep(RecordAll(m, decls[..|decls| - 1], requireDefinition), decls[|decls| - 1], requireDefinition)
  }

  /**
   * `SemanticAnalyser::VisitRecordDecl`: a struct whose name is already in
   * the struct map is skipped; any other struct declaration gets a fresh
   * `StructData` holding its fields at positions `0..k-1`.
   */
  method VisitRecordDecl(s: StructReordering, d: RecordDecl)
    modifies s
    ensures s.FieldsView() == RecordStep(old(s.FieldsView()), d, false)
    ensures d.kind == StructKind && d.name !in old(s.structMap) ==>
              d.name in s.structMap && s.structMap == old(s.structMap)[d.name := s.structMap[d.name]] &&
              fresh(s.structMap[d.name]) && s.structMap[d.name].name == d.name && s.structMap[d.name].fileName == d.fileName
    ensures !(d.kind == StructKind && d.name !in old(s.structMap)) ==> s.structMap == old(s.structMap)
    ensures s.structReorderings == old(s.structReorderings) && s.rewritten == old(s.rewritten)
  {
    if d.kind == StructKind {
      var structName := d.name;
      if structName in s.structMap {
        return;
      }
      var structData := new StructData(structName, d.fileName);
      var position := 0;
      while position < |d.fields|
        invariant 0 <= position <= |d.fields|
        invariant structData.fieldData == Recorded(d.fields)[..position]
        invariant s.structMap == old(s.structMap) && s.structReorderings == old(s.structReorderings) && s.rewritten == old(s.rewritten)
      {
        var field := d.fields[position];
        structData.AddFieldData(position, field.name, field.typeName, field.range);
        position := position + 1;
      }
      assert Recorded(d.fields)[..position] == Recorded(d.fields);
      s.structMap := s.structMap[structName := structData];
      assert s.FieldsView() == old(s.FieldsView())[structName := Recorded(d.fields)];
    }
  }

  /** The analysis phase: every record declaration, in traversal order. */
  method Analyse(s: StructReordering, decls: seq<RecordDecl>)
    modifies s
    ensures s.FieldsView() == RecordAll(old(s.FieldsView()), decls, false)
    ensures s.structReorderings == old(s.structReorderings) && s.rewritten == old(s.rewritten)
  {
    ghost var m := s.FieldsView();
    var i := 0;
    while i < |decls|
      invariant 0 <= i <= |decls|
      invariant s.FieldsView() == RecordAll(m, decls[..i], false)
      invariant s.structReorderings == old(s.structReorderings) && s.rewritten == old(s.rewritten)
    {
      VisitRecordDecl(s, decls[i]);
      assert decls[..i + 1][..i] == decls[..i];
      i := i + 1;
    }
    assert decls[..|decls|] == decls;
  }

  /** There is a struct declaration named `n` among `decls[..k]` that the analysis would register. */
  predicate RegisteredBefore(decls: seq<RecordDecl>, k: nat, n: string, requireDefinition: bool)
    requires k <= |decls|
  {
    exists j :: 0 <= j < k && decls[j].kind == StructKind && (decls[j].isDefinition || !requireDefinition) && decls[j].name == n
  }

  /**
   * From an empty map, a name is recorded exactly when some registered
   * declaration carries it, and it holds the fields of the first such
   * declaration.
   */
  lemma {:induction false} FirstRecordWins(decls: seq<RecordDecl>, requireDefinition: bool, n: string)
    ensures n in RecordAll(map[], decls, requireDefinition) <==> RegisteredBefore(decls, |decls|, n, requireDefinition)
    ensures forall i :: 0 <= i < |decls| && decls[i].kind == StructKind && (decls[i].isDefinition || !requireDefinition) &&
                        decls[i].name == n && !RegisteredBefore(decls, i, n, requireDefinition) ==>
              RecordAll(map[], decls, requireDefinition)[n] == Recorded(decls[i].fields)
    decreases |decls|
  {
    if |decls| > 0 {
      var init := decls[..|decls| - 1];
      var last := decls[|decls| - 1];
      FirstRecordWins(init, requireDefinition, n);
      assert forall k :: 0 <= k <= |init| ==> (RegisteredBefore(init, k, n, requireDefinition) <==> RegisteredBefore(decls, k, n, requireDefinition)) by {
        forall k | 0 <= k <= |init|
          ensures RegisteredBefore(init, k, n, requireDefinition) <==> RegisteredBefore(decls, k, n, requireDefinition)
        {
          assert forall j :: 0 <= j < k ==> init[j] == decls[j];
        }
      }
      forall i | 0 <= i < |decls| && decls[i].kind == StructKind && (decls[i].isDefinition || !requireDefinition) &&
                 decls[i].name == n && !RegisteredBefore(decls, i, n, requireDefinition)
        ensures RecordAll(map[], decls, requireDefinition)[n] == Recorded(decls[i].fields)
      {
        if i < |init| {
          assert init[i] == decls[i];
          assert RegisteredBefore(init, |init|, n, requireDefinition);
        }
      }
    }
  }

  /**
   * The analyser as written lets a forward declaration hide the definition:
   * after `struct S;` and then `struct S { int a; int b; };`, `S` is recorded
   * with no fields.
   */
  lemma ForwardDeclarationHidesFields()
    ensures var r := SourceRange("a.c", 0, 0);
            var def := RecordDecl("S", None, "a.c", StructKind, true,
                                  [Field("a", "int", OtherType, r, "int a", false), Field("b", "int", OtherType, r, "int b", false)]);
            var fwd := RecordDecl("S", None, "a.c", StructKind, false, []);
            RecordAll(map[], [fwd, def], false)["S"] == [] &&
            RecordAll(map[], [fwd, def], true)["S"] == Recorded(def.fields) && |Recorded(def.fields)| == 2
  {
    var r := SourceRange("a.c", 0, 0);
    var def := RecordDecl("S", None, "a.c", StructKind, true,
                          [Field("a", "int", OtherType, r, "int a", false), Field("b", "int", OtherType, r, "int b", false)]);
    var fwd := RecordDecl("S", None, "a.c", StructKind, false, []);
    var decls := [fwd, def];
    assert decls[..1] == [fwd] && [fwd][..0] == [];
    assert RecordAll(map[], [fwd], false) == map["S" := []];
    assert RecordAll(map[], [fwd], true) == map[];
    assert RecordAll(map[], decls, false) == RecordStep(map["S" := []], def, false);
    assert RecordAll(map[], decls, true) == RecordStep(map[], def, true);
  }

  /**
   * Registering definitions only, every analysed struct holds the fields of
   * its first definition, and a forward declaration records nothing.
   */
  lemma FirstDefinitionRecorded(decls: seq<RecordDecl>, n: string)
    ensures n in RecordAll(map[], decls, true) <==>
              exists j :: 0 <= j < |decls| && decls[j].kind == StructKind && decls[j].isDefinition && decls[j].name == n
    ensures forall i :: 0 <= i < |decls| && decls[i].kind == StructKind && decls[i].isDefinition && decls[i].name == n &&
                        !RegisteredBefore(decls, i, n, true) ==>
              RecordAll(map[], decls, true)[n] == Recorded(decls[i].fields)
  {
    FirstRecordWins(decls, true, n);
  }

  // ---------------------------------------------------------------- rewriting

  /** The first index at or after `from` whose recorded position is `position`. */
  function FindField(fd: seq<FieldData>, position: int, from: nat): (r: Option<nat>)
    requires from <= |fd|
    ensures r.Some? ==> from <= r.value < |fd| && fd[r.value].position == position
    ensures r.Some? ==> forall q :: from <= q < r.value ==> fd[q].position != position
    ensures r.None? ==> forall q :: from <= q < |fd| ==> fd[q].position != position
    decreases |fd| - from
  {
    if from == |fd| then None
    else if fd[from].position == position then Some(from)
    else FindField(fd, position, from + 1)
  }

  /** `FieldData found;` before the first search: default-constructed, with an invalid source range. */
  const UNSET_FIELD: FieldData := FieldData(0, "", "", SourceRange("", 0, 0))

  /** The text written for a substitute field: `type + " " + name`. */
  function Substitute(f: FieldData): string {
    f.fieldType + " " + f.fieldName
  }

  /**
   * The replacements of the position-search loop from slot `i` on: the
   * field recorded at position `i` (or, when there is none, the one found
   * last) receives the text of `fd[i]`.
   */
  function PositionEditsFrom(fd: seq<FieldData>, i: nat, found: FieldData): seq<Edit>
    requires i <= |fd|
    decreases |fd| - i
  {
    if i == |fd| then []
    else
      var f := match FindField(fd, i, 0) case Some(j) => fd[j] case None => found;
      [Edit(f.sourceRange, Substitute(fd[i]))] + PositionEditsFrom(fd, i + 1, f)
  }

  function PositionEdits(fd: seq<FieldData>): seq<Edit> {
    PositionEditsFrom(fd, 0, UNSET_FIELD)
  }

  /** The recorded fields reordered by `ordering`: slot `i` holds recorded field `ordering[i]`, position included. */
  function Reordered(fs: seq<Field>, ordering: seq<nat>): seq<FieldData>
    requires IsPermutation(ordering, |fs|)
  {
    PermutationIsOrderingFor(ordering, |fs|);
    Apply(ordering, Recorded(fs))
  }

  /** The declared text of every field: `type + " " + name`. */
  function DeclaredTexts(fs: seq<Field>): (r: seq<string>)
    ensures |r| == |fs|
  {
    seq(|fs|, i requires 0 <= i < |fs| => fs[i].typeName + " " + fs[i].name)
  }

  function DeclaredRanges(fs: seq<Field>): (r: seq<SourceRange>)
    ensures |r| == |fs|
  {
    seq(|fs|, i requires 0 <= i < |fs| => fs[i].range)
  }

  lemma {:induction false} PositionEditsFromReordered(fs: seq<Field>, ordering: seq<nat>, i: nat, found: FieldData)
    requires IsPermutation(ordering, |fs|) && i <= |fs|
    ensures OrderingFor(ordering, |fs|)
    ensures PositionEditsFrom(Reordered(fs, ordering), i, found)
              == SlotEdits(DeclaredRanges(fs), DeclaredTexts(fs), ordering)[i..]
    decreases |fs| - i
  {
    PermutationIsOrderingFor(ordering, |fs|);
    var fd := Reordered(fs, ordering);
    var edits := SlotEdits(DeclaredRanges(fs), DeclaredTexts(fs), ordering);
    if i < |fs| {
      PermutationSurjective(ordering, |fs|, i);
      var w :| 0 <= w < |fs| && ordering[w] == i;
      assert fd[w].position == i;
      var j := FindField(fd, i, 0).value;
      assert fd[j].sourceRange == fs[i].range;
      PositionEditsFromReordered(fs, ordering, i + 1, fd[j]);
      assert edits[i..] == [edits[i]] + edits[i + 1..];
    } else {
      assert edits[i..] == [];
    }
  }

  /**
   * When the reordering to apply is the recorded fields permuted by a
   * permutation `ordering`, the position search gives field slot `i` the
   * declaration of field `ordering[i]`: the slot substitution of the later
   * revision, which the inverse ordering undoes.
   */
  lemma PositionRewriteIsSlotSubstitution(fs: seq<Field>, ordering: seq<nat>)
    requires IsPermutation(ordering, |fs|)
    ensures OrderingFor(ordering, |fs|)
    ensures PositionEdits(Reordered(fs, ordering)) == SlotEdits(DeclaredRanges(fs), DeclaredTexts(fs), ordering)
    ensures Ranges(PositionEdits(Reordered(fs, ordering))) == DeclaredRanges(fs)
    ensures InRange(Inverse(ordering), |fs|)
    ensures Apply(Inverse(ordering), Texts(PositionEdits(Reordered(fs, ordering)))) == DeclaredTexts(fs)
  {
    PositionEditsFromReordered(fs, ordering, 0, UNSET_FIELD);
    var edits := SlotEdits(DeclaredRanges(fs), DeclaredTexts(fs), ordering);
    assert edits[0..] == edits;
    SlotEditsApply(DeclaredRanges(fs), DeclaredTexts(fs), ordering);
    SlotEditsRoundTrip(DeclaredRanges(fs), DeclaredTexts(fs), ordering);
  }

  /** The rewrite loop: for each slot `i`, search the field recorded at position `i`, then write `fieldData[i]` there. */
  method RewriteFields(fieldData: seq<FieldData>, rw: Rewriter)
    modifies rw
    ensures rw.edits == old(rw.edits) + PositionEdits(fieldData)
  {
    var i := 0;
    var found := UNSET_FIELD;
    while i < |fieldData|
      invariant 0 <= i <= |fieldData|
      invariant rw.edits + PositionEditsFrom(fieldData, i, found) == old(rw.edits) + PositionEdits(fieldData)
    {
      ghost var previous := found;
      ghost var hit: Option<nat> := None;
      var j := 0;
      while j < |fieldData|
        invariant 0 <= j <= |fieldData|
        invariant hit.None? && found == previous
        invariant forall q :: 0 <= q < j ==> fieldData[q].position != i
      {
        if fieldData[j].position == i {
          found := fieldData[j];
          hit := Some(j);
          assert FindField(fieldData, i, 0) == hit;
          break;
        }
        j := j + 1;
      }
      assert hit == FindField(fieldData, i, 0);
      assert hit.Some? ==> found == fieldData[hit.value];
      assert hit.None? ==> found == previous;
      var substitute := fieldData[i];
      var edit := Edit(found.sourceRange, Substitute(substitute));
      assert PositionEditsFrom(fieldData, i, previous) == [edit] + PositionEditsFrom(fieldData, i + 1, found);
      ConcatAssociates(rw.edits, [edit], PositionEditsFrom(fieldData, i + 1, found));
      rw.ReplaceText(found.sourceRange, Substitute(substitute));
      i := i + 1;
    }
  }

  /**
   * `SemanticRewriter::VisitRecordDecl`: a struct with a reordering that has
   * not been rewritten yet gets the position-search replacements of its
   * reordered fields and is then marked rewritten; nothing else changes.
   */
  method RewriteRecordDecl(s: StructReordering, d: RecordDecl, rw: Rewriter)
    modifies s, rw
    ensures var rewrites := d.kind == StructKind && d.name in old(s.structReorderings) && d.name !in old(s.rewritten);
            (rewrites ==> rw.edits == old(rw.edits) + PositionEdits(old(s.structReorderings[d.name].fieldData)) &&
                          s.rewritten == old(s.rewritten) + {d.name}) &&
            (!rewrites ==> rw.edits == old(rw.edits) && s.rewritten == old(s.rewritten))
    ensures s.structMap == old(s.structMap) && s.structReorderings == old(s.structReorderings)
  {
    if d.kind == StructKind {
      var structName := d.name;
      if structName in s.structReorderings {
        if structName in s.rewritten {
          return;
        }
        var structData := s.structReorderings[structName];
        var fieldData := structData.fieldData;
        RewriteFields(fieldData, rw);
        s.rewritten := s.rewritten + {structName};
      }
    }
  }

  /** A struct is rewritten at most once: a second visit of the same declaration changes nothing. */
  method RewriteRecordDeclTwice(s: StructReordering, d: RecordDecl, rw: Rewriter)
    modifies s, rw
    ensures var rewrites := d.kind == StructKind && d.name in old(s.structReorderings) && d.name !in old(s.rewritten);
            (rewrites ==> rw.edits == old(rw.edits) + PositionEdits(old(s.structReorderings[d.name].fieldData))) &&
            (!rewrites ==> rw.edits == old(rw.edits))
  {
    RewriteRecordDecl(s, d, rw);
    RewriteRecordDecl(s, d, rw);
  }

  /**
   * `SemanticAnalyserFrontendAction::EndSourceFileAction`: outside the
   * analysis, when some buffer exists, the changes are written with the
   * analyser's relative path (one character past the base directory and
   * no check of the subdirectory's `mkdir`), and every buffer is dropped.
   * A relative path that throws `std::out_of_range` skips `undoChanges` and,
   * since nothing catches it, ends the tool: the edits stay.
   */
  method AnalyserEndSourceFileAction(rw: Rewriter, analysis: bool, outputPrefix: string, version: nat,
                                     baseDirectory: string, order: seq<string>, mkdirFails: string -> bool)
    returns (flush: Option<Flush>)
    requires BufferOrder(rw, order)
    modifies rw
    ensures !analysis && old(rw.HasBuffers()) ==>
              flush == Some(WriteChanges(FullPath(outputPrefix, version), order,
                                         f => AnalyserRelativePath(f, baseDirectory), false, mkdirFails))
    ensures flush.Some? && !flush.value.status.RelativePathOutOfRange? ==> !rw.HasBuffers()
    ensures flush.Some? && flush.value.status.RelativePathOutOfRange? ==> rw.edits == old(rw.edits)
    ensures !(!analysis && old(rw.HasBuffers())) ==> flush.None? && rw.edits == old(rw.edits)
  {
    if !analysis && rw.HasBuffers() {
      var f := WriteChangesToOutput(FullPath(outputPrefix, version), order,
                                    f => AnalyserRelativePath(f, baseDirectory), false, mkdirFails);
      flush := Some(f);
      if !f.status.RelativePathOutOfRange? {
        rw.UndoChanges();
      }
    } else {
      flush := None;
    }
  }
}
