/**
 * Struct field reordering: how a struct is identified (`StructUnique`),
 * which struct definitions the analyser registers, which uses of a struct
 * type invalidate it (the recursive walk through struct, union and array
 * types), and how the rewriter permutes the fields of the chosen struct.
 */
module StructReordering {
  import opened Common
  import opened Strings
  import opened Permutations
  import opened Ast
  import opened Candidates
  import opened Rewriting

  // --------------------------------------------------------------- identity

  /** `StructUnique`: the struct's name and the file of its declaration. */
  datatype StructUnique = StructUnique(name: string, fileName: string)

  /** `StructUnique(D, astContext)`: an anonymous struct takes the name of the typedef it was declared in, if any. */
  function StructUniqueOf(d: RecordDecl): (s: StructUnique)
    ensures s.fileName == d.fileName
    ensures d.name != [] ==> s.name == d.name
    ensures d.name == [] && d.typedefName.Some? ==> s.name == d.typedefName.value
    ensures d.name == [] && d.typedefName.None? ==> s.name == []
  {
    var name := if d.name == [] && d.typedefName.Some? then d.typedefName.value else d.name;
    StructUnique(name, d.fileName)
  }

  /** `StructUnique::operator==`. */
  predicate Equal(a: StructUnique, b: StructUnique) {
    if a.name != b.name then false
    else if a.fileName != b.fileName then false
    else true
  }

  /** Two struct identities are equal exactly when name and file both match: there is no global/local distinction. */
  lemma EqualIffSame(a: StructUnique, b: StructUnique)
    ensures Equal(a, b) <==> a.name == b.name && a.fileName == b.fileName
    ensures Equal(a, b) <==> a == b
  {
  }

  /** The string `operator<` compares: `name:fileName`. */
  function Key(s: StructUnique): string {
    s.name + ":" + s.fileName
  }

  /** `StructUnique::operator<`. */
  predicate Less(a: StructUnique, b: StructUnique) {
    LexLess(Key(a), Key(b))
  }

  /** `<` is a strict order whose equivalence classes are the identities with one key. */
  lemma LessIsStrictOrder(a: StructUnique, b: StructUnique, c: StructUnique)
    ensures !Less(a, a)
    ensures Less(a, b) ==> !Less(b, a)
    ensures Less(a, b) && Less(b, c) ==> Less(a, c)
    ensures (!Less(a, b) && !Less(b, a)) <==> Key(a) == Key(b)
  {
    LexLessIrreflexive(Key(a));
    if Less(a, b) {
      LexLessAsymmetric(Key(a), Key(b));
    }
    if Less(a, b) && Less(b, c) {
      LexLessTransitive(Key(a), Key(b), Key(c));
    }
    LexEquivalentIffEqual(Key(a), Key(b));
  }

  /** For structs named by C identifiers, sharing a registry key is the same as `operator==`. */
  lemma KeyMatchesEqual(a: StructUnique, b: StructUnique)
    requires NoColon(a.name) && NoColon(b.name)
    ensures Equal(a, b) <==> Key(a) == Key(b)
  {
    if Key(a) == Key(b) {
      NoColonJoinInjective(a.name, a.fileName, b.name, b.fileName);
    }
  }

  /** Anonymous structs without a typedef in one file all have the same identity, so they share one entry. */
  lemma AnonymousStructsShareIdentity(d1: RecordDecl, d2: RecordDecl)
    requires d1.name == [] && d1.typedefName.None? && d2.name == [] && d2.typedefName.None?
    requires d1.fileName == d2.fileName
    ensures Equal(StructUniqueOf(d1), StructUniqueOf(d2))
    ensures Key(StructUniqueOf(d1)) == Key(StructUniqueOf(d2))
  {
  }

  // ---------------------------------------------------------------- analysis

  /** Some field starts in a macro. */
  predicate SomeFieldInMacro(fs: seq<Field>) {
    exists i :: 0 <= i < |fs| && fs[i].inMacro
  }

  /**
   * A record the analyser registers: a struct definition with at least two
   * fields, in the base directory, none of whose fields starts in a macro.
   */
  predicate Eligible(d: RecordDecl, baseDirectory: string) {
    d.kind == StructKind && d.isDefinition && |d.fields| >= 2
    && InBaseDirectory(d.fileName, baseDirectory) && !SomeFieldInMacro(d.fields)
  }

  /** What `addFields` records for each field: its name and its type. */
  function FieldItems(fs: seq<Field>): (r: seq<Item>)
    ensures |r| == |fs|
  {
    seq(|fs|, i requires 0 <= i < |fs| => Item(fs[i].name, fs[i].typeName))
  }

  /** The registry updates of `VisitRecordDecl`. */
  function RecordOps(d: RecordDecl, baseDirectory: string): seq<Op<StructUnique>> {
    if Eligible(d, baseDirectory) then [FillOp(StructUniqueOf(d), FieldItems(d.fields))] else []
  }

  /**
   * The registry updates of `detectStructsRecursively(t)`: a struct in the
   * base directory is invalidated and its fields' types are walked; a struct
   * elsewhere ends the walk; a union's fields and an array's element type
   * are walked; anything else is left alone.
   */
  function WalkOps(t: Type, baseDirectory: string): seq<Op<StructUnique>>
    decreases t, 0
  {
    match t
    case StructType(d) =>
      if InBaseDirectory(d.fileName, baseDirectory)
      then [InvalidateOp(StructUniqueOf(d))] + FieldsWalkOps(d, |d.fields|, baseDirectory)
      else []
    case UnionType(d) => FieldsWalkOps(d, |d.fields|, baseDirectory)
    case ArrayType(element) => WalkOps(element, baseDirectory)
    case OtherType => []
  }

  /** The walks of the types of the first `n` fields of `d`, in field order. */
  function FieldsWalkOps(d: RecordDecl, n: nat, baseDirectory: string): seq<Op<StructUnique>>
    requires n <= |d.fields|
    decreases d, n
  {
    if n == 0 then []
    else FieldsWalkOps(d, n - 1, baseDirectory) + WalkOps(d.fields[n - 1].fieldType, baseDirectory)
  }

  /**
   * The walk from `t` reaches a base-directory struct with `k`'s key: `t` is
   * such a struct, or it reaches one through the fields of a struct in the
   * base directory, the fields of a union, or the element type of an array.
   */
  predicate Reaches(t: Type, baseDirectory: string, k: StructUnique)
    decreases t, 0
  {
    match t
    case StructType(d) =>
      InBaseDirectory(d.fileName, baseDirectory) &&
      (Key(StructUniqueOf(d)) == Key(k) || SomeFieldReaches(d, |d.fields|, baseDirectory, k))
    case UnionType(d) => SomeFieldReaches(d, |d.fields|, baseDirectory, k)
    case ArrayType(element) => Reaches(element, baseDirectory, k)
    case OtherType => false
  }

  /** One of the first `n` fields of `d` has a type from which the walk reaches `k`. */
  predicate SomeFieldReaches(d: RecordDecl, n: nat, baseDirectory: string, k: StructUnique)
    requires n <= |d.fields|
    decreases d, n
  {
    n > 0 && (SomeFieldReaches(d, n - 1, baseDirectory, k) || Reaches(d.fields[n - 1].fieldType, baseDirectory, k))
  }

  /**
   * The walk only invalidates, and it invalidates `k`'s entry exactly when
   * it reaches a base-directory struct with `k`'s key.
   */
  lemma {:induction false} WalkOpsSpec(t: Type, baseDirectory: string, k: StructUnique)
    ensures !HasFill(OpsOn(WalkOps(t, baseDirectory), Key, k))
    ensures HasInvalidate(OpsOn(WalkOps(t, baseDirectory), Key, k)) <==> Reaches(t, baseDirectory, k)
    decreases t, 0
  {
    match t {
      case StructType(d) =>
        if InBaseDirectory(d.fileName, baseDirectory) {
          var head: seq<Op<StructUnique>> := [InvalidateOp(StructUniqueOf(d))];
          var rest := FieldsWalkOps(d, |d.fields|, baseDirectory);
          FieldsWalkOpsSpec(d, |d.fields|, baseDirectory, k);
          OpsOnConcat(head, rest, Key, k);
          OpsOnSingle(head[0], Key, k);
          HasConcat(OpsOn(head, Key, k), OpsOn(rest, Key, k));
        }
      case UnionType(d) =>
        FieldsWalkOpsSpec(d, |d.fields|, baseDirectory, k);
      case ArrayType(element) =>
        WalkOpsSpec(element, baseDirectory, k);
      case OtherType =>
    }
  }

  lemma {:induction false} FieldsWalkOpsSpec(d: RecordDecl, n: nat, baseDirectory: string, k: StructUnique)
    requires n <= |d.fields|
    ensures !HasFill(OpsOn(FieldsWalkOps(d, n, baseDirectory), Key, k))
    ensures HasInvalidate(OpsOn(FieldsWalkOps(d, n, baseDirectory), Key, k)) <==> SomeFieldReaches(d, n, baseDirectory, k)
    decreases d, n
  {
    if n > 0 {
      var a := FieldsWalkOps(d, n - 1, baseDirectory);
      var b := WalkOps(d.fields[n - 1].fieldType, baseDirectory);
      FieldsWalkOpsSpec(d, n - 1, baseDirectory, k);
      WalkOpsSpec(d.fields[n - 1].fieldType, baseDirectory, k);
      OpsOnConcat(a, b, Key, k);
      HasConcat(OpsOn(a, Key, k), OpsOn(b, Key, k));
    }
  }

  /** A variable walks its type when it has global storage, and again when its initializer is an initializer list. */
  function VarOps(v: VarDecl, baseDirectory: string): seq<Op<StructUnique>> {
    (if v.hasGlobalStorage then WalkOps(v.varType, baseDirectory) else [])
    + (if v.init.InitList? then WalkOps(v.varType, baseDirectory) else [])
  }

  /** `StructReordering`: the base and output directories and the candidate registry. */
  class StructReordering {
    const baseDirectory: string
    const outputDirectory: string
    const candidates: Registry<StructUnique>

    ghost predicate Valid()
      reads this, candidates
    {
      candidates.Valid() && candidates.keyOf == Key
    }

    constructor (baseDirectory: string, outputDirectory: string)
      ensures Valid() && fresh(candidates) && fresh(candidates.Repr)
      ensures this.baseDirectory == baseDirectory && this.outputDirectory == outputDirectory
      ensures candidates.Entries() == []
    {
      this.baseDirectory := baseDirectory;
      this.outputDirectory := outputDirectory;
      candidates := new Registry(Key);
    }
  }

  /**
   * `StructReorderingAnalyser::VisitRecordDecl`: an eligible struct
   * definition is looked up (creating its entry) and its fields recorded,
   * but only while the entry is valid and still empty.
   */
  method VisitRecordDecl(r: StructReordering, d: RecordDecl)
    requires r.Valid()
    modifies r.candidates.Repr
    ensures r.Valid()
    ensures old(r.candidates.Repr) <= r.candidates.Repr && fresh(r.candidates.Repr - old(r.candidates.Repr))
    ensures r.candidates.Entries() == Run(old(r.candidates.Entries()), Key, RecordOps(d, r.baseDirectory))
  {
    if d.kind == StructKind && d.isDefinition {
      var size := |d.fields|;
      if size >= 2 {
        var candidate := StructUniqueOf(d);
        if !Contains(candidate.fileName, r.baseDirectory) {
          return;
        }
        var j := 0;
        while j < |d.fields|
          invariant 0 <= j <= |d.fields|
          invariant forall i :: 0 <= i < j ==> !d.fields[i].inMacro
        {
          if d.fields[j].inMacro {
            return;
          }
          j := j + 1;
        }
        var items := FieldItems(d.fields);
        ghost var es := r.candidates.Entries();
        RunOne(es, Key, FillOp(candidate, items));
        var data := r.candidates.Lookup(candidate);
        ghost var es1 := r.candidates.Entries();
        ghost var i := KeyIndex(es1, Key, candidate).value;
        if data.valid && data.Empty() {
          data.AddItems(items);
          assert data.items == items;
          assert forall j :: 0 <= j < |r.candidates.datas| && j != i ==> r.candidates.datas[j] != data;
          assert r.candidates.Entries()[i] == es1[i].(items := items);
          assert r.candidates.Entries() == es1[i := es1[i].(items := items)];
        }
      }
    }
  }

  /** `detectStructsRecursively(t)`. */
  method DetectStructsRecursively(r: StructReordering, t: Type)
    requires r.Valid()
    modifies r.candidates.Repr
    ensures r.Valid()
    ensures old(r.candidates.Repr) <= r.candidates.Repr && fresh(r.candidates.Repr - old(r.candidates.Repr))
    ensures r.candidates.Entries() == Run(old(r.candidates.Entries()), Key, WalkOps(t, r.baseDirectory))
    decreases t, 1
  {
    match t {
      case StructType(d) =>
        var candidate := StructUniqueOf(d);
        if !Contains(candidate.fileName, r.baseDirectory) {
          return;
        }
        ghost var es := r.candidates.Entries();
        RunOne(es, Key, InvalidateOp(candidate));
        r.candidates.Invalidate(candidate);
        ghost var es1 := r.candidates.Entries();
        DetectFields(r, d);
        RunConcat(es, Key, [InvalidateOp(candidate)], FieldsWalkOps(d, |d.fields|, r.baseDirectory));
      case UnionType(d) =>
        DetectFields(r, d);
      case ArrayType(element) =>
        DetectStructsRecursively(r, element);
      case OtherType =>
    }
  }

  /** The field loop of `detectStructsRecursively`: each field's type is walked in turn. */
  method DetectFields(r: StructReordering, d: RecordDecl)
    requires r.Valid()
    modifies r.candidates.Repr
    ensures r.Valid()
    ensures old(r.candidates.Repr) <= r.candidates.Repr && fresh(r.candidates.Repr - old(r.candidates.Repr))
    ensures r.candidates.Entries() == Run(old(r.candidates.Entries()), Key, FieldsWalkOps(d, |d.fields|, r.baseDirectory))
    decreases d, 3
  {
    ghost var all := FieldsWalkOps(d, |d.fields|, r.baseDirectory);
    DetectFieldsFrom(r, d, 0);
    ghost var rest := FieldsWalkOpsFrom(d, 0, r.baseDirectory);
    FieldsWalkOpsSplit(d, 0, r.baseDirectory);
    assert FieldsWalkOps(d, 0, r.baseDirectory) == [];
    assert [] + rest == rest;
    assert rest == all;
  }

  /** The walks from the types of fields `j`, `j + 1`, ... of `d`, in that order. */
  function FieldsWalkOpsFrom(d: RecordDecl, j: nat, baseDirectory: string): seq<Op<StructUnique>>
    requires j <= |d.fields|
    decreases |d.fields| - j
  {
    if j == |d.fields| then []
    else WalkOps(d.fields[j].fieldType, baseDirectory) + FieldsWalkOpsFrom(d, j + 1, baseDirectory)
  }

  /** The walks of the fields before `j` followed by those from `j` on are the walks of all fields. */
  lemma {:induction false} FieldsWalkOpsSplit(d: RecordDecl, j: nat, baseDirectory: string)
    requires j <= |d.fields|
    ensures FieldsWalkOps(d, j, baseDirectory) + FieldsWalkOpsFrom(d, j, baseDirectory)
              == FieldsWalkOps(d, |d.fields|, baseDirectory)
    decreases |d.fields| - j
  {
    if j < |d.fields| {
      FieldsWalkOpsSplit(d, j + 1, baseDirectory);
      var a := FieldsWalkOps(d, j, baseDirectory);
      var b := WalkOps(d.fields[j].fieldType, baseDirectory);
      var c := FieldsWalkOpsFrom(d, j + 1, baseDirectory);
      assert FieldsWalkOps(d, j + 1, baseDirectory) == a + b;
      assert FieldsWalkOpsFrom(d, j, baseDirectory) == b + c;
      ConcatAssociates(a, b, c);
    } else {
      assert FieldsWalkOpsFrom(d, j, baseDirectory) == [];
    }
  }

  /** The fields of `d` from the `j`-th on. */
  method DetectFieldsFrom(r: StructReordering, d: RecordDecl, j: nat)
    requires r.Valid() && j <= |d.fields|
    modifies r.candidates.Repr
    ensures r.Valid()
    ensures old(r.candidates.Repr) <= r.candidates.Repr && fresh(r.candidates.Repr - old(r.candidates.Repr))
    ensures r.candidates.Entries() == Run(old(r.candidates.Entries()), Key, FieldsWalkOpsFrom(d, j, r.baseDirectory))
    decreases d, 2, |d.fields| - j
  {
    if j < |d.fields| {
      ghost var es := r.candidates.Entries();
      ghost var a := WalkOps(d.fields[j].fieldType, r.baseDirectory);
      ghost var b := FieldsWalkOpsFrom(d, j + 1, r.baseDirectory);
      DetectFieldType(r, d, j);
      ghost var es1 := r.candidates.Entries();
      assert es1 == Run(es, Key, a);
      DetectFieldsFrom(r, d, j + 1);
      assert r.candidates.Entries() == Run(es1, Key, b);
      RunConcat(es, Key, a, b);
    }
  }

  /** The walk from the type of field `j` of `d`. */
  method DetectFieldType(r: StructReordering, d: RecordDecl, j: nat)
    requires r.Valid() && j < |d.fields|
    modifies r.candidates.Repr
    ensures r.Valid()
    ensures old(r.candidates.Repr) <= r.candidates.Repr && fresh(r.candidates.Repr - old(r.candidates.Repr))
    ensures r.candidates.Entries() == Run(old(r.candidates.Entries()), Key, WalkOps(d.fields[j].fieldType, r.baseDirectory))
    decreases d, 1
  {
    var field := d.fields[j];
    assert field in d.fields;
    DetectStructsRecursively(r, field.fieldType);
  }

  /** `StructReorderingAnalyser::VisitVarDecl`. */
  method VisitVarDecl(r: StructReordering, v: VarDecl)
    requires r.Valid()
    modifies r.candidates.Repr
    ensures r.Valid()
    ensures old(r.candidates.Repr) <= r.candidates.Repr && fresh(r.candidates.Repr - old(r.candidates.Repr))
    ensures r.candidates.Entries() == Run(old(r.candidates.Entries()), Key, VarOps(v, r.baseDirectory))
  {
    ghost var es := r.candidates.Entries();
    ghost var a := if v.hasGlobalStorage then WalkOps(v.varType, r.baseDirectory) else [];
    ghost var b := if v.init.InitList? then WalkOps(v.varType, r.baseDirectory) else [];
    if v.hasGlobalStorage {
      DetectStructsRecursively(r, v.varType);
    }
    ghost var es1 := r.candidates.Entries();
    assert es1 == Run(es, Key, a);
    if v.init.InitList? {
      DetectStructsRecursively(r, v.varType);
    }
    assert r.candidates.Entries() == Run(es1, Key, b);
    RunConcat(es, Key, a, b);
  }

  /** The nodes the analyser visits, in traversal order. */
  datatype Node =
    | RecordNode(decl: RecordDecl)
    | VarNode(var_: VarDecl)

  function NodeOps(n: Node, baseDirectory: string): seq<Op<StructUnique>> {
    match n
    case RecordNode(d) => RecordOps(d, baseDirectory)
    case VarNode(v) => VarOps(v, baseDirectory)
  }

  /** The registry updates of a whole traversal, in order. */
  function AnalysisOps(nodes: seq<Node>, baseDirectory: string): seq<Op<StructUnique>>
    decreases |nodes|
  {
    if |nodes| == 0 then []
    else AnalysisOps(nodes[..|nodes| - 1], baseDirectory) + NodeOps(nodes[|nodes| - 1], baseDirectory)
  }

  method VisitNode(r: StructReordering, n: Node)
    requires r.Valid()
    modifies r.candidates.Repr
    ensures r.Valid()
    ensures old(r.candidates.Repr) <= r.candidates.Repr && fresh(r.candidates.Repr - old(r.candidates.Repr))
    ensures r.candidates.Entries() == Run(old(r.candidates.Entries()), Key, NodeOps(n, r.baseDirectory))
  {
    match n {
      case RecordNode(d) => VisitRecordDecl(r, d);
      case VarNode(v) => VisitVarDecl(r, v);
    }
  }

  lemma AnalysisStep(es: seq<Entry<StructUnique>>, nodes: seq<Node>, i: nat, baseDirectory: string)
    requires i < |nodes|
    ensures Run(es, Key, AnalysisOps(nodes[..i + 1], baseDirectory))
              == Run(Run(es, Key, AnalysisOps(nodes[..i], baseDirectory)), Key, NodeOps(nodes[i], baseDirectory))
  {
    assert nodes[..i + 1][..i] == nodes[..i];
    RunConcat(es, Key, AnalysisOps(nodes[..i], baseDirectory), NodeOps(nodes[i], baseDirectory));
  }

  /** The analysis phase: every node, in traversal order, goes to the visitor for its kind. */
  method Analyse(r: StructReordering, nodes: seq<Node>)
    requires r.Valid()
    modifies r.candidates.Repr
    ensures r.Valid()
    ensures old(r.candidates.Repr) <= r.candidates.Repr && fresh(r.candidates.Repr - old(r.candidates.Repr))
    ensures r.candidates.Entries() == Run(old(r.candidates.Entries()), Key, AnalysisOps(nodes, r.baseDirectory))
  {
    ghost var es := r.candidates.Entries();
    var i := 0;
    while i < |nodes|
      invariant 0 <= i <= |nodes|
      invariant r.Valid()
      invariant old(r.candidates.Repr) <= r.candidates.Repr && fresh(r.candidates.Repr - old(r.candidates.Repr))
      invariant r.candidates.Entries() == Run(es, Key, AnalysisOps(nodes[..i], r.baseDirectory))
    {
      VisitNode(r, nodes[i]);
      AnalysisStep(es, nodes, i, r.baseDirectory);
      i := i + 1;
    }
    assert nodes[..|nodes|] == nodes;
  }

  /** Node `n` registers a struct with `k`'s key: an eligible definition. */
  predicate Registers(n: Node, baseDirectory: string, k: StructUnique) {
    n.RecordNode? && Eligible(n.decl, baseDirectory) && Key(StructUniqueOf(n.decl)) == Key(k)
  }

  /**
   * Node `n` invalidates the struct with `k`'s key: a variable with global
   * storage or an initializer list whose type reaches that struct.
   */
  predicate Invalidates(n: Node, baseDirectory: string, k: StructUnique) {
    n.VarNode? && (n.var_.hasGlobalStorage || n.var_.init.InitList?) && Reaches(n.var_.varType, baseDirectory, k)
  }

  predicate SomeInvalidates(nodes: seq<Node>, baseDirectory: string, k: StructUnique) {
    exists i :: 0 <= i < |nodes| && Invalidates(nodes[i], baseDirectory, k)
  }

  predicate SomeRegisters(nodes: seq<Node>, baseDirectory: string, k: StructUnique) {
    exists i :: 0 <= i < |nodes| && Registers(nodes[i], baseDirectory, k)
  }

  lemma NodeOpsOn(n: Node, baseDirectory: string, k: StructUnique)
    ensures HasInvalidate(OpsOn(NodeOps(n, baseDirectory), Key, k)) <==> Invalidates(n, baseDirectory, k)
    ensures HasFill(OpsOn(NodeOps(n, baseDirectory), Key, k)) <==> Registers(n, baseDirectory, k)
  {
    match n {
      case RecordNode(d) =>
        var ops := NodeOps(n, baseDirectory);
        if |ops| == 1 {
          OpsOnSingle(ops[0], Key, k);
          assert ops == [ops[0]];
        }
      case VarNode(v) =>
        var w := WalkOps(v.varType, baseDirectory);
        var a := if v.hasGlobalStorage then w else [];
        var b := if v.init.InitList? then w else [];
        WalkOpsSpec(v.varType, baseDirectory, k);
        OpsOnConcat(a, b, Key, k);
        HasConcat(OpsOn(a, Key, k), OpsOn(b, Key, k));
    }
  }

  lemma SomeSnoc(nodes: seq<Node>, baseDirectory: string, k: StructUnique)
    requires |nodes| > 0
    ensures SomeInvalidates(nodes, baseDirectory, k) <==>
              SomeInvalidates(nodes[..|nodes| - 1], baseDirectory, k) || Invalidates(nodes[|nodes| - 1], baseDirectory, k)
    ensures SomeRegisters(nodes, baseDirectory, k) <==>
              SomeRegisters(nodes[..|nodes| - 1], baseDirectory, k) || Registers(nodes[|nodes| - 1], baseDirectory, k)
  {
    var init := nodes[..|nodes| - 1];
    assert forall i :: 0 <= i < |init| ==> init[i] == nodes[i];
  }

  lemma {:induction false} AnalysisOpsOn(nodes: seq<Node>, baseDirectory: string, k: StructUnique)
    ensures HasInvalidate(OpsOn(AnalysisOps(nodes, baseDirectory), Key, k)) <==> SomeInvalidates(nodes, baseDirectory, k)
    ensures HasFill(OpsOn(AnalysisOps(nodes, baseDirectory), Key, k)) <==> SomeRegisters(nodes, baseDirectory, k)
    decreases |nodes|
  {
    if |nodes| > 0 {
      var init := nodes[..|nodes| - 1];
      var last := nodes[|nodes| - 1];
      AnalysisOpsOn(init, baseDirectory, k);
      OpsOnConcat(AnalysisOps(init, baseDirectory), NodeOps(last, baseDirectory), Key, k);
      HasConcat(OpsOn(AnalysisOps(init, baseDirectory), Key, k), OpsOn(NodeOps(last, baseDirectory), Key, k));
      NodeOpsOn(last, baseDirectory, k);
      SomeSnoc(nodes, baseDirectory, k);
    }
  }

  /**
   * After the analysis phase, a struct is a valid candidate exactly when
   * some eligible definition registers it and no global or list-initialised
   * variable's type reaches it.
   */
  lemma AnalysisValidCandidates(nodes: seq<Node>, baseDirectory: string, k: StructUnique)
    ensures var e := EntryOf(Run([], Key, AnalysisOps(nodes, baseDirectory)), Key, k);
            (e.Some? && e.value.valid) <==>
              SomeRegisters(nodes, baseDirectory, k) && !SomeInvalidates(nodes, baseDirectory, k)
  {
    var ops := AnalysisOps(nodes, baseDirectory);
    var on := OpsOn(ops, Key, k);
    AnalysisOutcome(Key, ops, k);
    AnalysisOpsOn(nodes, baseDirectory, k);
    if |on| > 0 {
      assert on[0].InvalidateOp? || on[0].FillOp?;
    }
  }

  lemma {:induction false} WalkFillsNothing(t: Type, baseDirectory: string)
    ensures FillsAtLeast(WalkOps(t, baseDirectory), 2)
    decreases t, 0
  {
    match t {
      case StructType(d) =>
        if InBaseDirectory(d.fileName, baseDirectory) {
          FieldsWalkFillsNothing(d, |d.fields|, baseDirectory);
        }
      case UnionType(d) => FieldsWalkFillsNothing(d, |d.fields|, baseDirectory);
      case ArrayType(element) => WalkFillsNothing(element, baseDirectory);
      case OtherType =>
    }
  }

  lemma {:induction false} FieldsWalkFillsNothing(d: RecordDecl, n: nat, baseDirectory: string)
    requires n <= |d.fields|
    ensures FillsAtLeast(FieldsWalkOps(d, n, baseDirectory), 2)
    decreases d, n
  {
    if n > 0 {
      FieldsWalkFillsNothing(d, n - 1, baseDirectory);
      WalkFillsNothing(d.fields[n - 1].fieldType, baseDirectory);
    }
  }

  lemma {:induction false} AnalysisFillsAtLeastTwo(nodes: seq<Node>, baseDirectory: string)
    ensures FillsAtLeast(AnalysisOps(nodes, baseDirectory), 2)
    decreases |nodes|
  {
    if |nodes| > 0 {
      AnalysisFillsAtLeastTwo(nodes[..|nodes| - 1], baseDirectory);
      match nodes[|nodes| - 1] {
        case RecordNode(_) =>
        case VarNode(v) => WalkFillsNothing(v.varType, baseDirectory);
      }
    }
  }

  /** Every valid candidate the analysis leaves has at least two fields recorded. */
  lemma ValidCandidatesHaveTwoFields(nodes: seq<Node>, baseDirectory: string)
    ensures var es := Run([], Key, AnalysisOps(nodes, baseDirectory));
            forall i :: 0 <= i < |es| && es[i].valid ==> |es[i].items| >= 2
  {
    AnalysisFillsAtLeastTwo(nodes, baseDirectory);
    ValidEntriesHaveItems(Key, AnalysisOps(nodes, baseDirectory), 2);
  }

  // ---------------------------------------------------------------- rewriting

  /** `StructTransformation`: the struct to reorder and the ordering to apply. */
  datatype StructTransformation = StructTransformation(target: StructUnique, ordering: seq<nat>)

  function FieldRanges(fs: seq<Field>): (r: seq<SourceRange>)
    ensures |r| == |fs|
  {
    seq(|fs|, i requires 0 <= i < |fs| => fs[i].range)
  }

  /** The text at each field's expanded range, as `location2str` reads it back. */
  function FieldTexts(fs: seq<Field>): (r: seq<string>)
    ensures |r| == |fs|
  {
    seq(|fs|, i requires 0 <= i < |fs| => fs[i].text)
  }

  /** The record is the definition of the target struct. */
  predicate DefinesTarget(t: StructTransformation, d: RecordDecl) {
    d.kind == StructKind && d.isDefinition && Equal(t.target, StructUniqueOf(d))
  }

  /**
   * `StructReorderingRewriter::VisitRecordDecl`: in the target's definition,
   * field slot `i` receives the text of field `ordering[i]`; every other
   * record is left alone. Where the ordering sends a slot past the fields,
   * the source reads past them; the model stops there with `SlotOutOfRange`.
   */
  method RewriteRecord(t: StructTransformation, d: RecordDecl, rw: Rewriter) returns (outcome: SlotOutcome)
    modifies rw
    ensures DefinesTarget(t, d) ==>
              var b := FirstUnmapped(t.ordering, |d.fields|);
              rw.edits == old(rw.edits) + SlotEditsUpTo(FieldRanges(d.fields), FieldTexts(d.fields), t.ordering, b) &&
              (outcome == AllSlots <==> b == |d.fields|) &&
              (b < |d.fields| ==> outcome == SlotOutOfRange(b))
    ensures DefinesTarget(t, d) && OrderingFor(t.ordering, |d.fields|) ==>
              rw.edits == old(rw.edits) + SlotEdits(FieldRanges(d.fields), FieldTexts(d.fields), t.ordering)
    ensures !DefinesTarget(t, d) ==> outcome == AllSlots && rw.edits == old(rw.edits)
  {
    outcome := AllSlots;
    if d.kind == StructKind && d.isDefinition {
      var target := StructUniqueOf(d);
      if Equal(t.target, target) {
        ghost var b := FirstUnmapped(t.ordering, |d.fields|);
        var fields := d.fields;
        var i := 0;
        while i < |fields|
          invariant 0 <= i <= b
          invariant i <= |t.ordering| && forall j :: 0 <= j < i ==> t.ordering[j] < |d.fields|
          invariant rw.edits == old(rw.edits) + SlotEditsUpTo(FieldRanges(d.fields), FieldTexts(d.fields), t.ordering, i)
        {
          if i >= |t.ordering| || t.ordering[i] >= |fields| {
            return SlotOutOfRange(i);
          }
          var oldRange := fields[i].range;
          var substitute := fields[t.ordering[i]].text;
          rw.ReplaceText(oldRange, substitute);
          assert SlotEditsUpTo(FieldRanges(d.fields), FieldTexts(d.fields), t.ordering, i + 1)
              == SlotEditsUpTo(FieldRanges(d.fields), FieldTexts(d.fields), t.ordering, i) + [Edit(oldRange, substitute)];
          i := i + 1;
        }
        assert SlotEditsUpTo(FieldRanges(d.fields), FieldTexts(d.fields), t.ordering, i)
            == SlotEdits(FieldRanges(d.fields), FieldTexts(d.fields), t.ordering);
      }
    }
  }

  /**
   * Two block-scope definitions `struct S { int a; int b; }` and
   * `struct S { int x; }` in one file share the identity `S`. The first is
   * registered with two fields, so `[1, 0]` is an acceptable ordering, and
   * the rewriter then also visits the second definition, whose one field
   * has no partner at slot 0: the source reads past its field list.
   */
  lemma SameNamedStructsOverrun()
    ensures var r := SourceRange("src/a.c", 0, 0);
            var d1 := RecordDecl("S", None, "src/a.c", StructKind, true,
                                 [Field("a", "int", OtherType, r, "int a", false),
                                  Field("b", "int", OtherType, r, "int b", false)]);
            var d2 := RecordDecl("S", None, "src/a.c", StructKind, true,
                                 [Field("x", "int", OtherType, r, "int x", false)]);
            var t := StructTransformation(StructUniqueOf(d1), [1, 0]);
            Registers(RecordNode(d1), "src/", t.target) && !Eligible(d2, "src/") &&
            IsPermutation(t.ordering, |d1.fields|) && t.ordering != Identity(2) &&
            DefinesTarget(t, d2) && FirstUnmapped(t.ordering, |d2.fields|) == 0 < |d2.fields|
  {
    ContainsWitness("src/a.c", "src/", 0);
    assert Identity(2)[0] == 0;
  }

  /**
   * The rewriter with the check the finding calls for: a definition of the
   * target whose field count differs from the ordering's length is left
   * alone. For any ordering that is a permutation, as every accepted one is,
   * no slot is ever read out of range, and a definition that is rewritten
   * has its field texts permuted, which the inverse ordering undoes.
   */
  method RewriteRecordChecked(t: StructTransformation, d: RecordDecl, rw: Rewriter) returns (outcome: SlotOutcome)
    modifies rw
    ensures IsPermutation(t.ordering, |t.ordering|) ==> outcome == AllSlots
    ensures DefinesTarget(t, d) && IsPermutation(t.ordering, |d.fields|) ==>
              rw.edits == old(rw.edits) + SlotEdits(FieldRanges(d.fields), FieldTexts(d.fields), t.ordering) &&
              Apply(Inverse(t.ordering), Texts(rw.edits[|old(rw.edits)|..])) == FieldTexts(d.fields)
    ensures !(DefinesTarget(t, d) && |t.ordering| == |d.fields|) ==> rw.edits == old(rw.edits)
  {
    if |t.ordering| == |d.fields| {
      outcome := RewriteRecord(t, d, rw);
      if IsPermutation(t.ordering, |d.fields|) {
        PermutationIsOrderingFor(t.ordering, |d.fields|);
        SlotEditsRoundTrip(FieldRanges(d.fields), FieldTexts(d.fields), t.ordering);
        if DefinesTarget(t, d) {
          assert rw.edits[|old(rw.edits)|..] == SlotEdits(FieldRanges(d.fields), FieldTexts(d.fields), t.ordering);
        }
      }
    } else {
      outcome := AllSlots;
    }
  }
}
