/**
 * Function parameter reordering: how a function is identified
 * (`FunctionUnique`), which functions the analyser registers or invalidates,
 * and how the rewriter permutes the parameters of the chosen function at its
 * declarations and its call sites.
 */
module FunctionReordering {
  import opened Common
  import opened Strings
  import opened Permutations
  import opened Ast
  import opened Candidates
  import opened Rewriting

  // --------------------------------------------------------------- identity

  /** `FunctionUnique`: the name, the file of the declaration, and `isGlobal()`. */
  datatype FunctionUnique = FunctionUnique(name: string, fileName: string, global: bool)

  /** `FunctionUnique(D, astContext)`. */
  function FunctionUniqueOf(fd: FunctionDecl): FunctionUnique {
    FunctionUnique(fd.name, fd.fileName, fd.isGlobal)
  }

  /** `FunctionUnique::operator==`. */
  predicate Equal(a: FunctionUnique, b: FunctionUnique) {
    if a.name != b.name then false
    else if a.global != b.global then false
    else if !a.global && !b.global && a.fileName != b.fileName then false
    else true
  }

  /**
   * Different names are never equal; a global and a local function are
   * never equal; two locals are equal exactly when their files match; two
   * globals are equal whatever their files.
   */
  lemma EqualCases(a: FunctionUnique, b: FunctionUnique)
    ensures a.name != b.name ==> !Equal(a, b)
    ensures a.global != b.global ==> !Equal(a, b)
    ensures !a.global && !b.global && a.name == b.name ==> (Equal(a, b) <==> a.fileName == b.fileName)
    ensures a.global && b.global ==> (Equal(a, b) <==> a.name == b.name)
  {
  }

  lemma EqualIsEquivalence(a: FunctionUnique, b: FunctionUnique, c: FunctionUnique)
    ensures Equal(a, a)
    ensures Equal(a, b) ==> Equal(b, a)
    ensures Equal(a, b) && Equal(b, c) ==> Equal(a, c)
  {
  }

  /** The string `operator<` compares: the name for a global, `name:fileName` otherwise. */
  function Key(f: FunctionUnique): string {
    if f.global then f.name else f.name + ":" + f.fileName
  }

  /** `FunctionUnique::operator<`. */
  predicate Less(a: FunctionUnique, b: FunctionUnique) {
    LexLess(Key(a), Key(b))
  }

  /** `<` is a strict order whose equivalence classes are the identities with one key. */
  lemma LessIsStrictOrder(a: FunctionUnique, b: FunctionUnique, c: FunctionUnique)
    ensures !Less(a, a)
    ensures Less(a, b) ==> !Less(b, a)
    ensures Less(a, b) && Less(b, c) ==> Less(a, c)
    ensures (!Less(a, b) && !Less(b, a)) <==> Key(a) == Key(b)
  {
    LexLessIrreflexive(Key(a));
    if Less(a, b) {
      LexLessAsymmetric(Key(a), Key(b));
    }
    if Less(a, b) && Less(b, c) {
      LexLessTransitive(Key(a), Key(b), Key(c));
    }
    LexEquivalentIffEqual(Key(a), Key(b));
  }

  /** Equal identities have one key, so they share one registry entry. */
  lemma EqualSharesKey(a: FunctionUnique, b: FunctionUnique)
    requires Equal(a, b)
    ensures Key(a) == Key(b)
  {
  }

  /** For functions named by C identifiers, sharing a key is the same as `operator==`. */
  lemma KeyMatchesEqual(a: FunctionUnique, b: FunctionUnique)
    requires NoColon(a.name) && NoColon(b.name)
    ensures Equal(a, b) <==> Key(a) == Key(b)
  {
    if a.global && !b.global {
      NoColonNotJoined(a.name, b.name, b.fileName);
    } else if !a.global && b.global {
      NoColonNotJoined(b.name, a.name, a.fileName);
    } else if !a.global && !b.global && Key(a) == Key(b) {
      NoColonJoinInjective(a.name, a.fileName, b.name, b.fileName);
    }
  }

  /** Names that are not C identifiers can make unequal identities share a key. */
  lemma ColonNamesCollide()
    ensures var a := FunctionUnique("f:a.c", "b.c", true);
            var b := FunctionUnique("f", "a.c", false);
            Key(a) == Key(b) && !Equal(a, b)
  {
  }

  /** Same-named global functions from different files get a single registry entry. */
  lemma SameNamedGlobalsShareEntry(es: seq<Entry<FunctionUnique>>, a: FunctionUnique, b: FunctionUnique)
    requires a.global && b.global && a.name == b.name
    ensures Equal(a, b)
    ensures KeyIndex(es, Key, a) == KeyIndex(es, Key, b)
    ensures GetOrCreate(GetOrCreate(es, Key, a), Key, b) == GetOrCreate(es, Key, a)
  {
    KeyIndexByKey(es, Key, a, b);
  }

  // ---------------------------------------------------------------- analysis

  /** A function the analyser may register: a definition, not `main`, not variadic, two or more parameters, in the base directory. */
  predicate Eligible(fd: FunctionDecl, baseDirectory: string) {
    fd.isDefinition && !fd.isMain && !fd.isVariadic && |fd.params| > 1
    && InBaseDirectory(fd.fileName, baseDirectory)
  }

  /** What `addParams` records for each parameter: its name and its type. */
  function ParamItems(ps: seq<Param>): (r: seq<Item>)
    ensures |r| == |ps|
  {
    seq(|ps|, i requires 0 <= i < |ps| => Item(ps[i].name, ps[i].typeName))
  }

  /** The function an assignment's right-hand side names, once parentheses and casts are stripped. */
  function AssignedFunction(e: BinaryOperator): Option<FunctionDecl> {
    if !e.isAssignment then None
    else match IgnoreParenCasts(e.rhs)
      case DeclRef(decl) => decl
      case _ => None
  }

  /** Some argument has side effects. */
  predicate SomeArgHasSideEffects(args: seq<Arg>) {
    exists i :: 0 <= i < |args| && args[i].hasSideEffects
  }

  /** The registry updates of `VisitBinaryOperator`. */
  function AssignmentOps(e: BinaryOperator, baseDirectory: string): seq<Op<FunctionUnique>> {
    match AssignedFunction(e)
    case Some(fd) =>
      if InBaseDirectory(fd.fileName, baseDirectory) then [InvalidateOp(FunctionUniqueOf(fd))] else []
    case None => []
  }

  /** The registry updates of `VisitCallExpr`. */
  function CallOps(ce: CallExpr, baseDirectory: string): seq<Op<FunctionUnique>> {
    match ce.directCallee
    case Some(fd) =>
      if InBaseDirectory(fd.fileName, baseDirectory) && (ce.inMacro || SomeArgHasSideEffects(ce.args))
      then [InvalidateOp(FunctionUniqueOf(fd))] else []
    case None => []
  }

  /** The registry updates of `VisitFunctionDecl`. */
  function DeclOps(fd: FunctionDecl, baseDirectory: string): seq<Op<FunctionUnique>> {
    if Eligible(fd, baseDirectory) then [FillOp(FunctionUniqueOf(fd), ParamItems(fd.params))] else []
  }

  /** `FPReordering`: the base and output directories and the candidate registry. */
  class FPReordering {
    const baseDirectory: string
    const outputDirectory: string
    const candidates: Registry<FunctionUnique>

    ghost predicate Valid()
      reads this, candidates
    {
      candidates.Valid() && candidates.keyOf == Key
    }

    constructor (baseDirectory: string, outputDirectory: string)
      ensures Valid() && fresh(candidates) && fresh(candidates.Repr)
      ensures this.baseDirectory == baseDirectory && this.outputDirectory == outputDirectory
      ensures candidates.Entries() == []
    {
      this.baseDirectory := baseDirectory;
      this.outputDirectory := outputDirectory;
      candidates := new Registry(Key);
    }
  }

  /** `FPReorderingAnalyser::VisitBinaryOperator`: a function whose address is assigned is invalidated. */
  method VisitBinaryOperator(r: FPReordering, e: BinaryOperator)
    requires r.Valid()
    modifies r.candidates.Repr
    ensures r.Valid()
    ensures old(r.candidates.Repr) <= r.candidates.Repr && fresh(r.candidates.Repr - old(r.candidates.Repr))
    ensures r.candidates.Entries() == Run(old(r.candidates.Entries()), Key, AssignmentOps(e, r.baseDirectory))
  {
    if e.isAssignment {
      var sub := IgnoreParenCasts(e.rhs);
      if sub.DeclRef? && sub.decl.Some? {
        var candidate := FunctionUniqueOf(sub.decl.value);
        if !Contains(candidate.fileName, r.baseDirectory) {
          return;
        }
        RunOne(r.candidates.Entries(), Key, InvalidateOp(candidate));
        r.candidates.Invalidate(candidate);
      }
    }
  }

  /**
   * `FPReorderingAnalyser::VisitCallExpr`: a direct call of a base-directory
   * function invalidates it when the call starts in a macro, or else when
   * one of its arguments has side effects (checked once per call).
   */
  method VisitCallExpr(r: FPReordering, ce: CallExpr)
    requires r.Valid()
    modifies r.candidates.Repr
    ensures r.Valid()
    ensures old(r.candidates.Repr) <= r.candidates.Repr && fresh(r.candidates.Repr - old(r.candidates.Repr))
    ensures r.candidates.Entries() == Run(old(r.candidates.Entries()), Key, CallOps(ce, r.baseDirectory))
  {
    if ce.directCallee.None? {
      return;
    }
    var candidate := FunctionUniqueOf(ce.directCallee.value);
    if !Contains(candidate.fileName, r.baseDirectory) {
      return;
    }
    RunOne(r.candidates.Entries(), Key, InvalidateOp(candidate));
    if ce.inMacro {
      r.candidates.Invalidate(candidate);
    } else {
      var i := 0;
      while i < |ce.args|
        invariant 0 <= i <= |ce.args|
        invariant forall j :: 0 <= j < i ==> !ce.args[j].hasSideEffects
        invariant r.Valid()
        invariant r.candidates.Entries() == old(r.candidates.Entries())
      {
        if ce.args[i].hasSideEffects {
          r.candidates.Invalidate(candidate);
          break;
        }
        i := i + 1;
      }
    }
  }

  /**
   * `FPReorderingAnalyser::VisitFunctionDecl`: an eligible definition is
   * looked up (creating its entry) and its parameters recorded, but only
   * while the entry is valid and still empty.
   */
  method VisitFunctionDecl(r: FPReordering, fd: FunctionDecl)
    requires r.Valid()
    modifies r.candidates.Repr
    ensures r.Valid()
    ensures old(r.candidates.Repr) <= r.candidates.Repr && fresh(r.candidates.Repr - old(r.candidates.Repr))
    ensures r.candidates.Entries() == Run(old(r.candidates.Entries()), Key, DeclOps(fd, r.baseDirectory))
  {
    if fd.isDefinition && !fd.isMain && !fd.isVariadic && |fd.params| > 1 {
      var candidate := FunctionUniqueOf(fd);
      if !Contains(candidate.fileName, r.baseDirectory) {
        return;
      }
      var items := ParamItems(fd.params);
      ghost var es := r.candidates.Entries();
      RunOne(es, Key, FillOp(candidate, items));
      var data := r.candidates.Lookup(candidate);
      ghost var es1 := r.candidates.Entries();
      ghost var i := KeyIndex(es1, Key, candidate).value;
      if data.valid && data.Empty() {
        data.AddItems(items);
        assert data.items == items;
        assert forall j :: 0 <= j < |r.candidates.datas| && j != i ==> r.candidates.datas[j] != data;
        assert r.candidates.Entries()[i] == es1[i].(items := items);
        assert r.candidates.Entries() == es1[i := es1[i].(items := items)];
      }
    }
  }

  /** The nodes the analyser visits, in traversal order. */
  datatype Node =
    | FunctionNode(decl: FunctionDecl)
    | CallNode(call: CallExpr)
    | AssignNode(assign: BinaryOperator)

  function NodeOps(n: Node, baseDirectory: string): seq<Op<FunctionUnique>> {
    match n
    case FunctionNode(fd) => DeclOps(fd, baseDirectory)
    case CallNode(ce) => CallOps(ce, baseDirectory)
    case AssignNode(e) => AssignmentOps(e, baseDirectory)
  }

  /** The registry updates of a whole traversal, in order. */
  function AnalysisOps(nodes: seq<Node>, baseDirectory: string): seq<Op<FunctionUnique>>
    decreases |nodes|
  {
    if |nodes| == 0 then []
    else AnalysisOps(nodes[..|nodes| - 1], baseDirectory) + NodeOps(nodes[|nodes| - 1], baseDirectory)
  }

  /** The visitor for the node's kind. */
  method VisitNode(r: FPReordering, n: Node)
    requires r.Valid()
    modifies r.candidates.Repr
    ensures r.Valid()
    ensures old(r.candidates.Repr) <= r.candidates.Repr && fresh(r.candidates.Repr - old(r.candidates.Repr))
    ensures r.candidates.Entries() == Run(old(r.candidates.Entries()), Key, NodeOps(n, r.baseDirectory))
  {
    match n {
      case FunctionNode(fd) => VisitFunctionDecl(r, fd);
      case CallNode(ce) => VisitCallExpr(r, ce);
      case AssignNode(e) => VisitBinaryOperator(r, e);
    }
  }

  lemma AnalysisStep(es: seq<Entry<FunctionUnique>>, nodes: seq<Node>, i: nat, baseDirectory: string)
    requires i < |nodes|
    ensures Run(es, Key, AnalysisOps(nodes[..i + 1], baseDirectory))
              == Run(Run(es, Key, AnalysisOps(nodes[..i], baseDirectory)), Key, NodeOps(nodes[i], baseDirectory))
  {
    assert nodes[..i + 1][..i] == nodes[..i];
    RunConcat(es, Key, AnalysisOps(nodes[..i], baseDirectory), NodeOps(nodes[i], baseDirectory));
  }

  /** The analysis phase: every node, in traversal order, goes to the visitor for its kind. */
  method Analyse(r: FPReordering, nodes: seq<Node>)
    requires r.Valid()
    modifies r.candidates.Repr
    ensures r.Valid()
    ensures old(r.candidates.Repr) <= r.candidates.Repr && fresh(r.candidates.Repr - old(r.candidates.Repr))
    ensures r.candidates.Entries() == Run(old(r.candidates.Entries()), Key, AnalysisOps(nodes, r.baseDirectory))
  {
    ghost var es := r.candidates.Entries();
    var i := 0;
    while i < |nodes|
      invariant 0 <= i <= |nodes|
      invariant r.Valid()
      invariant old(r.candidates.Repr) <= r.candidates.Repr && fresh(r.candidates.Repr - old(r.candidates.Repr))
      invariant r.candidates.Entries() == Run(es, Key, AnalysisOps(nodes[..i], r.baseDirectory))
    {
      VisitNode(r, nodes[i]);
      AnalysisStep(es, nodes, i, r.baseDirectory);
      i := i + 1;
    }
    assert nodes[..|nodes|] == nodes;
  }

  /** Node `n` registers a function with `k`'s key: an eligible definition. */
  predicate Registers(n: Node, baseDirectory: string, k: FunctionUnique) {
    n.FunctionNode? && Eligible(n.decl, baseDirectory) && Key(FunctionUniqueOf(n.decl)) == Key(k)
  }

  /**
   * Node `n` invalidates the function with `k`'s key: it assigns the
   * function by address, or calls it inside a macro or with a
   * side-effecting argument, and the function lies in the base directory.
   */
  predicate Invalidates(n: Node, baseDirectory: string, k: FunctionUnique) {
    match n
    case FunctionNode(_) => false
    case AssignNode(e) =>
      AssignedFunction(e).Some? && InBaseDirectory(AssignedFunction(e).value.fileName, baseDirectory)
      && Key(FunctionUniqueOf(AssignedFunction(e).value)) == Key(k)
    case CallNode(ce) =>
      ce.directCallee.Some? && InBaseDirectory(ce.directCallee.value.fileName, baseDirectory)
      && (ce.inMacro || SomeArgHasSideEffects(ce.args))
      && Key(FunctionUniqueOf(ce.directCallee.value)) == Key(k)
  }

  predicate SomeInvalidates(nodes: seq<Node>, baseDirectory: string, k: FunctionUnique) {
    exists i :: 0 <= i < |nodes| && Invalidates(nodes[i], baseDirectory, k)
  }

  predicate SomeRegisters(nodes: seq<Node>, baseDirectory: string, k: FunctionUnique) {
    exists i :: 0 <= i < |nodes| && Registers(nodes[i], baseDirectory, k)
  }

  /** One node's updates to `k`'s entry invalidate it, or offer items, exactly as the two predicates say. */
  lemma NodeOpsOn(n: Node, baseDirectory: string, k: FunctionUnique)
    ensures HasInvalidate(OpsOn(NodeOps(n, baseDirectory), Key, k)) <==> Invalidates(n, baseDirectory, k)
    ensures HasFill(OpsOn(NodeOps(n, baseDirectory), Key, k)) <==> Registers(n, baseDirectory, k)
  {
    var ops := NodeOps(n, baseDirectory);
    if |ops| == 1 {
      OpsOnSingle(ops[0], Key, k);
      assert ops == [ops[0]];
    }
  }

  lemma SomeSnoc(nodes: seq<Node>, baseDirectory: string, k: FunctionUnique)
    requires |nodes| > 0
    ensures SomeInvalidates(nodes, baseDirectory, k) <==>
              SomeInvalidates(nodes[..|nodes| - 1], baseDirectory, k) || Invalidates(nodes[|nodes| - 1], baseDirectory, k)
    ensures SomeRegisters(nodes, baseDirectory, k) <==>
              SomeRegisters(nodes[..|nodes| - 1], baseDirectory, k) || Registers(nodes[|nodes| - 1], baseDirectory, k)
  {
    var init := nodes[..|nodes| - 1];
    assert forall i :: 0 <= i < |init| ==> init[i] == nodes[i];
  }

  /** Over a whole traversal, `k`'s entry is invalidated, or offered items, exactly when some node does so. */
  lemma {:induction false} AnalysisOpsOn(nodes: seq<Node>, baseDirectory: string, k: FunctionUnique)
    ensures HasInvalidate(OpsOn(AnalysisOps(nodes, baseDirectory), Key, k)) <==> SomeInvalidates(nodes, baseDirectory, k)
    ensures HasFill(OpsOn(AnalysisOps(nodes, baseDirectory), Key, k)) <==> SomeRegisters(nodes, baseDirectory, k)
    decreases |nodes|
  {
    if |nodes| > 0 {
      var init := nodes[..|nodes| - 1];
      var last := nodes[|nodes| - 1];
      AnalysisOpsOn(init, baseDirectory, k);
      OpsOnConcat(AnalysisOps(init, baseDirectory), NodeOps(last, baseDirectory), Key, k);
      HasConcat(OpsOn(AnalysisOps(init, baseDirectory), Key, k), OpsOn(NodeOps(last, baseDirectory), Key, k));
      NodeOpsOn(last, baseDirectory, k);
      SomeSnoc(nodes, baseDirectory, k);
    }
  }

  /**
   * After the analysis phase, a function is a valid candidate exactly when
   * some eligible definition registers it and no node invalidates it.
   */
  lemma AnalysisValidCandidates(nodes: seq<Node>, baseDirectory: string, k: FunctionUnique)
    ensures var e := EntryOf(Run([], Key, AnalysisOps(nodes, baseDirectory)), Key, k);
            (e.Some? && e.value.valid) <==>
              SomeRegisters(nodes, baseDirectory, k) && !SomeInvalidates(nodes, baseDirectory, k)
  {
    var ops := AnalysisOps(nodes, baseDirectory);
    var on := OpsOn(ops, Key, k);
    AnalysisOutcome(Key, ops, k);
    AnalysisOpsOn(nodes, baseDirectory, k);
    if |on| > 0 {
      assert on[0].InvalidateOp? || on[0].FillOp?;
    }
  }

  lemma {:induction false} AnalysisFillsAtLeastTwo(nodes: seq<Node>, baseDirectory: string)
    ensures FillsAtLeast(AnalysisOps(nodes, baseDirectory), 2)
    decreases |nodes|
  {
    if |nodes| > 0 {
      AnalysisFillsAtLeastTwo(nodes[..|nodes| - 1], baseDirectory);
    }
  }

  /** Every valid candidate the analysis leaves has at least two parameters recorded. */
  lemma ValidCandidatesHaveTwoParams(nodes: seq<Node>, baseDirectory: string)
    ensures var es := Run([], Key, AnalysisOps(nodes, baseDirectory));
            forall i :: 0 <= i < |es| && es[i].valid ==> |es[i].items| >= 2
  {
    AnalysisFillsAtLeastTwo(nodes, baseDirectory);
    ValidEntriesHaveItems(Key, AnalysisOps(nodes, baseDirectory), 2);
  }

  // ---------------------------------------------------------------- rewriting

  /** `FPTransformation`: the function to reorder and the ordering to apply. */
  datatype FPTransformation = FPTransformation(target: FunctionUnique, ordering: seq<nat>)

  /** The ranges of a call's arguments, the slots a call-site rewrite replaces. */
  function ArgRanges(args: seq<Arg>): (r: seq<SourceRange>)
    ensures |r| == |args|
  {
    seq(|args|, i requires 0 <= i < |args| => args[i].range)
  }

  function ArgTexts(args: seq<Arg>): (r: seq<string>)
    ensures |r| == |args|
  {
    seq(|args|, i requires 0 <= i < |args| => args[i].text)
  }

  /**
   * The ranges of a declaration's parameters, the slots a declaration
   * rewrite replaces; the same projection as `ArgRanges`, over `Param`.
   */
  function ParamRanges(ps: seq<Param>): (r: seq<SourceRange>)
    ensures |r| == |ps|
  {
    seq(|ps|, i requires 0 <= i < |ps| => ps[i].range)
  }

  /** The text a parameter is written as: `type + " " + name`. */
  function ParamTexts(ps: seq<Param>): (r: seq<string>)
    ensures |r| == |ps|
  {
    seq(|ps|, i requires 0 <= i < |ps| => ps[i].typeName + " " + ps[i].name)
  }

  /** The call targets the transformation. */
  predicate CallsTarget(t: FPTransformation, ce: CallExpr) {
    ce.directCallee.Some? && Equal(t.target, FunctionUniqueOf(ce.directCallee.value))
  }

  /**
   * `FPReorderingRewriter::VisitCallExpr`: at a call of the target,
   * argument slot `i` receives the text of argument `ordering[i]`. Where the
   * ordering sends a slot past the arguments, the source reads past them;
   * the model stops there with `SlotOutOfRange`.
   */
  method RewriteCall(t: FPTransformation, ce: CallExpr, rw: Rewriter) returns (outcome: SlotOutcome)
    modifies rw
    ensures CallsTarget(t, ce) ==>
              var b := FirstUnmapped(t.ordering, |ce.args|);
              rw.edits == old(rw.edits) + SlotEditsUpTo(ArgRanges(ce.args), ArgTexts(ce.args), t.ordering, b) &&
              (outcome == AllSlots <==> b == |ce.args|) &&
              (b < |ce.args| ==> outcome == SlotOutOfRange(b))
    ensures CallsTarget(t, ce) && OrderingFor(t.ordering, |ce.args|) ==>
              rw.edits == old(rw.edits) + SlotEdits(ArgRanges(ce.args), ArgTexts(ce.args), t.ordering)
    ensures !CallsTarget(t, ce) ==> outcome == AllSlots && rw.edits == old(rw.edits)
  {
    outcome := AllSlots;
    if ce.directCallee.Some? {
      var target := FunctionUniqueOf(ce.directCallee.value);
      if Equal(t.target, target) {
        ghost var b := FirstUnmapped(t.ordering, |ce.args|);
        var i := 0;
        while i < |ce.args|
          invariant 0 <= i <= b
          invariant i <= |t.ordering| && forall j :: 0 <= j < i ==> t.ordering[j] < |ce.args|
          invariant rw.edits == old(rw.edits) + SlotEditsUpTo(ArgRanges(ce.args), ArgTexts(ce.args), t.ordering, i)
        {
          if i >= |t.ordering| || t.ordering[i] >= |ce.args| {
            return SlotOutOfRange(i);
          }
          var oldRange := ce.args[i].range;
          var substitute := ce.args[t.ordering[i]].text;
          rw.ReplaceText(oldRange, substitute);
          assert SlotEditsUpTo(ArgRanges(ce.args), ArgTexts(ce.args), t.ordering, i + 1)
              == SlotEditsUpTo(ArgRanges(ce.args), ArgTexts(ce.args), t.ordering, i) + [Edit(oldRange, substitute)];
          i := i + 1;
        }
        assert SlotEditsUpTo(ArgRanges(ce.args), ArgTexts(ce.args), t.ordering, i)
            == SlotEdits(ArgRanges(ce.args), ArgTexts(ce.args), t.ordering);
      }
    }
  }

  /**
   * `FPReorderingRewriter::VisitFunctionDecl`: at every declaration of the
   * target, parameter slot `i` receives `type name` of parameter
   * `ordering[i]`. Where the ordering sends a slot past the parameters, the
   * source reads past them; the model stops there with `SlotOutOfRange`.
   */
  method RewriteDecl(t: FPTransformation, fd: FunctionDecl, rw: Rewriter) returns (outcome: SlotOutcome)
    modifies rw
    ensures Equal(t.target, FunctionUniqueOf(fd)) ==>
              var b := FirstUnmapped(t.ordering, |fd.params|);
              rw.edits == old(rw.edits) + SlotEditsUpTo(ParamRanges(fd.params), ParamTexts(fd.params), t.ordering, b) &&
              (outcome == AllSlots <==> b == |fd.params|) &&
              (b < |fd.params| ==> outcome == SlotOutOfRange(b))
    ensures Equal(t.target, FunctionUniqueOf(fd)) && OrderingFor(t.ordering, |fd.params|) ==>
              rw.edits == old(rw.edits) + SlotEdits(ParamRanges(fd.params), ParamTexts(fd.params), t.ordering)
    ensures !Equal(t.target, FunctionUniqueOf(fd)) ==> outcome == AllSlots && rw.edits == old(rw.edits)
  {
    outcome := AllSlots;
    var target := FunctionUniqueOf(fd);
    if Equal(t.target, target) {
      ghost var b := FirstUnmapped(t.ordering, |fd.params|);
      var i := 0;
      while i < |fd.params|
        invariant 0 <= i <= b
        invariant i <= |t.ordering| && forall j :: 0 <= j < i ==> t.ordering[j] < |fd.params|
        invariant rw.edits == old(rw.edits) + SlotEditsUpTo(ParamRanges(fd.params), ParamTexts(fd.params), t.ordering, i)
      {
        if i >= |t.ordering| || t.ordering[i] >= |fd.params| {
          return SlotOutOfRange(i);
        }
        var oldParam := fd.params[i];
        var newParam := fd.params[t.ordering[i]];
        var substitute := newParam.typeName + " " + newParam.name;
        rw.ReplaceText(oldParam.range, substitute);
        assert SlotEditsUpTo(ParamRanges(fd.params), ParamTexts(fd.params), t.ordering, i + 1)
            == SlotEditsUpTo(ParamRanges(fd.params), ParamTexts(fd.params), t.ordering, i) + [Edit(oldParam.range, substitute)];
        i := i + 1;
      }
      assert SlotEditsUpTo(ParamRanges(fd.params), ParamTexts(fd.params), t.ordering, i)
          == SlotEdits(ParamRanges(fd.params), ParamTexts(fd.params), t.ordering);
    }
  }

  /**
   * Rewriting the declaration and a call with the same ordering keeps every
   * argument with its parameter: the parameter written in slot `i` and the
   * argument passed in slot `i` are both the ones originally at `ordering[i]`.
   */
  lemma DeclAndCallAgree(t: FPTransformation, fd: FunctionDecl, ce: CallExpr)
    requires |ce.args| == |fd.params| && IsPermutation(t.ordering, |fd.params|)
    ensures OrderingFor(t.ordering, |fd.params|)
    ensures forall i :: 0 <= i < |fd.params| ==>
              Texts(SlotEdits(ParamRanges(fd.params), ParamTexts(fd.params), t.ordering))[i]
                == ParamTexts(fd.params)[t.ordering[i]] &&
              Texts(SlotEdits(ArgRanges(ce.args), ArgTexts(ce.args), t.ordering))[i]
                == ArgTexts(ce.args)[t.ordering[i]]
    ensures Apply(Inverse(t.ordering), Texts(SlotEdits(ArgRanges(ce.args), ArgTexts(ce.args), t.ordering)))
              == ArgTexts(ce.args)
  {
    PermutationIsOrderingFor(t.ordering, |fd.params|);
    SlotEditsRoundTrip(ArgRanges(ce.args), ArgTexts(ce.args), t.ordering);
  }
}
