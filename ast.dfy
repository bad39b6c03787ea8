/**
 * The small part of Clang's AST the analysers and rewriters look at. Each
 * query the tool makes of Clang (`isMacroID`, `HasSideEffects`,
 * `getTypedefNameForAnonDecl`, the text `location2str` reads back for a
 * range, ...) is an attribute recorded on the node.
 */
module Ast {
  import opened Common

  /** A source range after macro expansion: the file it lies in and its two ends. */
  datatype SourceRange = SourceRange(file: string, begin: nat, end: nat)

  /** A `ParmVarDecl`: its name, its type as text and its source range. */
  datatype Param = Param(name: string, typeName: string, range: SourceRange)

  /** A `FunctionDecl` with the properties the analysers query. */
  datatype FunctionDecl = FunctionDecl(
    name: string,
    fileName: string,
    isGlobal: bool,
    isDefinition: bool,
    isMain: bool,
    isVariadic: bool,
    params: seq<Param>)

  /**
   * Expressions, down to what `IgnoreParenCasts` and `dyn_cast<DeclRefExpr>`
   * distinguish: a reference whose found declaration may be a function.
   */
  datatype Expr =
    | DeclRef(decl: Option<FunctionDecl>)
    | Paren(inner: Expr)
    | Cast(inner: Expr)
    | OtherExpr

  /** `Expr::IgnoreParenCasts`: strip parentheses and casts. */
  function IgnoreParenCasts(e: Expr): (r: Expr)
    ensures !r.Paren? && !r.Cast?
    ensures !e.Paren? && !e.Cast? ==> r == e
  {
    match e
    case Paren(inner) => IgnoreParenCasts(inner)
    case Cast(inner) => IgnoreParenCasts(inner)
    case _ => e
  }

  /** One layer around an expression: parentheses or a cast. */
  datatype Layer = ParenLayer | CastLayer

  /** `core` inside `layers`, the outermost layer first. */
  function Wrap(layers: seq<Layer>, core: Expr): Expr
    decreases |layers|
  {
    if |layers| == 0 then core
    else if layers[0].ParenLayer? then Paren(Wrap(layers[1..], core))
    else Cast(Wrap(layers[1..], core))
  }

  /** The parentheses and casts around an expression, the outermost first. */
  function Layers(e: Expr): seq<Layer> {
    match e
    case Paren(inner) => [ParenLayer] + Layers(inner)
    case Cast(inner) => [CastLayer] + Layers(inner)
    case _ => []
  }

  /** Stripping any parentheses and casts from around an expression that has none gives it back. */
  lemma {:induction false} IgnoreParenCastsUnwraps(layers: seq<Layer>, core: Expr)
    requires !core.Paren? && !core.Cast?
    ensures IgnoreParenCasts(Wrap(layers, core)) == core
    decreases |layers|
  {
    if |layers| > 0 {
      IgnoreParenCastsUnwraps(layers[1..], core);
    }
  }

  /** Every expression is its stripped form inside the layers that were stripped. */
  lemma {:induction false} IgnoreParenCastsDecomposes(e: Expr)
    ensures Wrap(Layers(e), IgnoreParenCasts(e)) == e
  {
    match e
    case Paren(inner) =>
      IgnoreParenCastsDecomposes(inner);
      assert Layers(e)[1..] == Layers(inner);
    case Cast(inner) =>
      IgnoreParenCastsDecomposes(inner);
      assert Layers(e)[1..] == Layers(inner);
    case _ =>
  }

  /** A `BinaryOperator`: whether it is an assignment and its right-hand side. */
  datatype BinaryOperator = BinaryOperator(isAssignment: bool, rhs: Expr)

  /**
   * A call argument: its expanded source range, the text at its range, and
   * whether `HasSideEffects(ctx, true)` holds of it.
   */
  datatype Arg = Arg(range: SourceRange, text: string, hasSideEffects: bool)

  /** A `CallExpr`: its direct callee, if any, whether it starts in a macro, and its arguments. */
  datatype CallExpr = CallExpr(directCallee: Option<FunctionDecl>, inMacro: bool, args: seq<Arg>)

  datatype RecordKind = StructKind | UnionKind | ClassKind

  /**
   * A `RecordDecl`: its own name (empty when anonymous), the name of the
   * typedef an anonymous record was declared in, its file, its kind, whether
   * this declaration is the definition, and its fields.
   */
  datatype RecordDecl = RecordDecl(
    name: string,
    typedefName: Option<string>,
    fileName: string,
    kind: RecordKind,
    isDefinition: bool,
    fields: seq<Field>)

  /**
   * A `FieldDecl`: name, type as text, the shape of its canonical type, its
   * expanded source range, the text at that range, and whether it starts in a
   * macro.
   */
  datatype Field = Field(
    name: string,
    typeName: string,
    fieldType: Type,
    range: SourceRange,
    text: string,
    inMacro: bool)

  /**
   * The canonical type shapes `detectStructsRecursively` distinguishes;
   * address types and scalars are `OtherType`.
   */
  datatype Type =
    | StructType(decl: RecordDecl)
    | UnionType(decl: RecordDecl)
    | ArrayType(element: Type)
    | OtherType

  /** A variable's initializer: none, an `InitListExpr`, or anything else. */
  datatype Initializer = NoInit | InitList | OtherInit

  /** A `VarDecl`: its type, whether it has global storage, and its initializer. */
  datatype VarDecl = VarDecl(varType: Type, hasGlobalStorage: bool, init: Initializer)
}
