/**
  The part of Clang's AST that the for-loop converter looks at: source
  locations, types, value declarations, and expression and statement nodes.
  As in Clang, a statement is a node like any other (Expr derives from Stmt),
  so a loop body is an `Expr` whose node is usually `Other("CompoundStmt", ...)`.
 */
module Ast {
  import opened Optional

  type FileId = nat

  /** A source location: the file it lies in and an offset in that file. */
  datatype Loc = Loc(file: FileId, offset: nat)

  /** A token range, from the first token to the last one. */
  datatype SourceRange = SourceRange(begin: Loc, end: Loc)

  /** The verbatim text of a token range (Lexer::getSourceText), left abstract. */
  type SourceText = SourceRange -> string

  /** The types the converter distinguishes. */
  datatype Ty =
    | IntegerTy
    | ConstantArrayTy(element: Ty, size: nat)
    | VariableArrayTy(element: Ty)
    | PointerTy(pointee: Ty)
    | RecordTy(name: string)
    | TypedefTy(name: string, aliased: Ty)

  predicate NoTypedef(t: Ty) {
    match t
    case IntegerTy => true
    case ConstantArrayTy(el, _) => NoTypedef(el)
    case VariableArrayTy(el) => NoTypedef(el)
    case PointerTy(p) => NoTypedef(p)
    case RecordTy(_) => true
    case TypedefTy(_, _) => false
  }

  /** getCanonicalType: every typedef, however deep, is replaced by the type it names. */
  function Canonical(t: Ty): (c: Ty)
    ensures NoTypedef(c)
    ensures NoTypedef(t) ==> c == t
  {
    match t
    case IntegerTy => t
    case ConstantArrayTy(el, n) => ConstantArrayTy(Canonical(el), n)
    case VariableArrayTy(el) => VariableArrayTy(Canonical(el))
    case PointerTy(p) => PointerTy(Canonical(p))
    case RecordTy(_) => t
    case TypedefTy(_, a) => Canonical(a)
  }

  /** Type::isIntegerType, which looks through typedefs. */
  predicate IsIntegerType(t: Ty) {
    Canonical(t).IntegerTy?
  }

  /**
    A declaration a reference can name. `canonical` identifies the entity's first
    declaration (getCanonicalDecl), so redeclarations of one variable share it.
    `constant` holds the value when a reference to the declaration is an integer
    constant expression (a const integer initialised by one, or an enumerator).
   */
  datatype ValueDecl = ValueDecl(canonical: nat, name: string, constant: Option<int>)

  datatype BinaryOp = Add | Sub | Mul | Assign | OtherOp

  /** A node together with its type and its source range. */
  datatype Expr = Expr(node: Node, ty: Ty, range: SourceRange)

  datatype Node =
    | DeclRef(decl: ValueDecl)
    | IntegerLiteral(value: int)
    | Paren(sub: Expr)
    | ImplicitCast(sub: Expr)
    | ExplicitCast(sub: Expr)
    | ArraySubscript(base: Option<Expr>, index: Expr)
    | Binary(op: BinaryOp, lhs: Expr, rhs: Expr)
    | Member(object: Expr, field: ValueDecl, arrow: bool)
    | This
      /** Any other statement or expression: compound statements, calls, declarations, ... */
    | Other(kind: string, children: seq<Expr>)

  /** The children of a node, in the order RecursiveASTVisitor traverses them. */
  function Children(e: Expr): (r: seq<Expr>)
    ensures forall i | 0 <= i < |r| :: r[i] < e
  {
    match e.node
    case DeclRef(_) => []
    case IntegerLiteral(_) => []
    case Paren(s) => [s]
    case ImplicitCast(s) => [s]
    case ExplicitCast(s) => [s]
    case ArraySubscript(b, i) => (if b.Some? then [b.value] else []) + [i]
    case Binary(_, l, r) => [l, r]
    case Member(o, _, _) => [o]
    case This => []
    case Other(_, cs) => cs
  }

  /** The number of nodes in a tree. */
  function Size(e: Expr): (n: nat)
    ensures n >= 1
    decreases e, 1
  {
    1 + SizeSeq(Children(e), e)
  }

  function SizeSeq(cs: seq<Expr>, ghost parent: Expr): (n: nat)
    requires forall i | 0 <= i < |cs| :: cs[i] < parent
    ensures forall i | 0 <= i < |cs| :: Size(cs[i]) <= n
    decreases parent, 0, |cs|
  {
    if cs == [] then 0 else Size(cs[0]) + SizeSeq(cs[1..], parent)
  }

  /** Expr::IgnoreParenImpCasts: strips parentheses and implicit conversions. */
  function IgnoreParenImpCasts(e: Expr): (r: Expr)
    ensures !r.node.Paren? && !r.node.ImplicitCast?
    ensures !e.node.Paren? && !e.node.ImplicitCast? ==> r == e
  {
    match e.node
    case Paren(s) => IgnoreParenImpCasts(s)
    case ImplicitCast(s) => IgnoreParenImpCasts(s)
    case _ => e
  }

  /** Expr::IgnoreParenCasts: strips parentheses and every cast, explicit ones included. */
  function IgnoreParenCasts(e: Expr): (r: Expr)
    ensures !r.node.Paren? && !r.node.ImplicitCast? && !r.node.ExplicitCast?
    ensures !e.node.Paren? && !e.node.ImplicitCast? && !e.node.ExplicitCast? ==> r == e
  {
    match e.node
    case Paren(s) => IgnoreParenCasts(s)
    case ImplicitCast(s) => IgnoreParenCasts(s)
    case ExplicitCast(s) => IgnoreParenCasts(s)
    case _ => e
  }

  /** getDeclRef (LoopActions.cpp): the reference E denotes once no-op wrappers are gone, if any. */
  function GetDeclRef(e: Expr): (r: Option<Expr>)
    ensures r.Some? ==> r.value.node.DeclRef?
  {
    var stripped := IgnoreParenImpCasts(e);
    if stripped.node.DeclRef? then Some(stripped) else None
  }

  /** areSameVariable: both declarations exist and have the same canonical declaration. */
  predicate AreSameVariable(first: Option<ValueDecl>, second: Option<ValueDecl>) {
    first.Some? && second.Some? && first.value.canonical == second.value.canonical
  }

  /**
    The content of a node that Stmt::Profile hashes: its class, the canonical
    declaration it names, its literal value or operator, and its children's
    fingerprints. Source ranges and types are not part of it.
   */
  datatype Fingerprint = Fingerprint(kind: string, decl: Option<nat>, value: Option<int>, children: seq<Fingerprint>)

  function KindName(n: Node): string {
    match n
    case DeclRef(_) => "DeclRefExpr"
    case IntegerLiteral(_) => "IntegerLiteral"
    case Paren(_) => "ParenExpr"
    case ImplicitCast(_) => "ImplicitCastExpr"
    case ExplicitCast(_) => "CStyleCastExpr"
    case ArraySubscript(_, _) => "ArraySubscriptExpr"
    case Binary(_, _, _) => "BinaryOperator"
    case Member(_, _, arrow) => if arrow then "MemberExpr->" else "MemberExpr."
    case This => "CXXThisExpr"
    case Other(k, _) => k
  }

  function OpCode(op: BinaryOp): int {
    match op
    case Add => 0
    case Sub => 1
    case Mul => 2
    case Assign => 3
    case OtherOp => 4
  }

  function Profile(e: Expr): (fp: Fingerprint)
    decreases e, 1
  {
    var decl := match e.node
      case DeclRef(d) => Some(d.canonical)
      case Member(_, f, _) => Some(f.canonical)
      case _ => None;
    var value := match e.node
      case IntegerLiteral(v) => Some(v)
      case Binary(op, _, _) => Some(OpCode(op))
      case _ => None;
    Fingerprint(KindName(e.node), decl, value, ProfileSeq(Children(e), e))
  }

  function ProfileSeq(cs: seq<Expr>, ghost parent: Expr): (fps: seq<Fingerprint>)
    requires forall i | 0 <= i < |cs| :: cs[i] < parent
    decreases parent, 0, |cs|
  {
    if cs == [] then [] else [Profile(cs[0])] + ProfileSeq(cs[1..], parent)
  }

  /** areSameExpr: both expressions exist and their profiles agree. */
  predicate AreSameExpr(first: Option<Expr>, second: Option<Expr>) {
    first.Some? && second.Some? && Profile(first.value) == Profile(second.value)
  }

  /**
    The value of an integer constant expression built from literals, constant
    declarations, parentheses, casts and + - *; None for anything else.
    Integers are mathematical: APSInt::isSameValue compares values, not widths.
   */
  function Evaluate(e: Expr): Option<int> {
    match e.node
    case IntegerLiteral(v) => Some(v)
    case DeclRef(d) => d.constant
    case Paren(s) => Evaluate(s)
    case ImplicitCast(s) => Evaluate(s)
    case ExplicitCast(s) => if IsIntegerType(e.ty) then Evaluate(s) else None
    case Binary(op, l, r) =>
      var a := Evaluate(l);
      var b := Evaluate(r);
      if a.None? || b.None? then None
      else if op == Add then Some(a.value + b.value)
      else if op == Sub then Some(a.value - b.value)
      else if op == Mul then Some(a.value * b.value)
      else None
    case _ => None
  }

  /** Expr::isIntegerConstantExpr: an integer-typed expression with a constant value. */
  function IntegerConstantValue(e: Expr): Option<int> {
    if IsIntegerType(e.ty) then Evaluate(e) else None
  }

  /** getStringFromRange: null when the range's ends lie in different files, else the range's text. */
  function GetStringFromRange(range: SourceRange, text: SourceText): (r: Option<string>)
    ensures r.None? <==> range.begin.file != range.end.file
    ensures r.Some? ==> r.value == text(range)
  {
    if range.begin.file != range.end.file then None else Some(text(range))
  }
}
