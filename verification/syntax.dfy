/** The host-language (Rust) syntax the core inspects and rewrites: the
    statements of the state block and the expressions of event closures, as
    far as syn's `Expr`, `Stmt`, `Pat` and `Type` matter to the core. Each
    node can be printed back to its token text (the spacing of `quote!`'s
    stringification is not modelled: tokens are separated by one space). */
module Syntax {
  import opened Strings
  import opened Diagnostics

  /** A syn path: at least one segment. */
  type Segments = s: seq<string> | |s| > 0 witness [""]

  /** A type, kept as its token text together with the identifiers in it
      (syn's visitors meet those too). */
  datatype Ty = Ty(text: string, idents: seq<string>)

  datatype Pat =
    | PIdent(name: string, sp: nat)
    | PType(pat: Pat, ty: Ty)
    | POther(text: string, idents: seq<string>)

  /** The member of a field access: `.name` or a tuple index `.0`. */
  datatype Member = Named(name: string) | Unnamed(index: string)

  datatype Expr =
    | Path(segments: Segments)
    | Lit(text: string)
    | Unary(op: string, operand: Expr)
    | Binary(left: Expr, op: string, right: Expr)
    | Assign(left: Expr, right: Expr)
    | AssignOp(left: Expr, op: string, right: Expr)
    | MethodCall(receiver: Expr, name: string, args: seq<Expr>)
    | Field(base: Expr, member: Member)
    | Macro(path: Segments, tokens: string)
    | Block(stmts: seq<Stmt>)
    | Closure(closure: ClosureExpr)

  /** `|params| body`. */
  datatype ClosureExpr = ClosureExpr(params: seq<Pat>, body: Expr)

  /** A statement: `let pat [= init];` (with the span of `let`), an
      expression, or an expression followed by `;`. */
  datatype Stmt =
    | Local(pat: Pat, init: Option<Expr>, letSp: nat)
    | ExprStmt(e: Expr)
    | Semi(e: Expr)

  /** `<state>.borrow().<member>` (or `borrow_mut`), the accessor the
      rewriter produces for a state read (write). */
  function Accessor(stateIdent: string, mutable: bool, member: Member): Expr
  {
    Field(MethodCall(Path([stateIdent]), if mutable then "borrow_mut" else "borrow", []), member)
  }

  // ---------------------------------------------------------------------
  // Identifiers, in the order syn's visitors meet them

  function PatIdents(p: Pat): seq<string>
  {
    match p
    case PIdent(name, _) => [name]
    case PType(inner, ty) => PatIdents(inner) + ty.idents
    case POther(_, idents) => idents
  }

  function PatsIdents(ps: seq<Pat>): seq<string>
  {
    if |ps| == 0 then [] else PatIdents(ps[0]) + PatsIdents(ps[1..])
  }

  function MemberIdents(m: Member): seq<string>
  {
    match m
    case Named(name) => [name]
    case Unnamed(_) => []
  }

  /** Every identifier of `e` (`visit_ident`), in visiting order. */
  function Idents(e: Expr): seq<string>
  {
    match e
    case Path(segs) => segs
    case Lit(_) => []
    case Unary(_, x) => Idents(x)
    case Binary(l, _, r) => Idents(l) + Idents(r)
    case Assign(l, r) => Idents(l) + Idents(r)
    case AssignOp(l, _, r) => Idents(l) + Idents(r)
    case MethodCall(recv, m, args) => Idents(recv) + [m] + ExprsIdents(args)
    case Field(base, mem) => Idents(base) + MemberIdents(mem)
    case Macro(path, _) => path
    case Block(stmts) => StmtsIdents(stmts)
    case Closure(c) => ClosureIdents(c)
  }

  function ExprsIdents(es: seq<Expr>): seq<string>
  {
    if |es| == 0 then [] else Idents(es[0]) + ExprsIdents(es[1..])
  }

  function ClosureIdents(c: ClosureExpr): seq<string>
  {
    PatsIdents(c.params) + Idents(c.body)
  }

  function StmtIdents(s: Stmt): seq<string>
  {
    match s
    case Local(pat, init, _) => PatIdents(pat) + (if init.Some? then Idents(init.value) else [])
    case ExprStmt(e) => Idents(e)
    case Semi(e) => Idents(e)
  }

  function StmtsIdents(ss: seq<Stmt>): seq<string>
  {
    if |ss| == 0 then [] else StmtIdents(ss[0]) + StmtsIdents(ss[1..])
  }

  // ---------------------------------------------------------------------
  // Token text (`quote!(#node).to_string()`)

  function PatText(p: Pat): string
  {
    match p
    case PIdent(name, _) => name
    case PType(inner, ty) => PatText(inner) + " : " + ty.text
    case POther(text, _) => text
  }

  function MemberText(m: Member): string
  {
    match m
    case Named(name) => name
    case Unnamed(index) => index
  }

  function ExprText(e: Expr): string
  {
    match e
    case Path(segs) => Join(segs, " :: ")
    case Lit(text) => text
    case Unary(op, x) => op + " " + ExprText(x)
    case Binary(l, op, r) => ExprText(l) + " " + op + " " + ExprText(r)
    case Assign(l, r) => ExprText(l) + " = " + ExprText(r)
    case AssignOp(l, op, r) => ExprText(l) + " " + op + " " + ExprText(r)
    case MethodCall(recv, m, args) => ExprText(recv) + " . " + m + " (" + ExprsText(args) + ")"
    case Field(base, mem) => ExprText(base) + " . " + MemberText(mem)
    case Macro(path, tokens) => Join(path, " :: ") + " ! " + tokens
    case Block(stmts) => "{ " + StmtsText(stmts) + " }"
    case Closure(c) => ClosureText(c)
  }

  function ExprsText(es: seq<Expr>): string
  {
    if |es| == 0 then "" else if |es| == 1 then ExprText(es[0]) else ExprText(es[0]) + " , " + ExprsText(es[1..])
  }

  function PatsText(ps: seq<Pat>): string
  {
    if |ps| == 0 then "" else if |ps| == 1 then PatText(ps[0]) else PatText(ps[0]) + " , " + PatsText(ps[1..])
  }

  function ClosureText(c: ClosureExpr): string
  {
    "| " + PatsText(c.params) + " | " + ExprText(c.body)
  }

  function StmtText(s: Stmt): string
  {
    match s
    case Local(pat, init, _) =>
      "let " + PatText(pat) + (if init.Some? then " = " + ExprText(init.value) else "") + " ;"
    case ExprStmt(e) => ExprText(e)
    case Semi(e) => ExprText(e) + " ;"
  }

  function StmtsText(ss: seq<Stmt>): string
  {
    if |ss| == 0 then "" else if |ss| == 1 then StmtText(ss[0]) else StmtText(ss[0]) + " " + StmtsText(ss[1..])
  }
}
