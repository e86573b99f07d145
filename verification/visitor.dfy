/** The expression rewriter (visitor/ident.rs): an `IdentModifier` walks a
    host expression, records every identifier it meets, records the names
    bound by `let`, and rewrites each use of a state `x` into the accessor
    `<state>.borrow().x` (a read) or `<state>.borrow_mut().x` (a write or a
    method call on the state).

    syn re-parses the text `prefix + quote!(node)`. Because `.` binds tighter
    than every binary and assignment operator, that parse is the node with
    its leftmost leaf prefixed by the accessor, or a parse error when the
    leftmost leaf cannot follow a `.`: `Reparse` models exactly that, for
    trees as syn builds them (parenthesised sub-expressions are not part of
    the model). */
module Visitor {
  import opened Strings
  import opened Diagnostics
  import opened Syntax

  /** The configuration fixed at construction: the state names and the
      identifier of the shared state (`state_names`, `state_ident`). */
  datatype Config = Config(stateNames: set<string>, stateIdent: string)

  /** The accessor's own identifier must not be a state name: otherwise
      rewriting `x` yields an expression containing a state again and the
      source's visit never ends. */
  predicate Valid(c: Config)
  {
    c.stateIdent !in c.stateNames
  }

  /** The mutable part of an `IdentModifier`. */
  datatype Modifier = Modifier(
    names: set<string>,
    namesRefmut: set<string>,
    namesRef: set<string>,
    locals: set<string>,
    errors: seq<Marker>,
    countExprPath: nat)

  /** A visited node together with the modifier after the visit. */
  datatype Out<T> = Out(v: T, m: Modifier)

  /** `IdentModifier::new`. */
  function New(): (m: Modifier)
    ensures m.names == m.namesRef == m.namesRefmut == m.locals == {}
    ensures m.errors == [] && m.countExprPath == 0
  {
    Modifier({}, {}, {}, {}, [], 0)
  }

  function Elems(s: seq<string>): set<string>
  {
    set x | x in s
  }

  lemma ElemsAppend(a: seq<string>, b: seq<string>)
    ensures Elems(a + b) == Elems(a) + Elems(b)
  {
  }

  /** The identifiers an accessor brings in. */
  function AccessorNames(s: string): set<string>
  {
    {s, "borrow", "borrow_mut"}
  }

  function BorrowName(mutable: bool): string
  {
    if mutable then "borrow_mut" else "borrow"
  }

  /** The token text of `<state>.borrow().` (or `borrow_mut`). */
  function AccessorText(stateIdent: string, mutable: bool): string
  {
    stateIdent + " . " + BorrowName(mutable) + " () . "
  }

  // ---------------------------------------------------------------------
  // Views of an expression used by the contracts

  /** The names bound by a plain `let x` anywhere inside `e`. */
  function LetNames(e: Expr): seq<string>
  {
    match e
    case Path(_) => []
    case Lit(_) => []
    case Unary(_, x) => LetNames(x)
    case Binary(l, _, r) => LetNames(l) + LetNames(r)
    case Assign(l, r) => LetNames(l) + LetNames(r)
    case AssignOp(l, _, r) => LetNames(l) + LetNames(r)
    case MethodCall(recv, _, args) => LetNames(recv) + ExprsLetNames(args)
    case Field(base, _) => LetNames(base)
    case Macro(_, _) => []
    case Block(stmts) => StmtsLetNames(stmts)
    case Closure(cl) => LetNames(cl.body)
  }

  function ExprsLetNames(es: seq<Expr>): seq<string>
  {
    if |es| == 0 then [] else LetNames(es[0]) + ExprsLetNames(es[1..])
  }

  function StmtLetNames(s: Stmt): seq<string>
  {
    match s
    case Local(pat, init, _) =>
      (if pat.PIdent? then [pat.name] else []) + (if init.Some? then LetNames(init.value) else [])
    case ExprStmt(e) => LetNames(e)
    case Semi(e) => LetNames(e)
  }

  function StmtsLetNames(ss: seq<Stmt>): seq<string>
  {
    if |ss| == 0 then [] else StmtLetNames(ss[0]) + StmtsLetNames(ss[1..])
  }

  /** No path expression inside `e` starts with a state name: every use of
      a state has been replaced by an accessor. */
  predicate Clean(e: Expr, states: set<string>)
  {
    match e
    case Path(segs) => segs[0] !in states
    case Lit(_) => true
    case Unary(_, x) => Clean(x, states)
    case Binary(l, _, r) => Clean(l, states) && Clean(r, states)
    case Assign(l, r) => Clean(l, states) && Clean(r, states)
    case AssignOp(l, _, r) => Clean(l, states) && Clean(r, states)
    case MethodCall(recv, _, args) => Clean(recv, states) && ExprsClean(args, states)
    case Field(base, _) => Clean(base, states)
    case Macro(_, _) => true
    case Block(stmts) => StmtsClean(stmts, states)
    case Closure(cl) => Clean(cl.body, states)
  }

  predicate ExprsClean(es: seq<Expr>, states: set<string>)
  {
    |es| == 0 || (Clean(es[0], states) && ExprsClean(es[1..], states))
  }

  predicate StmtClean(s: Stmt, states: set<string>)
  {
    match s
    case Local(_, init, _) => init.None? || Clean(init.value, states)
    case ExprStmt(e) => Clean(e, states)
    case Semi(e) => Clean(e, states)
  }

  predicate StmtsClean(ss: seq<Stmt>, states: set<string>)
  {
    |ss| == 0 || (StmtClean(ss[0], states) && StmtsClean(ss[1..], states))
  }

  predicate IsAccessorBase(b: Expr, stateIdent: string)
  {
    b == MethodCall(Path([stateIdent]), "borrow", []) || b == MethodCall(Path([stateIdent]), "borrow_mut", [])
  }

  /** The expression with every accessor `<state>.borrow().m` (or
      `borrow_mut`) put back to the leaf it stands for: the inverse of the
      rewrite. */
  function Erase(e: Expr, s: string): Expr
  {
    match e
    case Path(_) => e
    case Lit(_) => e
    case Unary(op, x) => Unary(op, Erase(x, s))
    case Binary(l, op, r) => Binary(Erase(l, s), op, Erase(r, s))
    case Assign(l, r) => Assign(Erase(l, s), Erase(r, s))
    case AssignOp(l, op, r) => AssignOp(Erase(l, s), op, Erase(r, s))
    case MethodCall(recv, n, args) => MethodCall(Erase(recv, s), n, EraseExprs(args, s))
    case Field(base, mem) =>
      if IsAccessorBase(base, s) then
        (match mem
         case Named(x) => Path([x])
         case Unnamed(t) => Lit(t))
      else Field(Erase(base, s), mem)
    case Macro(_, _) => e
    case Block(stmts) => Block(EraseStmts(stmts, s))
    case Closure(cl) => Closure(ClosureExpr(cl.params, Erase(cl.body, s)))
  }

  function EraseExprs(es: seq<Expr>, s: string): (r: seq<Expr>)
    ensures |r| == |es|
  {
    if |es| == 0 then [] else [Erase(es[0], s)] + EraseExprs(es[1..], s)
  }

  function EraseStmt(st: Stmt, s: string): Stmt
  {
    match st
    case Local(pat, init, sp) => Local(pat, if init.Some? then Some(Erase(init.value, s)) else None, sp)
    case ExprStmt(e) => ExprStmt(Erase(e, s))
    case Semi(e) => Semi(Erase(e, s))
  }

  function EraseStmts(ss: seq<Stmt>, s: string): seq<Stmt>
  {
    if |ss| == 0 then [] else [EraseStmt(ss[0], s)] + EraseStmts(ss[1..], s)
  }

  // ---------------------------------------------------------------------
  // The re-parse of `prefix + quote!(node)`

  /** The leaf the accessor prefix attaches to: follow left operands,
      assignment targets, method receivers and field bases. */
  function LeftLeaf(e: Expr): Expr
  {
    match e
    case Binary(l, _, _) => LeftLeaf(l)
    case Assign(l, _) => LeftLeaf(l)
    case AssignOp(l, _, _) => LeftLeaf(l)
    case MethodCall(recv, _, _) => LeftLeaf(recv)
    case Field(base, _) => LeftLeaf(base)
    case _ => e
  }

  /** A leaf that may follow `.`: a one-segment path (a field name) or an
      unsuffixed integer literal (a tuple index). */
  predicate Attachable(leaf: Expr)
  {
    (leaf.Path? && |leaf.segments| == 1) || (leaf.Lit? && AllDigits(leaf.text))
  }

  /** What the views above see of an accessor. */
  lemma {:induction false} AccessorFacts(s: string, mutable: bool, mem: Member)
    ensures ExprText(Accessor(s, mutable, mem)) == AccessorText(s, mutable) + MemberText(mem)
    ensures Idents(Accessor(s, mutable, mem)) == [s, BorrowName(mutable)] + MemberIdents(mem)
    ensures LetNames(Accessor(s, mutable, mem)) == []
    ensures LeftLeaf(Accessor(s, mutable, mem)) == Path([s])
  {
    var call := MethodCall(Path([s]), BorrowName(mutable), []);
    assert Accessor(s, mutable, mem) == Field(call, mem);
    BorrowCallFacts(s, mutable);
  }

  /** What the views above see of `<s>.borrow()` (or `borrow_mut`). */
  lemma BorrowCallFacts(s: string, mutable: bool)
    ensures var call := MethodCall(Path([s]), BorrowName(mutable), []);
            && LeftLeaf(call) == Path([s])
            && ExprText(call) == s + " . " + BorrowName(mutable) + " ()"
            && Idents(call) == [s, BorrowName(mutable)]
            && LetNames(call) == []
  {
    var call := MethodCall(Path([s]), BorrowName(mutable), []);
    assert ExprText(Path([s])) == s;
    assert ExprsText([]) == "";
    assert ExprsIdents([]) == [] && ExprsLetNames([]) == [];
  }

  /** `parse_str(prefix + quote!(e))`, with `prefix` the accessor. */
  function Reparse(e: Expr, mutable: bool, s: string): (r: Option<Expr>)
    ensures r.Some? <==> Attachable(LeftLeaf(e))
    ensures r.Some? ==> !r.value.Path? && LeftLeaf(r.value) == Path([s])
    ensures r.Some? && e.MethodCall? ==> r.value.MethodCall? && r.value.name == e.name && r.value.args == e.args
                                         && !r.value.receiver.Path?
  {
    match e
    case Path(segs) =>
      if |segs| == 1 then
        AccessorFacts(s, mutable, Named(segs[0]));
        Some(Accessor(s, mutable, Named(segs[0])))
      else None
    case Lit(t) =>
      if AllDigits(t) then
        AccessorFacts(s, mutable, Unnamed(t));
        Some(Accessor(s, mutable, Unnamed(t)))
      else None
    case Binary(l, op, r) =>
      (match Reparse(l, mutable, s)
       case Some(l1) => Some(Binary(l1, op, r))
       case None => None)
    case Assign(l, r) =>
      (match Reparse(l, mutable, s)
       case Some(l1) => Some(Assign(l1, r))
       case None => None)
    case AssignOp(l, op, r) =>
      (match Reparse(l, mutable, s)
       case Some(l1) => Some(AssignOp(l1, op, r))
       case None => None)
    case MethodCall(recv, n, args) =>
      (match Reparse(recv, mutable, s)
       case Some(recv1) => Some(MethodCall(recv1, n, args))
       case None => None)
    case Field(base, mem) =>
      (match Reparse(base, mutable, s)
       case Some(base1) => Some(Field(base1, mem))
       case None => None)
    case _ => None
  }

  /** The re-parsed node prints as the text that was parsed. */
  lemma {:induction false} ReparseText(e: Expr, mutable: bool, s: string)
    requires Reparse(e, mutable, s).Some?
    ensures ExprText(Reparse(e, mutable, s).value) == AccessorText(s, mutable) + ExprText(e)
  {
    if e.Path? || e.Lit? {
      ReparseLeafText(e, mutable, s);
    } else {
      hide Reparse, ExprText, AccessorText, LeftChild, WithLeftChild, TailText;
      ReparseStep(e, mutable, s);
      var l := LeftChild(e);
      var l1 := Reparse(l, mutable, s).value;
      ReparseText(l, mutable, s);
      LeftTextSplit(e);
      LeftTextSplit(WithLeftChild(e, l1));
      assert ExprText(WithLeftChild(e, l1)) == (AccessorText(s, mutable) + ExprText(l)) + TailText(e);
    }
  }

  /** A leaf re-parses as the accessor with the leaf as its member. */
  lemma ReparseLeafText(e: Expr, mutable: bool, s: string)
    requires e.Path? || e.Lit?
    requires Reparse(e, mutable, s).Some?
    ensures ExprText(Reparse(e, mutable, s).value) == AccessorText(s, mutable) + ExprText(e)
  {
    if e.Path? {
      assert ExprText(e) == e.segments[0];
      AccessorFacts(s, mutable, Named(e.segments[0]));
    } else {
      AccessorFacts(s, mutable, Unnamed(e.text));
    }
  }

  /** Above a leaf, the re-parse replaces the left child only. */
  lemma ReparseStep(e: Expr, mutable: bool, s: string)
    requires Reparse(e, mutable, s).Some?
    requires !e.Path? && !e.Lit?
    ensures HasLeftChild(e) && Reparse(LeftChild(e), mutable, s).Some?
    ensures Reparse(e, mutable, s).value == WithLeftChild(e, Reparse(LeftChild(e), mutable, s).value)
  {
  }

  predicate HasLeftChild(e: Expr)
  {
    e.Binary? || e.Assign? || e.AssignOp? || e.MethodCall? || e.Field?
  }

  /** The left child `LeftLeaf` descends into. */
  function LeftChild(e: Expr): (l: Expr)
    requires HasLeftChild(e)
    ensures l < e
  {
    match e
    case Binary(l, _, _) => l
    case Assign(l, _) => l
    case AssignOp(l, _, _) => l
    case MethodCall(recv, _, _) => recv
    case Field(base, _) => base
  }

  /** `e` with its left child replaced. */
  function WithLeftChild(e: Expr, l1: Expr): (r: Expr)
    requires HasLeftChild(e)
    ensures HasLeftChild(r) && LeftChild(r) == l1 && TailText(r) == TailText(e) && TailIdents(r) == TailIdents(e)
  {
    match e
    case Binary(_, op, r) => Binary(l1, op, r)
    case Assign(_, r) => Assign(l1, r)
    case AssignOp(_, op, r) => AssignOp(l1, op, r)
    case MethodCall(_, n, args) => MethodCall(l1, n, args)
    case Field(_, mem) => Field(l1, mem)
  }

  /** The text after the left child. */
  function TailText(e: Expr): string
    requires HasLeftChild(e)
  {
    match e
    case Binary(_, op, r) => " " + op + " " + ExprText(r)
    case Assign(_, r) => " = " + ExprText(r)
    case AssignOp(_, op, r) => " " + op + " " + ExprText(r)
    case MethodCall(_, n, args) => " . " + n + " (" + ExprsText(args) + ")"
    case Field(_, mem) => " . " + MemberText(mem)
  }

  lemma LeftTextSplit(e: Expr)
    requires HasLeftChild(e)
    ensures ExprText(e) == ExprText(LeftChild(e)) + TailText(e)
  {
    match e
    case Binary(l, op, r) =>
      assert ExprText(e) == ExprText(l) + (" " + op + " " + ExprText(r));
    case Assign(l, r) =>
      assert ExprText(e) == ExprText(l) + (" = " + ExprText(r));
    case AssignOp(l, op, r) =>
      assert ExprText(e) == ExprText(l) + (" " + op + " " + ExprText(r));
    case MethodCall(recv, n, args) =>
      assert ExprText(e) == ExprText(recv) + (" . " + n + " (" + ExprsText(args) + ")");
    case Field(base, mem) =>
      assert ExprText(e) == ExprText(base) + (" . " + MemberText(mem));
  }

  /** The re-parsed node has the identifiers of the original, after the
      accessor's. */
  lemma {:induction false} ReparseIdents(e: Expr, mutable: bool, s: string)
    requires Reparse(e, mutable, s).Some?
    ensures Idents(Reparse(e, mutable, s).value) == [s, BorrowName(mutable)] + Idents(e)
  {
    if e.Path? {
      AccessorFacts(s, mutable, Named(e.segments[0]));
    } else if e.Lit? {
      AccessorFacts(s, mutable, Unnamed(e.text));
    } else {
      hide Reparse, Idents, LeftChild, WithLeftChild, TailIdents;
      ReparseStep(e, mutable, s);
      var l := LeftChild(e);
      var l1 := Reparse(l, mutable, s).value;
      ReparseIdents(l, mutable, s);
      LeftIdentsSplit(e);
      LeftIdentsSplit(WithLeftChild(e, l1));
      assert Idents(WithLeftChild(e, l1)) == ([s, BorrowName(mutable)] + Idents(l)) + TailIdents(e);
    }
  }

  /** The identifiers after the left child. */
  function TailIdents(e: Expr): seq<string>
    requires HasLeftChild(e)
  {
    match e
    case Binary(_, _, r) => Idents(r)
    case Assign(_, r) => Idents(r)
    case AssignOp(_, _, r) => Idents(r)
    case MethodCall(_, n, args) => [n] + ExprsIdents(args)
    case Field(_, mem) => MemberIdents(mem)
  }

  lemma LeftIdentsSplit(e: Expr)
    requires HasLeftChild(e)
    ensures Idents(e) == Idents(LeftChild(e)) + TailIdents(e)
  {
    if e.MethodCall? {
      assert Idents(e) == Idents(e.receiver) + ([e.name] + ExprsIdents(e.args));
    }
  }

  /** Re-parsing neither adds nor removes a `let`. */
  lemma {:induction false} ReparseLets(e: Expr, mutable: bool, s: string)
    requires Reparse(e, mutable, s).Some?
    ensures LetNames(Reparse(e, mutable, s).value) == LetNames(e)
  {
    match e
    case Path(segs) => AccessorFacts(s, mutable, Named(segs[0]));
    case Lit(t) => AccessorFacts(s, mutable, Unnamed(t));
    case Binary(l, op, r) => ReparseLets(l, mutable, s);
    case Assign(l, r) => ReparseLets(l, mutable, s);
    case AssignOp(l, op, r) => ReparseLets(l, mutable, s);
    case MethodCall(recv, n, args) => ReparseLets(recv, mutable, s);
    case Field(base, mem) => ReparseLets(base, mutable, s);
  }

  /** The rewrite is undone by `Erase`, unless the leaf was already the
      state identifier itself. */
  lemma {:induction false} ReparseErase(e: Expr, mutable: bool, s: string)
    requires Reparse(e, mutable, s).Some?
    requires LeftLeaf(e) != Path([s])
    ensures Erase(Reparse(e, mutable, s).value, s) == Erase(e, s)
  {
    match e
    case Path(segs) =>
    case Lit(t) =>
    case Binary(l, op, r) => ReparseErase(l, mutable, s);
    case Assign(l, r) => ReparseErase(l, mutable, s);
    case AssignOp(l, op, r) => ReparseErase(l, mutable, s);
    case MethodCall(recv, n, args) => ReparseErase(recv, mutable, s);
    case Field(base, mem) =>
      ReparseErase(base, mutable, s);
  }

  /** The identifiers of the leftmost leaf come first among those of `e`. */
  lemma {:induction false} LeftLeafIdentsFirst(e: Expr)
    ensures |Idents(LeftLeaf(e))| <= |Idents(e)|
    ensures Idents(e)[..|Idents(LeftLeaf(e))|] == Idents(LeftLeaf(e))
  {
    match e
    case Binary(l, _, r) => LeftLeafIdentsFirst(l);
    case Assign(l, _) => LeftLeafIdentsFirst(l);
    case AssignOp(l, _, _) => LeftLeafIdentsFirst(l);
    case MethodCall(recv, _, _) => LeftLeafIdentsFirst(recv);
    case Field(base, _) => LeftLeafIdentsFirst(base);
    case _ =>
  }

  // ---------------------------------------------------------------------
  // Termination measure

  /** A size in which a state path outweighs the accessor replacing it. */
  function Cost(e: Expr, states: set<string>): (n: nat)
    ensures n >= 1
  {
    match e
    case Path(segs) => if segs[0] in states then 10 else 1
    case Lit(t) => if AllDigits(t) then 4 else 1
    case Unary(_, x) => 1 + Cost(x, states)
    case Binary(l, _, r) => 1 + Cost(l, states) + Cost(r, states)
    case Assign(l, r) => 1 + Cost(l, states) + Cost(r, states)
    case AssignOp(l, _, r) => 1 + Cost(l, states) + Cost(r, states)
    case MethodCall(recv, _, args) => 1 + Cost(recv, states) + ExprsCost(args, states)
    case Field(base, _) => 1 + Cost(base, states)
    case Macro(_, _) => 1
    case Block(stmts) => 1 + StmtsCost(stmts, states)
    case Closure(cl) => 1 + Cost(cl.body, states)
  }

  function ExprsCost(es: seq<Expr>, states: set<string>): (n: nat)
    ensures |es| > 0 ==> n >= Cost(es[0], states)
  {
    if |es| == 0 then 0 else Cost(es[0], states) + ExprsCost(es[1..], states)
  }

  function StmtCost(st: Stmt, states: set<string>): (n: nat)
    ensures n >= 1
  {
    match st
    case Local(_, init, _) => 1 + (if init.Some? then Cost(init.value, states) else 0)
    case ExprStmt(e) => 1 + Cost(e, states)
    case Semi(e) => 1 + Cost(e, states)
  }

  function StmtsCost(ss: seq<Stmt>, states: set<string>): (n: nat)
    ensures |ss| > 0 ==> n >= StmtCost(ss[0], states)
  {
    if |ss| == 0 then 0 else StmtCost(ss[0], states) + StmtsCost(ss[1..], states)
  }

  /** A path the rewrite may replace starts with a state name. */
  predicate StateLeaf(e: Expr, states: set<string>)
  {
    LeftLeaf(e).Path? ==> LeftLeaf(e).segments[0] in states
  }

  lemma AccessorCost(mutable: bool, c: Config)
    requires Valid(c)
    ensures forall mem :: Cost(Accessor(c.stateIdent, mutable, mem), c.stateNames) == 3
  {
    var call := MethodCall(Path([c.stateIdent]), BorrowName(mutable), []);
    assert Cost(Path([c.stateIdent]), c.stateNames) == 1;
    assert ExprsCost([], c.stateNames) == 0;
    assert Cost(call, c.stateNames) == 2;
  }

  lemma {:induction false} ReparseCost(e: Expr, mutable: bool, c: Config)
    requires Valid(c)
    requires Reparse(e, mutable, c.stateIdent).Some?
    ensures Cost(Reparse(e, mutable, c.stateIdent).value, c.stateNames) + Cost(LeftLeaf(e), c.stateNames)
         == Cost(e, c.stateNames) + 3
  {
    match e
    case Path(_) => AccessorCost(mutable, c);
    case Lit(_) => AccessorCost(mutable, c);
    case Binary(l, _, _) => ReparseCost(l, mutable, c);
    case Assign(l, _) => ReparseCost(l, mutable, c);
    case AssignOp(l, _, _) => ReparseCost(l, mutable, c);
    case MethodCall(recv, _, _) => ReparseCost(recv, mutable, c);
    case Field(base, _) => ReparseCost(base, mutable, c);
  }

  // ---------------------------------------------------------------------
  // try_parse_node and replace_expr

  /** `try_parse_node`: on success the node is replaced and `name` is
      marked as borrowed mutably or immutably, according to the text that
      was parsed; on failure the parse error is recorded. */
  function TryParse(e: Expr, mutable: bool, name: string, m: Modifier, c: Config): (o: Out<Expr>)
    ensures o.m.names == m.names && o.m.locals == m.locals && o.m.countExprPath == m.countExprPath
    ensures m.errors <= o.m.errors
    ensures Reparse(e, mutable, c.stateIdent).Some? ==> o.v == Reparse(e, mutable, c.stateIdent).value && o.m.errors == m.errors
    ensures Reparse(e, mutable, c.stateIdent).None? ==> o.v == e && o.m.errors == m.errors + [Marker(InExpr(name), ReparseFailed)]
    ensures m.namesRef <= o.m.namesRef <= m.namesRef + {name}
    ensures m.namesRefmut <= o.m.namesRefmut <= m.namesRefmut + {name}
    ensures mutable && o.m.errors == m.errors ==> name in o.m.namesRefmut && o.m.namesRef == m.namesRef
    ensures Reparse(e, mutable, c.stateIdent).Some? && Contains(AccessorText(c.stateIdent, mutable) + ExprText(e), "borrow_mut")
      ==> o.m.namesRefmut == m.namesRefmut + {name} && o.m.namesRef == m.namesRef
    ensures Reparse(e, mutable, c.stateIdent).Some? && !Contains(AccessorText(c.stateIdent, mutable) + ExprText(e), "borrow_mut")
      ==> !mutable && o.m.namesRef == m.namesRef + {name} && o.m.namesRefmut == m.namesRefmut
    ensures o.m.errors == m.errors ==> name in o.m.namesRef + o.m.namesRefmut
    ensures Valid(c) && StateLeaf(e, c.stateNames) ==> Cost(o.v, c.stateNames) <= Cost(e, c.stateNames)
    ensures Elems(Idents(e)) <= Elems(Idents(o.v)) <= Elems(Idents(e)) + AccessorNames(c.stateIdent)
    ensures LetNames(o.v) == LetNames(e)
    ensures e.MethodCall? ==> o.v.MethodCall?
  {
    var toParse := AccessorText(c.stateIdent, mutable) + ExprText(e);
    match Reparse(e, mutable, c.stateIdent)
    case Some(e1) =>
      ReparseIdents(e, mutable, c.stateIdent);
      ReparseLets(e, mutable, c.stateIdent);
      assert Valid(c) && StateLeaf(e, c.stateNames) ==> Cost(e1, c.stateNames) <= Cost(e, c.stateNames) by {
        if Valid(c) && StateLeaf(e, c.stateNames) { ReparseCost(e, mutable, c); }
      }
      assert mutable ==> Contains(toParse, "borrow_mut") by {
        if mutable { BorrowMutNamed(c.stateIdent, ExprText(e)); }
      }
      BorrowNamed(c.stateIdent, mutable, ExprText(e));
      var m1 :=
        if Contains(toParse, "borrow_mut") then m.(namesRefmut := m.namesRefmut + {name})
        else if Contains(toParse, "borrow") then m.(namesRef := m.namesRef + {name})
        else m;
      Out(e1, m1)
    case None =>
      Out(e, m.(errors := m.errors + [Marker(InExpr(name), ReparseFailed)]))
  }

  /** The mutable accessor text always contains `borrow_mut`. */
  lemma BorrowMutNamed(s: string, text: string)
    ensures Contains(AccessorText(s, true) + text, "borrow_mut")
  {
    var t := AccessorText(s, true) + text;
    assert t[|s| + 3..|s| + 13] == "borrow_mut";
    ContainsWindow(t, "borrow_mut", |s| + 3);
  }

  /** Either accessor text contains `borrow`. */
  lemma BorrowNamed(s: string, mutable: bool, text: string)
    ensures Contains(AccessorText(s, mutable) + text, "borrow")
  {
    var t := AccessorText(s, mutable) + text;
    assert t[|s| + 3..|s| + 9] == "borrow";
    ContainsWindow(t, "borrow", |s| + 3);
  }

  /** The state names among a list of identifiers. */
  function StatesIn(ids: seq<string>, states: set<string>): (r: set<string>)
    ensures |ids| == 1 && ids[0] in states ==> r == {ids[0]}
    ensures |ids| == 0 ==> r == {}
  {
    set x | x in ids && x in states
  }

  /** The first identifier in `ids` that is a state. */
  function FirstState(ids: seq<string>, states: set<string>): (r: Option<string>)
    ensures r.Some? <==> exists i :: 0 <= i < |ids| && ids[i] in states
    ensures r.Some? ==> r.value in states && r.value in ids
  {
    if |ids| == 0 then None
    else if ids[0] in states then Some(ids[0])
    else FirstState(ids[1..], states)
  }

  /** `replace_expr`: a node whose only identifier is a state is re-parsed
      behind the accessor; a node with several identifiers exactly one
      distinct of which is a state is reported and left alone; any other
      node is left alone silently. */
  function ReplaceExpr(e: Expr, mutable: bool, m: Modifier, c: Config): (o: Out<Expr>)
    ensures o.m.names == m.names && o.m.locals == m.locals && o.m.countExprPath == m.countExprPath
    ensures m.errors <= o.m.errors
    ensures m.namesRef <= o.m.namesRef <= m.namesRef + c.stateNames
    ensures m.namesRefmut <= o.m.namesRefmut <= m.namesRefmut + c.stateNames
    ensures o.v == e || (Reparse(e, mutable, c.stateIdent) == Some(o.v) && StateLeaf(e, c.stateNames))
    ensures Valid(c) ==> Cost(o.v, c.stateNames) <= Cost(e, c.stateNames)
    ensures Elems(Idents(e)) <= Elems(Idents(o.v)) <= Elems(Idents(e)) + AccessorNames(c.stateIdent)
    ensures LetNames(o.v) == LetNames(e)
    ensures |StatesIn(Idents(e), c.stateNames)| == 1 && |Idents(e)| > 1
        ==> o.v == e && o.m.errors == m.errors + [Marker(InExpr(FirstState(Idents(e), c.stateNames).value), MultipleIdents)]
    ensures |StatesIn(Idents(e), c.stateNames)| != 1 ==> o == Out(e, m)
    ensures |Idents(e)| == 1 && Idents(e)[0] in c.stateNames ==> o == TryParse(e, mutable, Idents(e)[0], m, c)
  {
    var ids := Idents(e);
    var names := StatesIn(ids, c.stateNames);
    if |names| == 1 && |ids| == 1 then
      assert ids[0] in names;
      LeftLeafIdentsFirst(e);
      assert StateLeaf(e, c.stateNames) by {
        var leaf := LeftLeaf(e);
        if leaf.Path? {
          assert Idents(leaf) == leaf.segments;
          assert leaf.segments[0] == ids[0];
        }
      }
      TryParse(e, mutable, ids[0], m, c)
    else if |names| == 1 then
      var name := FirstState(ids, c.stateNames);
      assert name.Some? by {
        var x :| x in names;
        var i :| 0 <= i < |ids| && ids[i] == x;
      }
      Out(e, m.(errors := m.errors + [Marker(InExpr(name.value), MultipleIdents)]))
    else
      Out(e, m)
  }

  // ---------------------------------------------------------------------
  // The visit (`VisitMut` with the overrides above)

  /** What one visit does to the modifier, given the identifiers of the
      node before (`before`) and after (`after`) the rewrite and the names
      the node binds with `let` (`lets`): errors are only appended, every
      identifier of the rewritten node is recorded and nothing else, the
      rewrite only brings in the accessor's identifiers, the `let` names are
      recorded, and only state names are marked as borrowed. */
  predicate Grows(m: Modifier, m1: Modifier, c: Config, before: seq<string>, after: seq<string>, lets: seq<string>)
  {
    && m.errors <= m1.errors
    && m1.names == m.names + Elems(after)
    && Elems(before) <= Elems(after) <= Elems(before) + AccessorNames(c.stateIdent)
    && m1.locals == m.locals + Elems(lets)
    && m.namesRef <= m1.namesRef <= m.namesRef + c.stateNames
    && m.namesRefmut <= m1.namesRefmut <= m.namesRefmut + c.stateNames
  }

  /** Two visits in a row. */
  lemma GrowsTrans(m: Modifier, m1: Modifier, m2: Modifier, c: Config,
                   b1: seq<string>, a1: seq<string>, l1: seq<string>,
                   b2: seq<string>, a2: seq<string>, l2: seq<string>)
    requires Grows(m, m1, c, b1, a1, l1) && Grows(m1, m2, c, b2, a2, l2)
    ensures Grows(m, m2, c, b1 + b2, a1 + a2, l1 + l2)
  {
    ElemsAppend(b1, b2);
    ElemsAppend(a1, a2);
    ElemsAppend(l1, l2);
  }

  /** `visit_expr_mut`: a path starting with a state is re-parsed behind
      the immutable accessor, then the (new) node gets the default visit. */
  function VisitExpr(e: Expr, m: Modifier, c: Config): (o: Out<Expr>)
    requires Valid(c)
    ensures Grows(m, o.m, c, Idents(e), Idents(o.v), LetNames(e))
    decreases Cost(e, c.stateNames), 3
  {
    if e.Path? && e.segments[0] in c.stateNames then
      var o := TryParse(e, false, e.segments[0], m, c);
      DefaultExpr(o.v, o.m, c)
    else
      DefaultExpr(e, m, c)
  }

  /** The default traversal of `VisitMut`, with the overrides for binary
      expressions, assignments, method calls, paths, macros, `let`s and
      identifiers. */
  function DefaultExpr(e: Expr, m: Modifier, c: Config): (o: Out<Expr>)
    requires Valid(c)
    ensures Grows(m, o.m, c, Idents(e), Idents(o.v), LetNames(e))
    decreases Cost(e, c.stateNames), 2
  {
    match e
    case Path(segs) =>
      Out(e, m.(countExprPath := m.countExprPath + 1, names := m.names + Elems(segs)))
    case Lit(_) => Out(e, m)
    case Unary(op, x) =>
      var ox := VisitExpr(x, m, c);
      Out(Unary(op, ox.v), ox.m)
    case Binary(l, op, r) => VisitBinary(l, op, r, m, c)
    case Assign(l, r) => VisitAssign(l, None, r, m, c)
    case AssignOp(l, op, r) => VisitAssign(l, Some(op), r, m, c)
    case MethodCall(_, _, _) => VisitMethodCall(e, m, c)
    case Field(base, mem) =>
      var vb := VisitExpr(base, m, c);
      ElemsAppend(Idents(vb.v), MemberIdents(mem));
      ElemsAppend(Idents(base), MemberIdents(mem));
      Out(Field(vb.v, mem), vb.m.(names := vb.m.names + Elems(MemberIdents(mem))))
    case Macro(path, _) =>
      var m1 := m.(errors := m.errors + [Marker(InExpr(path[0]), MacroNotImplemented)]);
      Out(e, m1.(names := m1.names + Elems(path)))
    case Block(stmts) =>
      var vs := VisitStmts(stmts, m, c);
      Out(Block(vs.v), vs.m)
    case Closure(cl) =>
      var vc := VisitClosure(cl, m, c);
      Out(Closure(vc.v), vc.m)
  }

  /** `visit_expr_binary_mut`: both operands are offered to `replace_expr`
      with the immutable accessor (the left one only when the right one is
      not itself binary), then both are visited. */
  function VisitBinary(l: Expr, op: string, r: Expr, m: Modifier, c: Config): (o: Out<Expr>)
    requires Valid(c)
    ensures Grows(m, o.m, c, Idents(Binary(l, op, r)), Idents(o.v), LetNames(Binary(l, op, r)))
    ensures o.v.Binary? && o.v.op == op
    decreases Cost(Binary(l, op, r), c.stateNames), 0
  {
    var ol := if r.Binary? then Out(l, m) else ReplaceExpr(l, false, m, c);
    var or := ReplaceExpr(r, false, ol.m, c);
    var vl := VisitExpr(ol.v, or.m, c);
    var vr := VisitExpr(or.v, vl.m, c);
    ElemsAppend(Idents(ol.v), Idents(or.v));
    ElemsAppend(Idents(l), Idents(r));
    GrowsTrans(or.m, vl.m, vr.m, c, Idents(ol.v), Idents(vl.v), LetNames(l), Idents(or.v), Idents(vr.v), LetNames(r));
    Out(Binary(vl.v, op, vr.v), vr.m)
  }

  /** `visit_expr_assign_mut` (`op` absent) and `visit_expr_assign_op_mut`:
      the target is offered to `replace_expr` with the mutable accessor, the
      value (unless binary) with the immutable one, then both are visited. */
  function VisitAssign(l: Expr, op: Option<string>, r: Expr, m: Modifier, c: Config): (o: Out<Expr>)
    requires Valid(c)
    ensures Grows(m, o.m, c, Idents(l) + Idents(r), Idents(o.v), LetNames(l) + LetNames(r))
    ensures op.None? ==> o.v.Assign?
    ensures op.Some? ==> o.v.AssignOp? && o.v.op == op.value
    decreases Cost(Assign(l, r), c.stateNames), 0
  {
    var ol := ReplaceExpr(l, true, m, c);
    var or := if r.Binary? then Out(r, ol.m) else ReplaceExpr(r, false, ol.m, c);
    var vl := VisitExpr(ol.v, or.m, c);
    var vr := VisitExpr(or.v, vl.m, c);
    ElemsAppend(Idents(ol.v), Idents(or.v));
    ElemsAppend(Idents(l), Idents(r));
    GrowsTrans(or.m, vl.m, vr.m, c, Idents(ol.v), Idents(vl.v), LetNames(l), Idents(or.v), Idents(vr.v), LetNames(r));
    Out(if op.Some? then AssignOp(vl.v, op.value, vr.v) else Assign(vl.v, vr.v), vr.m)
  }

  /** `visit_expr_method_call_mut`: a call on a state is re-parsed behind
      the mutable accessor, then the (new) call gets the default visit. */
  function VisitMethodCall(e: Expr, m: Modifier, c: Config): (o: Out<Expr>)
    requires Valid(c) && e.MethodCall?
    ensures Grows(m, o.m, c, Idents(e), Idents(o.v), LetNames(e))
    ensures o.v.MethodCall? && o.v.name == e.name
    decreases Cost(e, c.stateNames), 1
  {
    var oc := if e.receiver.Path? && e.receiver.segments[0] in c.stateNames
      then TryParse(e, true, e.receiver.segments[0], m, c)
      else Out(e, m);
    var o := DefaultCall(oc.v, oc.m, c);
    ElemsAppend(Idents(e), Idents(oc.v));
    o
  }

  /** The call `<s>.borrow()` (or `borrow_mut`) at the head of an accessor. */
  function StateCall(s: string, mutable: bool): Expr
  {
    MethodCall(Path([s]), BorrowName(mutable), [])
  }

  /** As written, with a state identifier that is also a state name
      (`Valid` false): a read of a state `x` becomes `s.borrow().x`, whose
      base is a call on the state path `s`; the method-call override
      re-parses every such call into one whose receiver is
      `s.borrow_mut().s`, and the default visit of that receiver reaches the
      call `s.borrow_mut()` again, unchanged. Nothing decreases along this
      cycle, so the source's visit never ends. */
  lemma {:induction false} UnguardedVisitLoops(c: Config, x: string, mutable: bool)
    requires c.stateIdent in c.stateNames && x in c.stateNames
    ensures var read := Reparse(Path([x]), false, c.stateIdent);
            read.Some? && read.value == Field(StateCall(c.stateIdent, false), Named(x))
    ensures var call := StateCall(c.stateIdent, mutable);
            && call.receiver.Path? && call.receiver.segments[0] in c.stateNames
            && Reparse(call, true, c.stateIdent)
               == Some(MethodCall(Field(StateCall(c.stateIdent, true), Named(c.stateIdent)), BorrowName(mutable), []))
  {
  }

  /** The default visit of a method call: receiver, method name, arguments. */
  function DefaultCall(e: Expr, m: Modifier, c: Config): (o: Out<Expr>)
    requires Valid(c) && e.MethodCall?
    ensures Grows(m, o.m, c, Idents(e), Idents(o.v), LetNames(e))
    ensures o.v.MethodCall? && o.v.name == e.name
    decreases Cost(e, c.stateNames), 0
  {
    var vr := VisitExpr(e.receiver, m, c);
    var va := VisitExprs(e.args, vr.m.(names := vr.m.names + {e.name}), c);
    ElemsAppend(Idents(vr.v) + [e.name], ExprsIdents(va.v));
    ElemsAppend(Idents(vr.v), [e.name]);
    ElemsAppend(Idents(e.receiver) + [e.name], ExprsIdents(e.args));
    ElemsAppend(Idents(e.receiver), [e.name]);
    ElemsAppend(LetNames(e.receiver), ExprsLetNames(e.args));
    Out(MethodCall(vr.v, e.name, va.v), va.m)
  }

  function VisitExprs(es: seq<Expr>, m: Modifier, c: Config): (o: Out<seq<Expr>>)
    requires Valid(c)
    ensures Grows(m, o.m, c, ExprsIdents(es), ExprsIdents(o.v), ExprsLetNames(es))
    ensures |o.v| == |es|
    decreases ExprsCost(es, c.stateNames), 4
  {
    if |es| == 0 then Out([], m)
    else
      var v0 := VisitExpr(es[0], m, c);
      var vs := VisitExprs(es[1..], v0.m, c);
      assert ([v0.v] + vs.v)[0] == v0.v && ([v0.v] + vs.v)[1..] == vs.v;
      GrowsTrans(m, v0.m, vs.m, c, Idents(es[0]), Idents(v0.v), LetNames(es[0]), ExprsIdents(es[1..]), ExprsIdents(vs.v), ExprsLetNames(es[1..]));
      Out([v0.v] + vs.v, vs.m)
  }

  /** `visit_local_mut` (a `let x` records `x` as a local) and the default
      statement visit. */
  function VisitStmt(st: Stmt, m: Modifier, c: Config): (o: Out<Stmt>)
    requires Valid(c)
    ensures Grows(m, o.m, c, StmtIdents(st), StmtIdents(o.v), StmtLetNames(st))
    decreases StmtCost(st, c.stateNames), 4
  {
    match st
    case Local(pat, init, sp) =>
      var m1 := if pat.PIdent? then m.(locals := m.locals + {pat.name}) else m;
      var m2 := m1.(names := m1.names + Elems(PatIdents(pat)));
      if init.Some? then
        var vi := VisitExpr(init.value, m2, c);
        ElemsAppend(PatIdents(pat), Idents(vi.v));
        ElemsAppend(PatIdents(pat), Idents(init.value));
        ElemsAppend(if pat.PIdent? then [pat.name] else [], LetNames(init.value));
        Out(Local(pat, Some(vi.v), sp), vi.m)
      else
        assert StmtLetNames(st) == if pat.PIdent? then [pat.name] else [];
        Out(st, m2)
    case ExprStmt(e) =>
      var ve := VisitExpr(e, m, c);
      Out(ExprStmt(ve.v), ve.m)
    case Semi(e) =>
      var ve := VisitExpr(e, m, c);
      Out(Semi(ve.v), ve.m)
  }

  function VisitStmts(ss: seq<Stmt>, m: Modifier, c: Config): (o: Out<seq<Stmt>>)
    requires Valid(c)
    ensures Grows(m, o.m, c, StmtsIdents(ss), StmtsIdents(o.v), StmtsLetNames(ss))
    ensures |o.v| == |ss|
    decreases StmtsCost(ss, c.stateNames), 5
  {
    if |ss| == 0 then Out([], m)
    else
      var v0 := VisitStmt(ss[0], m, c);
      var vs := VisitStmts(ss[1..], v0.m, c);
      assert ([v0.v] + vs.v)[0] == v0.v && ([v0.v] + vs.v)[1..] == vs.v;
      GrowsTrans(m, v0.m, vs.m, c, StmtIdents(ss[0]), StmtIdents(v0.v), StmtLetNames(ss[0]), StmtsIdents(ss[1..]), StmtsIdents(vs.v), StmtsLetNames(ss[1..]));
      Out([v0.v] + vs.v, vs.m)
  }

  /** `visit_expr_closure_mut`: the parameters' identifiers, then the body. */
  function VisitClosure(cl: ClosureExpr, m: Modifier, c: Config): (o: Out<ClosureExpr>)
    requires Valid(c)
    ensures Grows(m, o.m, c, ClosureIdents(cl), ClosureIdents(o.v), LetNames(cl.body))
    ensures o.v.params == cl.params
    decreases Cost(cl.body, c.stateNames), 4
  {
    var vb := VisitExpr(cl.body, m.(names := m.names + Elems(PatsIdents(cl.params))), c);
    ElemsAppend(PatsIdents(cl.params), Idents(vb.v));
    ElemsAppend(PatsIdents(cl.params), Idents(cl.body));
    Out(ClosureExpr(cl.params, vb.v), vb.m)
  }

  // ---------------------------------------------------------------------
  // What the rewrite does to the expression

  /** The visit turned `e` into `o.v`: erasing the accessors of either gives
      the same expression; when no error was recorded no use of a state is
      left; a path is only ever replaced, never produced; and an accessor
      base is left as it is. */
  predicate Sound(e: Expr, v: Expr, m: Modifier, m1: Modifier, c: Config)
  {
    && Erase(v, c.stateIdent) == Erase(e, c.stateIdent)
    && (|m1.errors| == |m.errors| ==> Clean(v, c.stateNames))
    && (v.Path? ==> v == e)
    && (IsAccessorBase(v, c.stateIdent) <==> IsAccessorBase(e, c.stateIdent))
  }

  lemma {:induction false} VisitExprSound(e: Expr, m: Modifier, c: Config)
    requires Valid(c)
    ensures Sound(e, VisitExpr(e, m, c).v, m, VisitExpr(e, m, c).m, c)
    decreases Cost(e, c.stateNames), 3
  {
    if e.Path? && e.segments[0] in c.stateNames {
      var o := TryParse(e, false, e.segments[0], m, c);
      if Reparse(e, false, c.stateIdent).Some? {
        ReparseErase(e, false, c.stateIdent);
        DefaultExprSound(o.v, o.m, c);
      }
    } else {
      DefaultExprSound(e, m, c);
    }
  }

  lemma {:induction false} DefaultExprSound(e: Expr, m: Modifier, c: Config)
    requires Valid(c)
    requires e.Path? ==> e.segments[0] !in c.stateNames
    ensures Sound(e, DefaultExpr(e, m, c).v, m, DefaultExpr(e, m, c).m, c)
    decreases Cost(e, c.stateNames), 2
  {
    hide Sound, VisitBinary, VisitAssign, VisitMethodCall, VisitStmts, VisitClosure, ReplaceExpr, TryParse;
    match e
    case Path(_) => DefaultLeafSound(e, m, c);
    case Lit(_) => DefaultLeafSound(e, m, c);
    case Unary(op, x) => DefaultUnarySound(op, x, m, c);
    case Binary(l, op, r) => VisitBinarySound(l, op, r, m, c);
    case Assign(l, r) => VisitAssignSound(l, None, r, m, c);
    case AssignOp(l, op, r) => VisitAssignSound(l, Some(op), r, m, c);
    case MethodCall(_, _, _) => VisitMethodCallSound(e, m, c);
    case Field(base, mem) => DefaultFieldSound(base, mem, m, c);
    case Macro(_, _) => DefaultLeafSound(e, m, c);
    case Block(stmts) => DefaultBlockSound(stmts, m, c);
    case Closure(cl) => DefaultClosureSound(cl, m, c);
  }

  /** A path, a literal and a macro are left as they are. */
  lemma {:induction false} DefaultLeafSound(e: Expr, m: Modifier, c: Config)
    requires Valid(c) && (e.Path? || e.Lit? || e.Macro?)
    requires e.Path? ==> e.segments[0] !in c.stateNames
    ensures Sound(e, DefaultExpr(e, m, c).v, m, DefaultExpr(e, m, c).m, c)
  {
    hide VisitExpr, VisitBinary, VisitAssign, VisitMethodCall, VisitStmts, VisitClosure, ReplaceExpr, TryParse;
  }

  lemma {:induction false} DefaultUnarySound(op: string, x: Expr, m: Modifier, c: Config)
    requires Valid(c)
    ensures var o := DefaultExpr(Unary(op, x), m, c); Sound(Unary(op, x), o.v, m, o.m, c)
    decreases Cost(Unary(op, x), c.stateNames), 1
  {
    hide VisitBinary, VisitAssign, VisitMethodCall, VisitStmts, VisitClosure, ReplaceExpr, TryParse;
    VisitExprSound(x, m, c);
  }

  lemma {:induction false} DefaultFieldSound(base: Expr, mem: Member, m: Modifier, c: Config)
    requires Valid(c)
    ensures var o := DefaultExpr(Field(base, mem), m, c); Sound(Field(base, mem), o.v, m, o.m, c)
    decreases Cost(Field(base, mem), c.stateNames), 1
  {
    hide VisitBinary, VisitAssign, VisitMethodCall, VisitStmts, VisitClosure, ReplaceExpr, TryParse;
    VisitExprSound(base, m, c);
  }

  lemma {:induction false} DefaultBlockSound(stmts: seq<Stmt>, m: Modifier, c: Config)
    requires Valid(c)
    ensures var o := DefaultExpr(Block(stmts), m, c); Sound(Block(stmts), o.v, m, o.m, c)
    decreases Cost(Block(stmts), c.stateNames), 1
  {
    hide VisitExpr, VisitBinary, VisitAssign, VisitMethodCall, VisitClosure, ReplaceExpr, TryParse;
    VisitStmtsSound(stmts, m, c);
  }

  lemma {:induction false} DefaultClosureSound(cl: ClosureExpr, m: Modifier, c: Config)
    requires Valid(c)
    ensures var o := DefaultExpr(Closure(cl), m, c); Sound(Closure(cl), o.v, m, o.m, c)
    decreases Cost(Closure(cl), c.stateNames), 1
  {
    hide VisitExpr, VisitBinary, VisitAssign, VisitMethodCall, VisitStmts, ReplaceExpr, TryParse;
    VisitClosureSound(cl, m, c);
  }

  /** An operand offered to `replace_expr` erases to itself. */
  lemma ReplaceExprErase(e: Expr, mutable: bool, m: Modifier, c: Config)
    requires Valid(c)
    ensures Erase(ReplaceExpr(e, mutable, m, c).v, c.stateIdent) == Erase(e, c.stateIdent)
  {
    var o := ReplaceExpr(e, mutable, m, c);
    if o.v != e {
      ReparseErase(e, mutable, c.stateIdent);
    }
  }

  lemma {:induction false} VisitBinarySound(l: Expr, op: string, r: Expr, m: Modifier, c: Config)
    requires Valid(c)
    ensures Sound(Binary(l, op, r), VisitBinary(l, op, r, m, c).v, m, VisitBinary(l, op, r, m, c).m, c)
    decreases Cost(Binary(l, op, r), c.stateNames), 0
  {
    hide VisitExpr, ReplaceExpr, Erase, Clean, VisitBinary, VisitAssign, VisitMethodCall, VisitStmts, VisitClosure, TryParse, Cost;
    var ol := if r.Binary? then Out(l, m) else ReplaceExpr(l, false, m, c);
    var or := ReplaceExpr(r, false, ol.m, c);
    var vl := VisitExpr(ol.v, or.m, c);
    var vr := VisitExpr(or.v, vl.m, c);
    BinaryOperandCosts(l, op, r, m, c);
    if !r.Binary? { ReplaceExprErase(l, false, m, c); }
    ReplaceExprErase(r, false, ol.m, c);
    VisitExprSound(ol.v, or.m, c);
    VisitExprSound(or.v, vl.m, c);
    BinaryStep(l, op, r, m, c);
    BinaryErase(vl.v, op, vr.v, c);
    BinaryErase(l, op, r, c);
  }

  /** Both operands handed on by `VisitBinary` cost less than the operation. */
  lemma BinaryOperandCosts(l: Expr, op: string, r: Expr, m: Modifier, c: Config)
    requires Valid(c)
    ensures var ol := if r.Binary? then Out(l, m) else ReplaceExpr(l, false, m, c);
            var or := ReplaceExpr(r, false, ol.m, c);
            Cost(ol.v, c.stateNames) < Cost(Binary(l, op, r), c.stateNames)
            && Cost(or.v, c.stateNames) < Cost(Binary(l, op, r), c.stateNames)
  {
    hide VisitExpr, ReplaceExpr;
  }

  /** One unfolding of `VisitBinary`. */
  lemma BinaryStep(l: Expr, op: string, r: Expr, m: Modifier, c: Config)
    requires Valid(c)
    ensures var ol := if r.Binary? then Out(l, m) else ReplaceExpr(l, false, m, c);
            var or := ReplaceExpr(r, false, ol.m, c);
            var vl := VisitExpr(ol.v, or.m, c);
            var vr := VisitExpr(or.v, vl.m, c);
            VisitBinary(l, op, r, m, c) == Out(Binary(vl.v, op, vr.v), vr.m)
  {
    hide VisitExpr, ReplaceExpr;
  }

  lemma BinaryErase(l: Expr, op: string, r: Expr, c: Config)
    ensures Erase(Binary(l, op, r), c.stateIdent) == Binary(Erase(l, c.stateIdent), op, Erase(r, c.stateIdent))
    ensures Clean(Binary(l, op, r), c.stateNames) == (Clean(l, c.stateNames) && Clean(r, c.stateNames))
  {
  }

  lemma {:induction false} VisitAssignSound(l: Expr, op: Option<string>, r: Expr, m: Modifier, c: Config)
    requires Valid(c)
    ensures var o := VisitAssign(l, op, r, m, c);
            Sound(if op.Some? then AssignOp(l, op.value, r) else Assign(l, r), o.v, m, o.m, c)
    decreases Cost(Assign(l, r), c.stateNames), 0
  {
    hide VisitExpr, ReplaceExpr, Erase, Clean, VisitAssign, Cost;
    var ol := ReplaceExpr(l, true, m, c);
    var or := if r.Binary? then Out(r, ol.m) else ReplaceExpr(r, false, ol.m, c);
    var vl := VisitExpr(ol.v, or.m, c);
    var vr := VisitExpr(or.v, vl.m, c);
    AssignOperandCosts(l, r, m, c);
    ReplaceExprErase(l, true, m, c);
    if !r.Binary? { ReplaceExprErase(r, false, ol.m, c); }
    VisitExprSound(ol.v, or.m, c);
    VisitExprSound(or.v, vl.m, c);
    AssignStep(l, op, r, m, c);
    if op.Some? {
      AssignOpErase(vl.v, op.value, vr.v, c);
      AssignOpErase(l, op.value, r, c);
    } else {
      AssignErase(vl.v, vr.v, c);
      AssignErase(l, r, c);
    }
  }

  /** Both operands handed on by `VisitAssign` cost less than the assignment. */
  lemma AssignOperandCosts(l: Expr, r: Expr, m: Modifier, c: Config)
    requires Valid(c)
    ensures var ol := ReplaceExpr(l, true, m, c);
            var or := if r.Binary? then Out(r, ol.m) else ReplaceExpr(r, false, ol.m, c);
            Cost(ol.v, c.stateNames) < Cost(Assign(l, r), c.stateNames)
            && Cost(or.v, c.stateNames) < Cost(Assign(l, r), c.stateNames)
  {
    hide VisitExpr, ReplaceExpr;
  }

  /** One unfolding of `VisitAssign`. */
  lemma AssignStep(l: Expr, op: Option<string>, r: Expr, m: Modifier, c: Config)
    requires Valid(c)
    ensures var ol := ReplaceExpr(l, true, m, c);
            var or := if r.Binary? then Out(r, ol.m) else ReplaceExpr(r, false, ol.m, c);
            var vl := VisitExpr(ol.v, or.m, c);
            var vr := VisitExpr(or.v, vl.m, c);
            VisitAssign(l, op, r, m, c) == Out(if op.Some? then AssignOp(vl.v, op.value, vr.v) else Assign(vl.v, vr.v), vr.m)
  {
    hide VisitExpr, ReplaceExpr;
  }

  lemma AssignOpErase(l: Expr, op: string, r: Expr, c: Config)
    ensures Erase(AssignOp(l, op, r), c.stateIdent) == AssignOp(Erase(l, c.stateIdent), op, Erase(r, c.stateIdent))
    ensures Clean(AssignOp(l, op, r), c.stateNames) == (Clean(l, c.stateNames) && Clean(r, c.stateNames))
  {
  }

  lemma AssignErase(l: Expr, r: Expr, c: Config)
    ensures Erase(Assign(l, r), c.stateIdent) == Assign(Erase(l, c.stateIdent), Erase(r, c.stateIdent))
    ensures Clean(Assign(l, r), c.stateNames) == (Clean(l, c.stateNames) && Clean(r, c.stateNames))
  {
  }

  lemma {:induction false} VisitMethodCallSound(e: Expr, m: Modifier, c: Config)
    requires Valid(c) && e.MethodCall?
    ensures Sound(e, VisitMethodCall(e, m, c).v, m, VisitMethodCall(e, m, c).m, c)
    decreases Cost(e, c.stateNames), 1
  {
    if e.receiver.Path? && e.receiver.segments[0] in c.stateNames {
      var oc := TryParse(e, true, e.receiver.segments[0], m, c);
      if Reparse(e, true, c.stateIdent).Some? {
        ReparseErase(e, true, c.stateIdent);
      }
      DefaultCallSound(oc.v, oc.m, c);
    } else {
      DefaultCallSound(e, m, c);
    }
  }

  lemma {:induction false} DefaultCallSound(e: Expr, m: Modifier, c: Config)
    requires Valid(c) && e.MethodCall?
    ensures Sound(e, DefaultCall(e, m, c).v, m, DefaultCall(e, m, c).m, c)
    decreases Cost(e, c.stateNames), 0
  {
    hide VisitExpr, VisitExprs;
    if e.receiver == Path([c.stateIdent]) {
      VisitStateIdent(m, c);
    }
    var vr := VisitExpr(e.receiver, m, c);
    var va := VisitExprs(e.args, vr.m.(names := vr.m.names + {e.name}), c);
    VisitExprSound(e.receiver, m, c);
    VisitExprsSound(e.args, vr.m.(names := vr.m.names + {e.name}), c);
    var v := DefaultCall(e, m, c).v;
    assert v == MethodCall(vr.v, e.name, va.v);
    if e.receiver == Path([c.stateIdent]) {
      assert vr.v == e.receiver;
    }
    if IsAccessorBase(e, c.stateIdent) {
      assert va.v == [];
    }
    if IsAccessorBase(v, c.stateIdent) {
      assert vr.v == e.receiver;
      assert e.args == [];
    }
  }

  /** The accessor's own identifier is visited as a plain path. */
  lemma VisitStateIdent(m: Modifier, c: Config)
    requires Valid(c)
    ensures VisitExpr(Path([c.stateIdent]), m, c).v == Path([c.stateIdent])
  {
  }

  lemma {:induction false} VisitExprsSound(es: seq<Expr>, m: Modifier, c: Config)
    requires Valid(c)
    ensures var o := VisitExprs(es, m, c);
            EraseExprs(o.v, c.stateIdent) == EraseExprs(es, c.stateIdent)
            && (|o.m.errors| == |m.errors| ==> ExprsClean(o.v, c.stateNames))
            && (|es| == 0 <==> |o.v| == 0)
    decreases ExprsCost(es, c.stateNames), 4
  {
    if |es| > 0 {
      var v0 := VisitExpr(es[0], m, c);
      var vs := VisitExprs(es[1..], v0.m, c);
      VisitExprSound(es[0], m, c);
      VisitExprsSound(es[1..], v0.m, c);
      assert ([v0.v] + vs.v)[0] == v0.v && ([v0.v] + vs.v)[1..] == vs.v;
    }
  }

  lemma {:induction false} VisitStmtSound(st: Stmt, m: Modifier, c: Config)
    requires Valid(c)
    ensures var o := VisitStmt(st, m, c);
            EraseStmt(o.v, c.stateIdent) == EraseStmt(st, c.stateIdent)
            && (|o.m.errors| == |m.errors| ==> StmtClean(o.v, c.stateNames))
    decreases StmtCost(st, c.stateNames), 4
  {
    match st
    case Local(pat, init, sp) =>
      var m1 := if pat.PIdent? then m.(locals := m.locals + {pat.name}) else m;
      var m2 := m1.(names := m1.names + Elems(PatIdents(pat)));
      if init.Some? { VisitExprSound(init.value, m2, c); }
    case ExprStmt(e) => VisitExprSound(e, m, c);
    case Semi(e) => VisitExprSound(e, m, c);
  }

  lemma {:induction false} VisitStmtsSound(ss: seq<Stmt>, m: Modifier, c: Config)
    requires Valid(c)
    ensures var o := VisitStmts(ss, m, c);
            EraseStmts(o.v, c.stateIdent) == EraseStmts(ss, c.stateIdent)
            && (|o.m.errors| == |m.errors| ==> StmtsClean(o.v, c.stateNames))
    decreases StmtsCost(ss, c.stateNames), 5
  {
    if |ss| > 0 {
      var v0 := VisitStmt(ss[0], m, c);
      var vs := VisitStmts(ss[1..], v0.m, c);
      VisitStmtSound(ss[0], m, c);
      VisitStmtsSound(ss[1..], v0.m, c);
      assert ([v0.v] + vs.v)[0] == v0.v && ([v0.v] + vs.v)[1..] == vs.v;
    }
  }

  lemma {:induction false} VisitClosureSound(cl: ClosureExpr, m: Modifier, c: Config)
    requires Valid(c)
    ensures var o := VisitClosure(cl, m, c);
            Erase(o.v.body, c.stateIdent) == Erase(cl.body, c.stateIdent)
            && (|o.m.errors| == |m.errors| ==> Clean(o.v.body, c.stateNames))
    decreases Cost(cl.body, c.stateNames), 4
  {
    VisitExprSound(cl.body, m.(names := m.names + Elems(PatsIdents(cl.params))), c);
  }

  // ---------------------------------------------------------------------
  // moved_names, raise_errors and the individual rewrites

  /** `moved_names`: the identifiers met that are not `let`-bound. */
  function MovedNames(m: Modifier): (r: set<string>)
    ensures forall x :: x in r <==> x in m.names && x !in m.locals
  {
    m.names - m.locals
  }

  /** After visiting `e` with a fresh modifier, the moved names are the
      identifiers of the rewritten expression other than those `e` binds
      with `let`. */
  lemma MovedNamesOfVisit(e: Expr, c: Config)
    requires Valid(c)
    ensures var o := VisitExpr(e, New(), c);
            MovedNames(o.m) == Elems(Idents(o.v)) - Elems(LetNames(e))
  {
  }

  /** `raise_errors`: all recorded errors combined into one, in order. */
  function RaiseErrors(m: Modifier): (r: Result<()>)
    ensures r.Ok? <==> |m.errors| == 0
    ensures r.Err? ==> r.failure == Diagnostic(m.errors)
  {
    if |m.errors| > 0 then Err(Diagnostic(m.errors)) else Ok(())
  }

  // One-step unfoldings, each proved in a small context.

  lemma VisitUnfoldPlain(e: Expr, m: Modifier, c: Config)
    requires Valid(c) && !(e.Path? && e.segments[0] in c.stateNames)
    ensures VisitExpr(e, m, c) == DefaultExpr(e, m, c)
  {
    hide DefaultExpr;
  }

  lemma VisitUnfoldState(e: Expr, m: Modifier, c: Config)
    requires Valid(c) && e.Path? && e.segments[0] in c.stateNames
    ensures var o := TryParse(e, false, e.segments[0], m, c);
            VisitExpr(e, m, c) == DefaultExpr(o.v, o.m, c)
  {
    hide DefaultExpr, TryParse;
  }

  lemma DefaultUnfoldPath(e: Expr, m: Modifier, c: Config)
    requires Valid(c) && e.Path?
    ensures DefaultExpr(e, m, c) == Out(e, m.(countExprPath := m.countExprPath + 1, names := m.names + Elems(e.segments)))
  {
    hide VisitExpr, VisitBinary, VisitAssign, VisitMethodCall, VisitStmts, VisitClosure;
  }

  lemma DefaultUnfoldLit(e: Expr, m: Modifier, c: Config)
    requires Valid(c) && e.Lit?
    ensures DefaultExpr(e, m, c) == Out(e, m)
  {
    hide VisitExpr, VisitBinary, VisitAssign, VisitMethodCall, VisitStmts, VisitClosure;
  }

  lemma DefaultUnfoldField(base: Expr, mem: Member, m: Modifier, c: Config)
    requires Valid(c)
    ensures var vb := VisitExpr(base, m, c);
            DefaultExpr(Field(base, mem), m, c) == Out(Field(vb.v, mem), vb.m.(names := vb.m.names + Elems(MemberIdents(mem))))
  {
    hide VisitExpr, VisitBinary, VisitAssign, VisitMethodCall, VisitStmts, VisitClosure;
  }

  lemma DefaultUnfoldCall(e: Expr, m: Modifier, c: Config)
    requires Valid(c) && e.MethodCall?
    ensures DefaultExpr(e, m, c) == VisitMethodCall(e, m, c)
  {
    hide VisitExpr, VisitBinary, VisitAssign, VisitMethodCall, VisitStmts, VisitClosure;
  }

  lemma DefaultUnfoldBinary(l: Expr, op: string, r: Expr, m: Modifier, c: Config)
    requires Valid(c)
    ensures DefaultExpr(Binary(l, op, r), m, c) == VisitBinary(l, op, r, m, c)
  {
    hide VisitExpr, VisitBinary, VisitAssign, VisitMethodCall, VisitStmts, VisitClosure;
  }

  lemma DefaultUnfoldAssign(l: Expr, r: Expr, m: Modifier, c: Config)
    requires Valid(c)
    ensures DefaultExpr(Assign(l, r), m, c) == VisitAssign(l, None, r, m, c)
  {
    hide VisitExpr, VisitBinary, VisitAssign, VisitMethodCall, VisitStmts, VisitClosure;
  }

  lemma MethodCallUnfoldPlain(e: Expr, m: Modifier, c: Config)
    requires Valid(c) && e.MethodCall? && !(e.receiver.Path? && e.receiver.segments[0] in c.stateNames)
    ensures VisitMethodCall(e, m, c) == DefaultCall(e, m, c)
  {
    hide DefaultCall, TryParse;
  }

  lemma MethodCallUnfoldState(e: Expr, m: Modifier, c: Config)
    requires Valid(c) && e.MethodCall? && e.receiver.Path? && e.receiver.segments[0] in c.stateNames
    ensures var oc := TryParse(e, true, e.receiver.segments[0], m, c);
            VisitMethodCall(e, m, c) == DefaultCall(oc.v, oc.m, c)
  {
    hide DefaultCall, TryParse;
  }

  lemma DefaultCallUnfoldNoArgs(recv: Expr, n: string, m: Modifier, c: Config)
    requires Valid(c)
    ensures var vr := VisitExpr(recv, m, c);
            DefaultCall(MethodCall(recv, n, []), m, c) == Out(MethodCall(vr.v, n, []), vr.m.(names := vr.m.names + {n}))
  {
    hide VisitExpr;
  }

  /** `<state>.borrow()` (or `borrow_mut`) is visited without change. */
  lemma VisitAccessorBase(mutable: bool, m: Modifier, c: Config)
    requires Valid(c)
    ensures var call := MethodCall(Path([c.stateIdent]), BorrowName(mutable), []);
            var o := VisitExpr(call, m, c);
            o.v == call && o.m.errors == m.errors
            && o.m.namesRef == m.namesRef && o.m.namesRefmut == m.namesRefmut
  {
    hide VisitExpr, DefaultExpr, VisitMethodCall, DefaultCall, VisitExprs, TryParse, ReplaceExpr;
    var recv := Path([c.stateIdent]);
    var call := MethodCall(recv, BorrowName(mutable), []);
    VisitUnfoldPlain(call, m, c);
    DefaultUnfoldCall(call, m, c);
    MethodCallUnfoldPlain(call, m, c);
    DefaultCallUnfoldNoArgs(recv, BorrowName(mutable), m, c);
    VisitUnfoldPlain(recv, m, c);
    DefaultUnfoldPath(recv, m, c);
  }

  /** An accessor is visited without being rewritten again. */
  lemma VisitAccessor(mutable: bool, mem: Member, m: Modifier, c: Config)
    requires Valid(c)
    ensures var o := VisitExpr(Accessor(c.stateIdent, mutable, mem), m, c);
            o.v == Accessor(c.stateIdent, mutable, mem) && o.m.errors == m.errors
            && o.m.namesRef == m.namesRef && o.m.namesRefmut == m.namesRefmut
  {
    hide VisitExpr, DefaultExpr, VisitMethodCall, DefaultCall, VisitExprs, TryParse, ReplaceExpr;
    var call := MethodCall(Path([c.stateIdent]), BorrowName(mutable), []);
    assert Accessor(c.stateIdent, mutable, mem) == Field(call, mem);
    VisitUnfoldPlain(Field(call, mem), m, c);
    DefaultUnfoldField(call, mem, m, c);
    VisitAccessorBase(mutable, m, c);
  }

  lemma SingleState(x: string, states: set<string>)
    requires x in states
    ensures StatesIn([x], states) == {x}
  {
  }

  /** A state read `x` becomes `<state>.borrow().x`, marked as borrowed. */
  lemma StateRead(x: string, m: Modifier, c: Config)
    requires Valid(c) && x in c.stateNames
    ensures var o := VisitExpr(Path([x]), m, c);
            o.v == Accessor(c.stateIdent, false, Named(x)) && o.m.errors == m.errors
            && x in o.m.namesRef + o.m.namesRefmut
    ensures var o := VisitExpr(Path([x]), m, c);
            !Contains(AccessorText(c.stateIdent, false) + x, "borrow_mut")
            ==> o.m.namesRef == m.namesRef + {x} && o.m.namesRefmut == m.namesRefmut
    ensures var o := VisitExpr(Path([x]), m, c);
            Contains(AccessorText(c.stateIdent, false) + x, "borrow_mut")
            ==> o.m.namesRefmut == m.namesRefmut + {x} && o.m.namesRef == m.namesRef
  {
    hide VisitExpr, DefaultExpr, VisitMethodCall, DefaultCall, VisitExprs, TryParse, ReplaceExpr;
    var e := Path([x]);
    VisitUnfoldState(e, m, c);
    var o := TryParse(e, false, x, m, c);
    assert o.v == Accessor(c.stateIdent, false, Named(x));
    assert ExprText(e) == x;
    VisitUnfoldPlain(o.v, o.m, c);
    VisitAccessor(false, Named(x), o.m, c);
  }

  /** A read is told from a write by searching the parsed text for
      `borrow_mut`, so reading a state whose own name contains it marks the
      state as mutably borrowed. */
  lemma ReadOfBorrowMutName(m: Modifier, c: Config)
    requires Valid(c) && "borrow_mut_n" in c.stateNames
    ensures var o := VisitExpr(Path(["borrow_mut_n"]), m, c);
            "borrow_mut_n" in o.m.namesRefmut && o.m.namesRef == m.namesRef
  {
    var pre := AccessorText(c.stateIdent, false);
    var t := pre + "borrow_mut_n";
    assert t[|pre|..|pre| + 10] == "borrow_mut";
    ContainsWindow(t, "borrow_mut", |pre|);
    StateRead("borrow_mut_n", m, c);
  }

  /** An assignment `x = v` to a state goes through the mutable accessor
      and marks `x` as mutably borrowed. */
  lemma StateWrite(x: string, t: string, m: Modifier, c: Config)
    requires Valid(c) && x in c.stateNames
    ensures var o := VisitExpr(Assign(Path([x]), Lit(t)), m, c);
            o.v == Assign(Accessor(c.stateIdent, true, Named(x)), Lit(t)) && o.m.errors == m.errors
            && x in o.m.namesRefmut
  {
    hide VisitExpr, DefaultExpr, VisitAssign, VisitMethodCall, DefaultCall, VisitExprs, TryParse, ReplaceExpr;
    var l, r := Path([x]), Lit(t);
    VisitUnfoldPlain(Assign(l, r), m, c);
    DefaultUnfoldAssign(l, r, m, c);
    AssignStep(l, None, r, m, c);
    var ol := ReplaceExpr(l, true, m, c);
    assert ol.v == Accessor(c.stateIdent, true, Named(x));
    var or := ReplaceExpr(r, false, ol.m, c);
    assert StatesIn(Idents(r), c.stateNames) == {};
    assert or == Out(r, ol.m);
    VisitAccessor(true, Named(x), or.m, c);
    var vl := VisitExpr(ol.v, or.m, c);
    VisitUnfoldPlain(r, vl.m, c);
    DefaultUnfoldLit(r, vl.m, c);
  }

  /** Both operands of `x op y` with `x`, `y` states are read through the
      immutable accessor. */
  lemma StatesCompared(x: string, op: string, y: string, m: Modifier, c: Config)
    requires Valid(c) && x in c.stateNames && y in c.stateNames
    ensures var o := VisitExpr(Binary(Path([x]), op, Path([y])), m, c);
            o.v == Binary(Accessor(c.stateIdent, false, Named(x)), op, Accessor(c.stateIdent, false, Named(y)))
            && o.m.errors == m.errors
  {
    hide VisitExpr, DefaultExpr, VisitBinary, VisitMethodCall, DefaultCall, VisitExprs, TryParse, ReplaceExpr;
    var l, r := Path([x]), Path([y]);
    VisitUnfoldPlain(Binary(l, op, r), m, c);
    DefaultUnfoldBinary(l, op, r, m, c);
    BinaryStep(l, op, r, m, c);
    var ol := ReplaceExpr(l, false, m, c);
    assert ol.v == Accessor(c.stateIdent, false, Named(x));
    var or := ReplaceExpr(r, false, ol.m, c);
    assert or.v == Accessor(c.stateIdent, false, Named(y));
    VisitAccessor(false, Named(x), or.m, c);
    VisitAccessor(false, Named(y), VisitExpr(ol.v, or.m, c).m, c);
  }

  /** `visit_expr_binary_mut` offers the left operand to `replace_expr`
      when the right one is not binary: `x.len() > 0` reports the state `x`
      among several identifiers. */
  lemma BinaryOffersLeft(x: string, op: string, t: string, m: Modifier, c: Config)
    requires Valid(c) && x in c.stateNames && "len" !in c.stateNames
    ensures var o := VisitBinary(MethodCall(Path([x]), "len", []), op, Lit(t), m, c);
            |o.m.errors| > |m.errors| && o.m.errors[..|m.errors| + 1] == m.errors + [Marker(InExpr(x), MultipleIdents)]
  {
    hide VisitExpr, VisitBinary, ReplaceExpr, Idents;
    var l, r := MethodCall(Path([x]), "len", []), Lit(t);
    BinaryStep(l, op, r, m, c);
    LenCallIdents(x, t);
    ReportsStateAmongSeveral(l, x, m, c);
    var ol := ReplaceExpr(l, false, m, c);
    var or := ReplaceExpr(r, false, ol.m, c);
    var vl := VisitExpr(ol.v, or.m, c);
    var vr := VisitExpr(or.v, vl.m, c);
    assert ol.m.errors <= vr.m.errors;
  }

  /** The right operand is offered whether or not it is binary: in
      `1 < x.len() + 1` the state `x` among several identifiers is
      reported. */
  lemma BinaryOffersRight(x: string, op: string, t: string, m: Modifier, c: Config)
    requires Valid(c) && x in c.stateNames && "len" !in c.stateNames
    ensures var o := VisitBinary(Lit(t), op, Binary(MethodCall(Path([x]), "len", []), "+", Lit(t)), m, c);
            |o.m.errors| > |m.errors| && o.m.errors[..|m.errors| + 1] == m.errors + [Marker(InExpr(x), MultipleIdents)]
  {
    hide VisitExpr, VisitBinary, ReplaceExpr, Idents;
    var l, r := Lit(t), Binary(MethodCall(Path([x]), "len", []), "+", Lit(t));
    BinaryStep(l, op, r, m, c);
    LenCallIdents(x, t);
    ReportsStateAmongSeveral(r, x, m, c);
    var or := ReplaceExpr(r, false, m, c);
    var vl := VisitExpr(l, or.m, c);
    var vr := VisitExpr(or.v, vl.m, c);
    assert or.m.errors <= vr.m.errors;
  }

  /** The identifiers of `x.len()`, `t` and `x.len() + t`. */
  lemma LenCallIdents(x: string, t: string)
    ensures Idents(MethodCall(Path([x]), "len", [])) == [x, "len"]
    ensures Idents(Lit(t)) == []
    ensures Idents(Binary(MethodCall(Path([x]), "len", []), "+", Lit(t))) == [x, "len"]
  {
    assert Idents(MethodCall(Path([x]), "len", [])) == [x] + ["len"] + ExprsIdents([]);
  }

  /** A node whose identifiers are a state and one other name is left alone
      and reported once. */
  lemma ReportsStateAmongSeveral(e: Expr, x: string, m: Modifier, c: Config)
    requires Idents(e) == [x, "len"] && x in c.stateNames && "len" !in c.stateNames
    ensures ReplaceExpr(e, false, m, c) == Out(e, m.(errors := m.errors + [Marker(InExpr(x), MultipleIdents)]))
  {
    assert StatesIn(Idents(e), c.stateNames) == {x};
  }

  /** The left operand is not offered when the right one is binary: in
      `x.len() > 1 + 2` nothing is reported, and the method call still
      goes through the mutable accessor. */
  lemma BinarySkipsLeft(x: string, op: string, a: string, b: string, m: Modifier, c: Config)
    requires Valid(c) && x in c.stateNames
    ensures var o := VisitBinary(MethodCall(Path([x]), "len", []), op, Binary(Lit(a), "+", Lit(b)), m, c);
            o.m.errors == m.errors
            && o.v.left == MethodCall(Accessor(c.stateIdent, true, Named(x)), "len", [])
  {
    hide VisitExpr, VisitBinary, ReplaceExpr, DefaultExpr;
    var l, r := MethodCall(Path([x]), "len", []), Binary(Lit(a), "+", Lit(b));
    BinaryStep(l, op, r, m, c);
    assert Idents(r) == [];
    var or := ReplaceExpr(r, false, m, c);
    assert or == Out(r, m);
    StateMethodCall(x, "len", m, c);
    var vl := VisitExpr(l, m, c);
    LitSumQuiet(a, b, vl.m, c);
  }

  /** Visiting `a + b` for literals changes no error. */
  lemma LitSumQuiet(a: string, b: string, m: Modifier, c: Config)
    requires Valid(c)
    ensures VisitExpr(Binary(Lit(a), "+", Lit(b)), m, c).m.errors == m.errors
  {
    hide VisitExpr, VisitBinary, ReplaceExpr, DefaultExpr;
    var l, r := Lit(a), Lit(b);
    VisitUnfoldPlain(Binary(l, "+", r), m, c);
    DefaultUnfoldBinary(l, "+", r, m, c);
    BinaryStep(l, "+", r, m, c);
    assert Idents(l) == [] && Idents(r) == [];
    assert ReplaceExpr(l, false, m, c) == Out(l, m);
    assert ReplaceExpr(r, false, m, c) == Out(r, m);
    VisitUnfoldPlain(l, m, c);
    DefaultUnfoldLit(l, m, c);
    VisitUnfoldPlain(r, m, c);
    DefaultUnfoldLit(r, m, c);
  }

  /** A method called on a state goes through the mutable accessor. */
  lemma StateMethodCall(x: string, n: string, m: Modifier, c: Config)
    requires Valid(c) && x in c.stateNames
    ensures var o := VisitExpr(MethodCall(Path([x]), n, []), m, c);
            o.v == MethodCall(Accessor(c.stateIdent, true, Named(x)), n, []) && o.m.errors == m.errors
            && x in o.m.namesRefmut
  {
    hide VisitExpr, DefaultExpr, VisitMethodCall, DefaultCall, VisitExprs, TryParse, ReplaceExpr;
    var e := MethodCall(Path([x]), n, []);
    VisitUnfoldPlain(e, m, c);
    DefaultUnfoldCall(e, m, c);
    MethodCallUnfoldState(e, m, c);
    var oc := TryParse(e, true, x, m, c);
    assert Reparse(Path([x]), true, c.stateIdent) == Some(Accessor(c.stateIdent, true, Named(x)));
    assert oc.v == MethodCall(Accessor(c.stateIdent, true, Named(x)), n, []);
    DefaultCallUnfoldNoArgs(Accessor(c.stateIdent, true, Named(x)), n, oc.m, c);
    VisitAccessor(true, Named(x), oc.m, c);
  }

  /** A macro is reported and left as it is. */
  lemma MacroReported(path: Segments, tokens: string, m: Modifier, c: Config)
    requires Valid(c)
    ensures var o := VisitExpr(Macro(path, tokens), m, c);
            o.v == Macro(path, tokens)
            && o.m.errors == m.errors + [Marker(InExpr(path[0]), MacroNotImplemented)]
  {
  }
}
