/** A printer from element trees back to token runs, and the theorem that the
    template parser reads every printed tree back unchanged. The printer is an
    independent statement of the template grammar of html/mod.rs: each
    construct the parser accepts is written out once here, and the round-trip
    lemmas check the parser against it. */
module HtmlPrint {
  import opened Strings
  import opened Diagnostics
  import opened Tokens
  import opened Html

  function Pu(c: char): Token { Punct(c, false, 0) }
  function Word(name: NonEmptyString): Token { Ident(name, 0) }
  function Braced(inner: seq<Token>): Token { Group(Brace, inner, 0) }

  // ---------------------------------------------------------------------
  // The trees a token run can denote

  predicate WfValue(v: AttrValue)
  {
    match v
    case StrValue(_) => true
    case IdentValue(x, _) => |x| > 0
    case BlockValue(b) => IsBrace([b.group], 0) && !(|b.group.inner| == 1 && b.group.inner[0].Ident?)
  }

  predicate WfAttr(a: Attribute)
  {
    |a.name| > 0 && WfValue(a.value)
  }

  predicate WfAttrs(attrs: seq<Attribute>)
  {
    forall i | 0 <= i < |attrs| :: WfAttr(attrs[i])
  }

  /** A block interpolation that the parser does not read as an identifier,
      a literal, a control-flow header or a closer. */
  predicate WfBlock(b: HostBlock)
  {
    b.group.Group? && b.group.delim == Brace &&
    var inner := b.group.inner;
    !(|inner| == 1 && (inner[0].Ident? || IsStrLit(inner, 0))) &&
    !IsKw(inner, 0, "for") && !IsKw(inner, 0, "if") && !IsPunct(inner, 0, '/')
  }

  predicate WfElement(e: Element)
  {
    match e
    case Classic(name, attrs, children) =>
      |name| > 0 && !IsKeyword(name) && WfAttrs(attrs) && WfElements(children)
    case Text(t) => |t| > 0
    case Comment(text) => |text| >= 8 && text[..4] == "<!--" && text[|text| - 3..] == "-->"
    case ExprEl(x) => WfExpr(x)
  }

  predicate WfExpr(x: ExprElement)
  {
    match x
    case ForEl(h, children) =>
      |h.pat| > 0 && (forall i | 0 <= i < |h.pat| :: !IsKw(h.pat, i, "in")) &&
      h.iter.HostExpr? && |h.iter.tokens| > 0 && WfElements(children)
    case IfEl(conds) => WfChain(conds)
    case BlockEl(b) => WfBlock(b)
    case IdentEl(name, _) => |name| > 0 && name != "for" && name != "if"
    case LitEl(_) => true
  }

  /** A sibling list: every element well formed and no two text runs next to
      each other (the parser would read them as one). */
  predicate WfElements(es: seq<Element>)
  {
    (forall i | 0 <= i < |es| :: WfElement(es[i])) &&
    (forall i | 0 <= i < |es| - 1 :: !(es[i].Text? && es[i + 1].Text?))
  }

  /** The children of an if branch: no brace elements, since inside a chain
      every brace group is read as a header or a closer. */
  predicate WfBranch(es: seq<Element>)
  {
    WfElements(es) && forall k | 0 <= k < |es| :: !es[k].ExprEl?
  }

  /** An if chain: an `if` condition first, then `else if` conditions and at
      most one `else` (which an `else if` may follow). */
  predicate WfChain(conds: seq<Condition>)
  {
    |conds| > 0 && conds[0].cond.HostExpr? &&
    (forall i | 0 <= i < |conds| :: conds[i].cond.HostExpr? ==> |conds[i].cond.tokens| > 0) &&
    (forall i, j | 1 <= i < j < |conds| :: !(conds[i].cond.TrueLiteral? && conds[j].cond.TrueLiteral?)) &&
    (forall i | 0 <= i < |conds| ::
       WfElements(conds[i].children) && forall k | 0 <= k < |conds[i].children| :: !conds[i].children[k].ExprEl?)
  }

  // ---------------------------------------------------------------------
  // Printing

  function PrintValue(v: AttrValue): seq<Token>
    requires WfValue(v)
  {
    match v
    case StrValue(s) => if s == "" then [] else [Pu('='), Literal(Str(s, Quoted(s)), 0)]
    case IdentValue(x, sp) => [Pu('='), Braced([Ident(x, sp)])]
    case BlockValue(b) => [Pu('='), b.group]
  }

  function PrintAttr(a: Attribute): (ts: seq<Token>)
    requires WfAttr(a)
    ensures |ts| > 0 && ts[0].Ident?
  {
    (if a.namespace == "" then [Word(a.name)] else [Word(a.namespace), Pu(':'), Word(a.name)])
    + PrintValue(a.value)
  }

  function PrintAttrs(attrs: seq<Attribute>): (ts: seq<Token>)
    requires WfAttrs(attrs)
    ensures |ts| > 0 ==> ts[0].Ident?
  {
    if |attrs| == 0 then [] else PrintAttr(attrs[0]) + PrintAttrs(attrs[1..])
  }

  /** The closing `{/for}` and `{/if}`. */
  function Closer(kw: NonEmptyString): Token
  {
    Braced([Pu('/'), Word(kw)])
  }

  function PrintElement(e: Element): (ts: seq<Token>)
    requires WfElement(e)
    ensures |ts| > 0
    ensures e.ExprEl? <==> IsBrace(ts, 0)
    ensures e.ExprEl? ==> !IsPunct(ts[0].inner, 0, '/')
    ensures !e.Text? && !e.ExprEl? ==> ts[0] == Pu('<')
    ensures e.Text? ==> ts[0].Ident?
  {
    match e
    case Classic(name, attrs, children) =>
      [Pu('<'), Word(name)] + PrintAttrs(attrs) + [Pu('>')] + PrintElements(children) +
      [Punct('<', true, 0), Pu('/'), Word(name), Pu('>')]
    case Text(t) => [Word(t)]
    case Comment(text) =>
      [Pu('<'), Pu('!'), Pu('-'), Pu('-'), Word(text[4..|text| - 3]), Pu('-'), Pu('-'), Pu('>')]
    case ExprEl(x) => PrintExpr(x)
  }

  function PrintExpr(x: ExprElement): (ts: seq<Token>)
    requires WfExpr(x)
    ensures |ts| > 0 && IsBrace(ts, 0) && !IsPunct(ts[0].inner, 0, '/')
  {
    match x
    case ForEl(h, children) =>
      [Braced([Ident("for", h.forSp)] + h.pat + [Word("in")] + h.iter.tokens)]
      + PrintElements(children) + [Closer("for")]
    case IfEl(conds) => PrintChain(conds, 0)
    case BlockEl(b) => [b.group]
    case IdentEl(name, sp) => [Braced([Ident(name, sp)])]
    case LitEl(s) => [Braced([Literal(Str(s, Quoted(s)), 0)])]
  }

  function PrintElements(es: seq<Element>): seq<Token>
    requires WfElements(es)
  {
    if |es| == 0 then [] else PrintElement(es[0]) + PrintElements(es[1..])
  }

  /** The header opening branch `i`: `{if c}`, `{else if c}` or `{else}`. */
  function Header(conds: seq<Condition>, i: nat): Token
    requires WfChain(conds) && i < |conds|
  {
    match conds[i].cond
    case TrueLiteral => Braced([Word("else")])
    case HostExpr(tokens) =>
      if i == 0 then Braced([Word("if")] + tokens) else Braced([Word("else"), Word("if")] + tokens)
  }

  /** Branches `i..` of an if chain followed by `{/if}`. */
  function PrintChain(conds: seq<Condition>, i: nat): (ts: seq<Token>)
    requires WfChain(conds) && i <= |conds|
    ensures |ts| > 0 && IsBrace(ts, 0) && (i > 0 || !IsPunct(ts[0].inner, 0, '/'))
    decreases conds, |conds| - i
  {
    if i == |conds| then [Closer("if")]
    else [Header(conds, i)] + PrintElements(conds[i].children) + PrintChain(conds, i + 1)
  }

  // ---------------------------------------------------------------------
  // Token runs inside a token run

  /** The run `xs` occurs in `ts` at `pos`. */
  predicate Has(ts: seq<Token>, pos: nat, xs: seq<Token>)
  {
    pos + |xs| <= |ts| && forall i | 0 <= i < |xs| :: ts[pos + i] == xs[i]
  }

  lemma HasSplit(ts: seq<Token>, pos: nat, xs: seq<Token>, ys: seq<Token>)
    requires Has(ts, pos, xs + ys)
    ensures Has(ts, pos, xs) && Has(ts, pos + |xs|, ys)
  {
    forall i | 0 <= i < |xs| ensures ts[pos + i] == xs[i] {
      assert (xs + ys)[i] == xs[i];
    }
    forall i | 0 <= i < |ys| ensures ts[pos + |xs| + i] == ys[i] {
      assert (xs + ys)[|xs| + i] == ys[i];
    }
  }

  lemma HasAt(ts: seq<Token>, pos: nat, xs: seq<Token>, i: nat)
    requires Has(ts, pos, xs) && i < |xs|
    ensures ts[pos + i] == xs[i]
  {
  }

  /** Where a text run ends: at the end of input, a `<` or a brace group. */
  predicate Stops(ts: seq<Token>, pos: nat)
  {
    pos == |ts| || IsPunct(ts, pos, '<') || IsBrace(ts, pos)
  }

  /** A text run as the first of several siblings ends where the next
      sibling, or what follows the list, begins. */
  lemma FirstStops(kids: seq<Element>, ts: seq<Token>, pos: nat)
    requires WfElements(kids) && |kids| > 0
    requires Has(ts, pos, PrintElements(kids)) && Stops(ts, pos + |PrintElements(kids)|)
    ensures kids[0].Text? ==> Stops(ts, pos + |PrintElement(kids[0])|)
  {
    hide PrintElement;
    var first := PrintElement(kids[0]);
    var rest := PrintElements(kids[1..]);
    HasSplit(ts, pos, first, rest);
    if |kids| > 1 {
      assert !(kids[0].Text? && kids[1].Text?);
      if kids[0].Text? {
        assert kids[1..][0] == kids[1];
        HasAt(ts, pos + |first|, rest, 0);
        assert rest[0] == PrintElement(kids[1])[0];
      }
    }
  }

  // ---------------------------------------------------------------------
  // Single steps of the parser, each proved in a small context

  lemma AttributesNil(ts: seq<Token>, pos: nat)
    requires IsPunct(ts, pos, '>')
    ensures ParseAttributes(ts, pos) == Ok(Parsed([], pos))
  {
  }

  lemma AttributesCons(ts: seq<Token>, pos: nat, a: Attribute, p1: nat, rest: seq<Attribute>, p2: nat)
    requires pos < p1 <= |ts| && IsAnyIdent(ts, pos)
    requires ParseAttribute(ts, pos) == Ok(Parsed(a, p1))
    requires ParseAttributes(ts, p1) == Ok(Parsed(rest, p2))
    ensures ParseAttributes(ts, pos) == Ok(Parsed([a] + rest, p2))
  {
  }

  lemma ClassicSteps(ts: seq<Token>, pos: nat, name: string, attrs: seq<Attribute>, q: nat, kids: seq<Element>, c: nat)
    requires pos + 1 < |ts| && IsPunct(ts, pos, '<') && IsPlainIdent(ts, pos + 1) && ts[pos + 1].name == name
    requires FindTarget(ts, pos + 1, ">").Some?
    requires ParseAttributes(ts, pos + 2) == Ok(Parsed(attrs, q))
    requires IsPunct(ts, q, '>')
    requires ParseTagChildren(ts, q + 1) == Ok(Parsed(kids, c))
    requires IsPlainIdent(ts, c + 2) && ts[c + 2].name == name && IsPunct(ts, c + 3, '>')
    ensures ParseClassic(ts, pos) == Ok(Parsed(Classic(name, attrs, kids), c + 4))
  {
    hide ParseElement, ParseTagChildren, ParseExprElement, ParseForChildren, ParseIfChain, ParseElements, ParseAttributes, ParseStringUntilString, FindTarget;
    assert !IsPunct2(ts, q, '/', '>');
    assert CheckTagName(name, ts[pos + 1].sp, ts[c + 2].name, ts[c + 2].sp) == Ok(());
  }

  lemma ElementClassic(ts: seq<Token>, pos: nat)
    requires IsPunct(ts, pos, '<') && IsAnyIdent(ts, pos + 1)
    ensures ParseElement(ts, pos) == ParseClassic(ts, pos)
  {
  }

  lemma ElementText(ts: seq<Token>, pos: nat, t: NonEmptyString)
    requires pos < |ts| && ts[pos] == Word(t) && Stops(ts, pos + 1)
    ensures ParseElement(ts, pos) == Ok(Parsed(Text(t), pos + 1))
  {
    assert ParseText(ts, pos + 1) == Parsed("", pos + 1);
    assert TokenText(ts[pos]) + "" == t;
    var text: string := t;
    assert ParseText(ts, pos) == Parsed(text, pos + 1);
  }

  lemma ElementComment(ts: seq<Token>, pos: nat, text: string, p: nat)
    requires IsPunct(ts, pos, '<') && IsPunct(ts, pos + 1, '!')
    requires ParseStringUntilString(ts, pos, "-->") == Ok(Parsed(text, p))
    ensures ParseElement(ts, pos) == Ok(Parsed(Comment(text), p))
  {
  }

  lemma ElementExpr(ts: seq<Token>, pos: nat, x: ExprElement, p: nat)
    requires IsBrace(ts, pos) && ParseExprElement(ts, pos) == Ok(Parsed(x, p))
    ensures ParseElement(ts, pos) == Ok(Parsed(ExprEl(x), p))
  {
    assert ParseText(ts, pos) == Parsed("", pos);
  }

  lemma ExprOfElement(ts: seq<Token>, pos: nat, x: ExprElement, p: nat)
    requires IsBrace(ts, pos) && ParseElement(ts, pos) == Ok(Parsed(ExprEl(x), p))
    ensures ParseExprElement(ts, pos) == Ok(Parsed(x, p))
  {
    assert ParseText(ts, pos) == Parsed("", pos);
  }

  lemma TagChildrenNil(ts: seq<Token>, pos: nat)
    requires IsPunct2(ts, pos, '<', '/')
    ensures ParseTagChildren(ts, pos) == Ok(Parsed([], pos))
  {
  }

  lemma TagChildrenCons(ts: seq<Token>, pos: nat, e: Element, p1: nat, rest: seq<Element>, p2: nat)
    requires pos < p1 <= |ts| && !IsPunct2(ts, pos, '<', '/')
    requires ParseElement(ts, pos) == Ok(Parsed(e, p1))
    requires ParseTagChildren(ts, p1) == Ok(Parsed(rest, p2))
    ensures ParseTagChildren(ts, pos) == Ok(Parsed([e] + rest, p2))
  {
  }

  lemma ForChildrenExpr(ts: seq<Token>, pos: nat, forSp: nat, x: ExprElement, p1: nat, rest: seq<Element>, p2: nat)
    requires IsBrace(ts, pos) && !IsPunct(ts[pos].inner, 0, '/') && pos < p1 <= |ts|
    requires ParseExprElement(ts, pos) == Ok(Parsed(x, p1))
    requires ParseForChildren(ts, p1, forSp) == Ok(Parsed(rest, p2))
    ensures ParseForChildren(ts, pos, forSp) == Ok(Parsed([ExprEl(x)] + rest, p2))
  {
  }

  lemma ForChildrenElement(ts: seq<Token>, pos: nat, forSp: nat, e: Element, p1: nat, rest: seq<Element>, p2: nat)
    requires pos < |ts| && !IsBrace(ts, pos) && pos < p1 <= |ts|
    requires ParseElement(ts, pos) == Ok(Parsed(e, p1))
    requires ParseForChildren(ts, p1, forSp) == Ok(Parsed(rest, p2))
    ensures ParseForChildren(ts, pos, forSp) == Ok(Parsed([e] + rest, p2))
  {
  }

  lemma ExprFor(ts: seq<Token>, pos: nat, h: ForHeader, kids: seq<Element>, p: nat)
    requires IsBrace(ts, pos) && IsKw(ts[pos].inner, 0, "for")
    requires ParseForHeader(ts[pos].inner, ts[pos].sp) == Ok(h)
    requires ParseForChildren(ts, pos + 1, h.forSp) == Ok(Parsed(kids, p))
    ensures ParseExprElement(ts, pos) == Ok(Parsed(ForEl(h, kids), p))
  {
  }

  lemma ExprIf(ts: seq<Token>, pos: nat, ctx: IfCtx)
    requires IsBrace(ts, pos) && IsKw(ts[pos].inner, 0, "if")
    requires NewIfCtx(ts[pos].inner, ts[pos].sp) == Ok(ctx)
    ensures ParseExprElement(ts, pos) == ParseIfChain(ts, pos, ctx)
  {
  }

  lemma IfChainElement(ts: seq<Token>, pos: nat, ctx: IfCtx, e: Element, p1: nat)
    requires pos < |ts| && !IsBrace(ts, pos) && pos < p1 <= |ts|
    requires ParseElement(ts, pos) == Ok(Parsed(e, p1))
    ensures ParseIfChain(ts, pos, ctx) == ParseIfChain(ts, p1, ctx.(children := ctx.children + [e]))
  {
  }

  lemma IfChainOpen(ts: seq<Token>, pos: nat, ctx: IfCtx)
    requires IsBrace(ts, pos) && IsKw(ts[pos].inner, 0, "if") && |ts[pos].inner| > 1 && !ctx.ifReached
    ensures ParseIfChain(ts, pos, ctx) == ParseIfChain(ts, pos + 1,
      ctx.(nameSp := ts[pos].inner[0].sp, ifReached := true, expr := HostExpr(ts[pos].inner[1..])))
  {
  }

  lemma IfChainElseIf(ts: seq<Token>, pos: nat, ctx: IfCtx)
    requires IsBrace(ts, pos) && IsKw(ts[pos].inner, 0, "else") && IsKw(ts[pos].inner, 1, "if")
    requires |ts[pos].inner| > 2 && ctx.ifReached
    ensures ParseIfChain(ts, pos, ctx) == ParseIfChain(ts, pos + 1,
      CreatePreviousCondition(ctx).(nameSp := ts[pos].inner[0].sp, expr := HostExpr(ts[pos].inner[2..])))
  {
  }

  lemma IfChainElse(ts: seq<Token>, pos: nat, ctx: IfCtx)
    requires IsBrace(ts, pos) && IsKw(ts[pos].inner, 0, "else") && !IsKw(ts[pos].inner, 1, "if")
    requires ctx.ifReached && !ctx.elseReached
    ensures ParseIfChain(ts, pos, ctx) == ParseIfChain(ts, pos + 1,
      CreatePreviousCondition(ctx.(nameSp := ts[pos].inner[0].sp, elseReached := true)).(expr := TrueLiteral))
  {
  }

  lemma IfChainClose(ts: seq<Token>, pos: nat, ctx: IfCtx)
    requires IsBrace(ts, pos) && IsPunct(ts[pos].inner, 0, '/') && IsKw(ts[pos].inner, 1, "if")
    ensures ParseIfChain(ts, pos, ctx) == Ok(Parsed(IfEl(CreatePreviousCondition(ctx).conditions), pos + 1))
  {
  }

  lemma ElementsNil(ts: seq<Token>)
    ensures ParseElements(ts, |ts|) == Ok([])
  {
  }

  lemma ElementsCons(ts: seq<Token>, pos: nat, e: Element, p1: nat, rest: seq<Element>)
    requires pos < p1 <= |ts|
    requires ParseElement(ts, pos) == Ok(Parsed(e, p1))
    requires ParseElements(ts, p1) == Ok(rest)
    ensures ParseElements(ts, pos) == Ok([e] + rest)
  {
  }

  // ---------------------------------------------------------------------
  // Round trips

  lemma ParsePrintedValue(v: AttrValue, ts: seq<Token>, pos: nat)
    requires WfValue(v) && Has(ts, pos, PrintValue(v))
    requires IsPunct(ts, pos + |PrintValue(v)|, '>') || IsAnyIdent(ts, pos + |PrintValue(v)|)
    ensures ParseAttrValue(ts, pos) == Ok(Parsed(v, pos + |PrintValue(v)|))
  {
    var out := PrintValue(v);
    if |out| > 0 {
      HasAt(ts, pos, out, 0);
      HasAt(ts, pos, out, 1);
    }
  }

  lemma ParsePrintedAttr(a: Attribute, ts: seq<Token>, pos: nat)
    requires WfAttr(a) && Has(ts, pos, PrintAttr(a))
    requires IsPunct(ts, pos + |PrintAttr(a)|, '>') || IsAnyIdent(ts, pos + |PrintAttr(a)|)
    ensures ParseAttribute(ts, pos) == Ok(Parsed(a, pos + |PrintAttr(a)|))
  {
    var pv := PrintValue(a.value);
    if a.namespace == "" {
      HasSplit(ts, pos, [Word(a.name)], pv);
      HasAt(ts, pos, [Word(a.name)], 0);
      ParsePrintedValue(a.value, ts, pos + 1);
      if |pv| > 0 { HasAt(ts, pos + 1, pv, 0); }
      assert ParseSegments(ts, pos) == Ok(Parsed([a.name], pos + 1));
    } else {
      var head := [Word(a.namespace), Pu(':'), Word(a.name)];
      HasSplit(ts, pos, head, pv);
      HasAt(ts, pos, head, 0);
      HasAt(ts, pos, head, 1);
      HasAt(ts, pos, head, 2);
      ParsePrintedValue(a.value, ts, pos + 3);
      if |pv| > 0 { HasAt(ts, pos + 3, pv, 0); }
      assert ParseSegments(ts, pos) == Ok(Parsed([a.namespace], pos + 1));
      assert ParseSegments(ts, pos + 2) == Ok(Parsed([a.name], pos + 3));
      assert Join([a.name], " - ") == a.name;
    }
  }

  lemma {:induction false} ParsePrintedAttrs(attrs: seq<Attribute>, ts: seq<Token>, pos: nat)
    requires WfAttrs(attrs) && Has(ts, pos, PrintAttrs(attrs))
    requires IsPunct(ts, pos + |PrintAttrs(attrs)|, '>')
    ensures ParseAttributes(ts, pos) == Ok(Parsed(attrs, pos + |PrintAttrs(attrs)|))
    decreases |attrs|
  {
    hide ParseAttributes, ParseAttribute, PrintAttrs, PrintAttr, WfAttrs, WfAttr, Has;
    if |attrs| == 0 {
      AttrsNilLength(attrs);
      AttributesNil(ts, pos);
    } else {
      AttrsLayout(attrs, ts, pos);
      var p1 := pos + |PrintAttr(attrs[0])|;
      var p2 := p1 + |PrintAttrs(attrs[1..])|;
      ParsePrintedAttr(attrs[0], ts, pos);
      ParsePrintedAttrs(attrs[1..], ts, p1);
      AttributesCons(ts, pos, attrs[0], p1, attrs[1..], p2);
      assert [attrs[0]] + attrs[1..] == attrs;
    }
  }

  lemma AttrsNilLength(attrs: seq<Attribute>)
    requires |attrs| == 0
    ensures WfAttrs(attrs) && |PrintAttrs(attrs)| == 0
  {
  }

  /** Where the first printed attribute and the rest lie, and what follows
      the first. */
  lemma {:induction false} AttrsLayout(attrs: seq<Attribute>, ts: seq<Token>, pos: nat)
    requires WfAttrs(attrs) && |attrs| > 0 && Has(ts, pos, PrintAttrs(attrs))
    requires IsPunct(ts, pos + |PrintAttrs(attrs)|, '>')
    ensures WfAttr(attrs[0]) && WfAttrs(attrs[1..])
    ensures |PrintAttrs(attrs)| == |PrintAttr(attrs[0])| + |PrintAttrs(attrs[1..])|
    ensures Has(ts, pos, PrintAttr(attrs[0])) && IsAnyIdent(ts, pos)
    ensures Has(ts, pos + |PrintAttr(attrs[0])|, PrintAttrs(attrs[1..]))
    ensures var p1 := pos + |PrintAttr(attrs[0])|; IsPunct(ts, p1, '>') || IsAnyIdent(ts, p1)
  {
    var first := PrintAttr(attrs[0]);
    var rest := PrintAttrs(attrs[1..]);
    HasSplit(ts, pos, first, rest);
    HasAt(ts, pos, first, 0);
    if |rest| > 0 { HasAt(ts, pos + |first|, rest, 0); }
  }

  /** The tokens a comment is printed as, around the one word holding its body. */
  function CommentTokens(w: NonEmptyString): seq<Token>
  {
    [Pu('<'), Pu('!'), Pu('-'), Pu('-'), Word(w), Pu('-'), Pu('-'), Pu('>')]
  }

  lemma CommentWindows(ts: seq<Token>, pos: nat, w: NonEmptyString)
    requires pos + 8 <= |ts| && ts[pos..pos + 8] == CommentTokens(w)
    ensures PunctWindow(ts, pos + 5, "-->")
    ensures forall i :: pos <= i < pos + 5 ==> !PunctWindow(ts, i, "-->")
  {
    var out := CommentTokens(w);
    assert forall k | 0 <= k < 8 :: ts[pos + k] == out[k] by {
      forall k | 0 <= k < 8 ensures ts[pos + k] == out[k] { assert ts[pos..pos + 8][k] == ts[pos + k]; }
    }
    assert ts[pos] == out[0] && ts[pos + 1] == out[1] && ts[pos + 4] == out[4];
    assert ts[pos + 5] == out[5] && ts[pos + 6] == out[6] && ts[pos + 7] == out[7];
    assert !PunctWindow(ts, pos, "-->") by { assert ts[pos].ch == '<' != "-->"[0]; }
    assert !PunctWindow(ts, pos + 1, "-->") by { assert ts[pos + 1].ch == '!' != "-->"[0]; }
    assert !PunctWindow(ts, pos + 2, "-->") by { assert !ts[pos + 4].Punct? && "-->"[2] == '>'; }
    assert !PunctWindow(ts, pos + 3, "-->") by { assert !ts[pos + 4].Punct? && "-->"[1] == '-'; }
    assert !PunctWindow(ts, pos + 4, "-->") by { assert !ts[pos + 4].Punct? && "-->"[0] == '-'; }
  }

  lemma JoinedTextCons(t: Token, rest: seq<Token>)
    ensures JoinedText([t] + rest) == TokenText(t) + JoinedText(rest)
  {
    assert ([t] + rest)[1..] == rest;
  }

  lemma CommentText(text: string)
    requires |text| >= 8 && text[..4] == "<!--" && text[|text| - 3..] == "-->"
    ensures JoinedText(CommentTokens(text[4..|text| - 3])) == text
  {
    var w := text[4..|text| - 3];
    JoinedTextCons(Pu('>'), []);
    JoinedTextCons(Pu('-'), [Pu('>')]);
    JoinedTextCons(Pu('-'), [Pu('-'), Pu('>')]);
    JoinedTextCons(Word(w), [Pu('-'), Pu('-'), Pu('>')]);
    JoinedTextCons(Pu('-'), [Word(w), Pu('-'), Pu('-'), Pu('>')]);
    JoinedTextCons(Pu('-'), [Pu('-'), Word(w), Pu('-'), Pu('-'), Pu('>')]);
    JoinedTextCons(Pu('!'), [Pu('-'), Pu('-'), Word(w), Pu('-'), Pu('-'), Pu('>')]);
    JoinedTextCons(Pu('<'), [Pu('!'), Pu('-'), Pu('-'), Word(w), Pu('-'), Pu('-'), Pu('>')]);
    assert text == text[..4] + w + text[|text| - 3..];
  }

  /** The comment printed from `text` is read back as `text`. */
  lemma ParsePrintedComment(text: string, ts: seq<Token>, pos: nat)
    requires WfElement(Comment(text)) && Has(ts, pos, PrintElement(Comment(text)))
    ensures ParseStringUntilString(ts, pos, "-->") == Ok(Parsed(text, pos + 8))
  {
    hide ParseStringUntilString;
    var w := text[4..|text| - 3];
    var out := PrintElement(Comment(text));
    assert out == CommentTokens(w);
    assert ts[pos..pos + 8] == out by {
      forall k | 0 <= k < 8 ensures ts[pos..pos + 8][k] == out[k] { HasAt(ts, pos, out, k); }
    }
    CommentWindows(ts, pos, w);
    CommentText(text);
    var r := ParseStringUntilString(ts, pos, "-->");
    assert r.Ok?;
  }

  lemma {:induction false} ParsePrintedElement(e: Element, ts: seq<Token>, pos: nat)
    requires WfElement(e) && Has(ts, pos, PrintElement(e))
    requires e.Text? ==> Stops(ts, pos + |PrintElement(e)|)
    ensures ParseElement(ts, pos) == Ok(Parsed(e, pos + |PrintElement(e)|))
    decreases e, 1
  {
    hide ParseElement, ParseClassic, ParseTagChildren, ParseExprElement, ParseForChildren, ParseIfChain, ParseElements, ParseAttributes, ParseStringUntilString;
    var out := PrintElement(e);
    HasAt(ts, pos, out, 0);
    match e
    case Classic(name, attrs, children) =>
      ParsePrintedClassic(name, attrs, children, ts, pos);
    case Text(t) =>
      ElementText(ts, pos, t);
    case Comment(text) =>
      HasAt(ts, pos, out, 1);
      ParsePrintedComment(text, ts, pos);
      ElementComment(ts, pos, text, pos + 8);
    case ExprEl(x) =>
      ParsePrintedExpr(x, ts, pos);
      ElementExpr(ts, pos, x, pos + |out|);
  }

  lemma {:induction false} ParsePrintedClassic(name: string, attrs: seq<Attribute>, children: seq<Element>, ts: seq<Token>, pos: nat)
    requires WfElement(Classic(name, attrs, children)) && Has(ts, pos, PrintElement(Classic(name, attrs, children)))
    ensures ParseElement(ts, pos) == Ok(Parsed(Classic(name, attrs, children), pos + |PrintElement(Classic(name, attrs, children))|))
    decreases Classic(name, attrs, children), 0
  {
    hide ParseElement, ParseClassic, ParseTagChildren, ParseExprElement, ParseForChildren, ParseIfChain, ParseElements, ParseAttributes, ParseStringUntilString;
    hide PrintElement, PrintElements, PrintAttrs, WfElement, WfElements, WfAttrs, Has;
    ClassicWf(name, attrs, children);
    var q := pos + 2 + |PrintAttrs(attrs)|;
    var c := q + 1 + |PrintElements(children)|;
    ClassicOpenLayout(name, attrs, children, ts, pos);
    ClassicCloseLayout(name, attrs, children, ts, pos);
    assert ParseAttributes(ts, pos + 2) == Ok(Parsed(attrs, q)) by {
      ParsePrintedAttrs(attrs, ts, pos + 2);
    }
    assert ParseTagChildren(ts, q + 1) == Ok(Parsed(children, c)) by {
      ParsePrintedTagChildren(children, ts, q + 1);
    }
    ClassicSteps(ts, pos, name, attrs, q, children, c);
    ElementClassic(ts, pos);
  }

  lemma ClassicWf(name: string, attrs: seq<Attribute>, children: seq<Element>)
    requires WfElement(Classic(name, attrs, children))
    ensures WfAttrs(attrs) && WfElements(children)
  {
  }

  /** Where the parts of a printed opening tag lie. */
  lemma ClassicOpenLayout(name: string, attrs: seq<Attribute>, children: seq<Element>, ts: seq<Token>, pos: nat)
    requires WfElement(Classic(name, attrs, children)) && Has(ts, pos, PrintElement(Classic(name, attrs, children)))
    ensures IsPunct(ts, pos, '<') && IsPlainIdent(ts, pos + 1) && ts[pos + 1].name == name
    ensures FindTarget(ts, pos + 1, ">").Some?
    ensures Has(ts, pos + 2, PrintAttrs(attrs)) && IsPunct(ts, pos + 2 + |PrintAttrs(attrs)|, '>')
  {
    hide FindTarget, PrintAttrs, PrintElements;
    var open := [Pu('<'), Word(name)];
    var pa := PrintAttrs(attrs);
    var back := [Pu('>')] + PrintElements(children) + [Punct('<', true, 0), Pu('/'), Word(name), Pu('>')];
    var q := pos + 2 + |pa|;
    assert PrintElement(Classic(name, attrs, children)) == open + (pa + back);
    HasSplit(ts, pos, open, pa + back);
    HasSplit(ts, pos + 2, pa, back);
    HasAt(ts, pos, open, 0);
    HasAt(ts, pos, open, 1);
    HasAt(ts, q, back, 0);
    assert PunctWindow(ts, q, ">");
    FindTargetAt(ts, pos + 1, ">", q);
  }

  /** A window spelling the target past the start makes the scan succeed. */
  lemma FindTargetAt(ts: seq<Token>, from: nat, target: string, q: nat)
    requires |target| > 0 && from <= q && PunctWindow(ts, q, target)
    ensures FindTarget(ts, from, target).Some?
  {
  }

  /** Where the children and the closing tag of a printed tag lie. */
  lemma ClassicCloseLayout(name: string, attrs: seq<Attribute>, children: seq<Element>, ts: seq<Token>, pos: nat)
    requires WfElement(Classic(name, attrs, children)) && Has(ts, pos, PrintElement(Classic(name, attrs, children)))
    ensures var c := pos + 3 + |PrintAttrs(attrs)| + |PrintElements(children)|;
      c + 4 == pos + |PrintElement(Classic(name, attrs, children))| &&
      Has(ts, pos + 3 + |PrintAttrs(attrs)|, PrintElements(children)) && IsPunct2(ts, c, '<', '/') &&
      IsPlainIdent(ts, c + 2) && ts[c + 2].name == name && IsPunct(ts, c + 3, '>')
  {
    var front := [Pu('<'), Word(name)] + PrintAttrs(attrs) + [Pu('>')];
    var pc := PrintElements(children);
    var close := [Punct('<', true, 0), Pu('/'), Word(name), Pu('>')];
    var c := pos + |front| + |pc|;
    assert PrintElement(Classic(name, attrs, children)) == front + (pc + close);
    HasSplit(ts, pos, front, pc + close);
    HasSplit(ts, pos + |front|, pc, close);
    HasAt(ts, c, close, 0);
    HasAt(ts, c, close, 1);
    HasAt(ts, c, close, 2);
    HasAt(ts, c, close, 3);
  }

  lemma {:induction false} ParsePrintedTagChildren(kids: seq<Element>, ts: seq<Token>, pos: nat)
    requires WfElements(kids) && Has(ts, pos, PrintElements(kids))
    requires IsPunct2(ts, pos + |PrintElements(kids)|, '<', '/')
    ensures ParseTagChildren(ts, pos) == Ok(Parsed(kids, pos + |PrintElements(kids)|))
    decreases kids
  {
    hide ParseElement, ParseClassic, ParseTagChildren, ParseExprElement, ParseForChildren, ParseIfChain, ParseElements, ParseAttributes, ParseStringUntilString, PrintElements, PrintElement, WfElements, WfElement;
    if |kids| > 0 {
      SiblingsLayout(kids, ts, pos);
      var p1 := pos + |PrintElement(kids[0])|;
      FirstStops(kids, ts, pos);
      ParsePrintedTagChildren(kids[1..], ts, p1);
      TagChildStep(kids, ts, pos, p1, p1 + |PrintElements(kids[1..])|);
    } else {
      EmptyPrint(kids);
      TagChildrenNil(ts, pos);
    }
  }

  /** Where the first of several printed siblings and the rest lie. */
  lemma SiblingsLayout(kids: seq<Element>, ts: seq<Token>, pos: nat)
    requires WfElements(kids) && |kids| > 0 && Has(ts, pos, PrintElements(kids))
    ensures WfElement(kids[0]) && WfElements(kids[1..])
    ensures |PrintElements(kids)| == |PrintElement(kids[0])| + |PrintElements(kids[1..])|
    ensures Has(ts, pos, PrintElement(kids[0]))
    ensures Has(ts, pos + |PrintElement(kids[0])|, PrintElements(kids[1..]))
  {
    hide PrintElement, PrintElements, WfElements, WfElement;
    PrintElementsCons(kids);
    HasSplit(ts, pos, PrintElement(kids[0]), PrintElements(kids[1..]));
  }

  /** The first child of a tag read, then the rest up to `</`. */
  lemma TagChildStep(kids: seq<Element>, ts: seq<Token>, pos: nat, p1: nat, p2: nat)
    requires |kids| > 0 && WfElement(kids[0]) && Has(ts, pos, PrintElement(kids[0]))
    requires p1 == pos + |PrintElement(kids[0])| && (kids[0].Text? ==> Stops(ts, p1))
    requires ParseTagChildren(ts, p1) == Ok(Parsed(kids[1..], p2))
    ensures ParseTagChildren(ts, pos) == Ok(Parsed(kids, p2))
  {
    hide ParseElement, ParseClassic, ParseTagChildren, ParseExprElement, ParseForChildren, ParseIfChain, ParseElements, ParseAttributes, ParseStringUntilString;
    var first := PrintElement(kids[0]);
    HasAt(ts, pos, first, 0);
    if |first| > 1 { HasAt(ts, pos, first, 1); }
    ParsePrintedElement(kids[0], ts, pos);
    TagChildrenCons(ts, pos, kids[0], p1, kids[1..], p2);
    assert [kids[0]] + kids[1..] == kids;
  }

  /** The `for ... in ...` header printed from `h` is read back as `h`. */
  lemma ParsePrintedForHeader(h: ForHeader)
    requires |h.pat| > 0 && (forall i | 0 <= i < |h.pat| :: !IsKw(h.pat, i, "in"))
    requires h.iter.HostExpr? && |h.iter.tokens| > 0
    ensures ParseForHeader([Ident("for", h.forSp)] + h.pat + [Word("in")] + h.iter.tokens, 0) == Ok(h)
  {
    var inner := [Ident("for", h.forSp)] + h.pat + [Word("in")] + h.iter.tokens;
    var n := 1 + |h.pat|;
    assert IsKw(inner, n, "in");
    forall i | 1 <= i < n ensures !IsKw(inner, i, "in") {
      assert inner[i] == h.pat[i - 1];
      assert !IsKw(h.pat, i - 1, "in");
    }
    var k := FindKw(inner, 1, "in");
    assert k == n;
    assert inner[1..k] == h.pat;
    assert inner[k + 1..] == h.iter.tokens;
  }

  lemma {:induction false} ParsePrintedExpr(x: ExprElement, ts: seq<Token>, pos: nat)
    requires WfExpr(x) && Has(ts, pos, PrintExpr(x))
    ensures ParseExprElement(ts, pos) == Ok(Parsed(x, pos + |PrintExpr(x)|))
    decreases x, 1
  {
    hide ParseElement, ParseClassic, ParseTagChildren, ParseExprElement, ParseForChildren, ParseIfChain, ParseElements, ParseAttributes, ParseStringUntilString;
    var out := PrintExpr(x);
    HasAt(ts, pos, out, 0);
    match x
    case ForEl(h, children) => ParsePrintedFor(h, children, ts, pos);
    case IfEl(conds) => ParsePrintedIf(conds, ts, pos);
    case BlockEl(_) => ParsePrintedLeaf(x, ts, pos);
    case IdentEl(_, _) => ParsePrintedLeaf(x, ts, pos);
    case LitEl(_) => ParsePrintedLeaf(x, ts, pos);
  }

  /** A brace holding one name, one string literal or a host block. */
  lemma ParsePrintedLeaf(x: ExprElement, ts: seq<Token>, pos: nat)
    requires x.BlockEl? || x.IdentEl? || x.LitEl?
    requires WfExpr(x) && Has(ts, pos, PrintExpr(x))
    ensures ParseExprElement(ts, pos) == Ok(Parsed(x, pos + 1))
  {
    HasAt(ts, pos, PrintExpr(x), 0);
  }

  lemma {:induction false} ParsePrintedFor(h: ForHeader, children: seq<Element>, ts: seq<Token>, pos: nat)
    requires WfExpr(ForEl(h, children)) && Has(ts, pos, PrintExpr(ForEl(h, children)))
    ensures ParseExprElement(ts, pos) == Ok(Parsed(ForEl(h, children), pos + |PrintExpr(ForEl(h, children))|))
    decreases ForEl(h, children), 0
  {
    hide ParseElement, ParseClassic, ParseTagChildren, ParseExprElement, ParseForChildren, ParseIfChain, ParseElements, ParseAttributes, ParseStringUntilString;
    var out := PrintExpr(ForEl(h, children));
    var g := out[0];
    var pc := PrintElements(children);
    assert out == [g] + (pc + [Closer("for")]);
    HasSplit(ts, pos, [g], pc + [Closer("for")]);
    HasAt(ts, pos, [g], 0);
    ParsePrintedForHeader(h);
    ParsePrintedForChildren(children, ts, pos + 1, h.forSp);
    ExprFor(ts, pos, h, children, pos + 1 + |pc| + 1);
  }

  lemma {:induction false} ParsePrintedIf(conds: seq<Condition>, ts: seq<Token>, pos: nat)
    requires WfExpr(IfEl(conds)) && Has(ts, pos, PrintExpr(IfEl(conds)))
    ensures ParseExprElement(ts, pos) == Ok(Parsed(IfEl(conds), pos + |PrintExpr(IfEl(conds))|))
    decreases IfEl(conds), 0
  {
    hide ParseElement, ParseClassic, ParseTagChildren, ParseExprElement, ParseForChildren, ParseIfChain, ParseElements, ParseAttributes, ParseStringUntilString;
    hide PrintChain, PrintElements, WfChain, Has, WfBranch, Header;
    IfOpenStep(conds, ts, pos);
    var pc := PrintElements(conds[0].children);
    var ctx1 := IfCtx([], [], true, false, 0, 0, conds[0].cond);
    ParsePrintedBranch(conds[0].children, ts, pos + 1, ctx1);
    var ctx2 := ctx1.(children := ctx1.children + conds[0].children);
    assert conds[..0] == [];
    assert ctx2.children == conds[0].children;
    ParsePrintedChainTail(conds, 1, ts, pos + 1 + |pc|, ctx2);
  }

  /** `{if c}` opens the chain; where its children and the later branches lie. */
  lemma {:induction false} IfOpenStep(conds: seq<Condition>, ts: seq<Token>, pos: nat)
    requires WfChain(conds) && Has(ts, pos, PrintChain(conds, 0))
    ensures ParseExprElement(ts, pos) == ParseIfChain(ts, pos + 1, IfCtx([], [], true, false, 0, 0, conds[0].cond))
    ensures |conds| > 0 && WfBranch(conds[0].children) && WfElements(conds[0].children)
    ensures var pc := PrintElements(conds[0].children);
            var tail := PrintChain(conds, 1);
            && Has(ts, pos + 1, pc) && Has(ts, pos + 1 + |pc|, tail) && IsBrace(ts, pos + 1 + |pc|)
            && |PrintChain(conds, 0)| == 1 + |pc| + |tail|
  {
    hide ParseElement, ParseClassic, ParseTagChildren, ParseExprElement, ParseForChildren, ParseIfChain, ParseElements, ParseAttributes, ParseStringUntilString;
    var out := PrintChain(conds, 0);
    var g := out[0];
    var pc := PrintElements(conds[0].children);
    var tail := PrintChain(conds, 1);
    assert out == [g] + (pc + tail);
    HasSplit(ts, pos, [g], pc + tail);
    HasSplit(ts, pos + 1, pc, tail);
    HasAt(ts, pos, [g], 0);
    HasAt(ts, pos + 1 + |pc|, tail, 0);
    assert g.inner[1..] == conds[0].cond.tokens;
    var ctx0 := IfCtx([], [], false, false, 0, 0, conds[0].cond);
    assert NewIfCtx(g.inner, 0) == Ok(ctx0);
    ExprIf(ts, pos, ctx0);
    IfChainOpen(ts, pos, ctx0);
  }

  lemma {:induction false} ParsePrintedForChildren(kids: seq<Element>, ts: seq<Token>, pos: nat, forSp: nat)
    requires WfElements(kids) && Has(ts, pos, PrintElements(kids) + [Closer("for")])
    ensures ParseForChildren(ts, pos, forSp) == Ok(Parsed(kids, pos + |PrintElements(kids)| + 1))
    decreases kids
  {
    hide ParseElement, ParseClassic, ParseTagChildren, ParseExprElement, ParseForChildren, ParseIfChain, ParseElements, ParseAttributes, ParseStringUntilString, PrintElements, PrintElement, WfElements, WfElement;
    if |kids| == 0 {
      ForChildrenClosed(kids, ts, pos, forSp);
    } else {
      ChildrenLayout(kids, [Closer("for")], ts, pos);
      var p1 := pos + |PrintElement(kids[0])|;
      FirstStops(kids, ts, pos);
      ParsePrintedForChildren(kids[1..], ts, p1, forSp);
      var p2 := p1 + |PrintElements(kids[1..])| + 1;
      ForChildrenStep(kids, ts, pos, forSp, p1, p2);
    }
  }

  /** The first child of a loop body read, then the rest. */
  lemma ForChildrenStep(kids: seq<Element>, ts: seq<Token>, pos: nat, forSp: nat, p1: nat, p2: nat)
    requires |kids| > 0 && WfElement(kids[0]) && Has(ts, pos, PrintElement(kids[0]))
    requires p1 == pos + |PrintElement(kids[0])| && (kids[0].Text? ==> Stops(ts, p1))
    requires ParseForChildren(ts, p1, forSp) == Ok(Parsed(kids[1..], p2))
    ensures ParseForChildren(ts, pos, forSp) == Ok(Parsed(kids, p2))
  {
    hide ParseElement, ParseClassic, ParseTagChildren, ParseExprElement, ParseForChildren, ParseIfChain, ParseElements, ParseAttributes, ParseStringUntilString, PrintElement, WfElement;
    HasAt(ts, pos, PrintElement(kids[0]), 0);
    ParsePrintedElement(kids[0], ts, pos);
    if kids[0].ExprEl? {
      ExprOfElement(ts, pos, kids[0].e, p1);
      ForChildrenExpr(ts, pos, forSp, kids[0].e, p1, kids[1..], p2);
    } else {
      ForChildrenElement(ts, pos, forSp, kids[0], p1, kids[1..], p2);
    }
    assert [kids[0]] + kids[1..] == kids;
  }

  /** Where the first of several printed siblings and the rest lie. */
  lemma ChildrenLayout(kids: seq<Element>, tail: seq<Token>, ts: seq<Token>, pos: nat)
    requires WfElements(kids) && |kids| > 0 && Has(ts, pos, PrintElements(kids) + tail) && |tail| > 0
    ensures WfElement(kids[0]) && WfElements(kids[1..])
    ensures |PrintElements(kids)| == |PrintElement(kids[0])| + |PrintElements(kids[1..])|
    ensures Has(ts, pos, PrintElements(kids)) && Has(ts, pos, PrintElement(kids[0]))
    ensures Has(ts, pos + |PrintElement(kids[0])|, PrintElements(kids[1..]) + tail)
    ensures ts[pos + |PrintElements(kids)|] == tail[0]
  {
    hide PrintElement, PrintElements, WfElements, WfElement;
    PrintElementsCons(kids);
    HasSplit3(ts, pos, PrintElement(kids[0]), PrintElements(kids[1..]), tail);
    HasAt(ts, pos + |PrintElements(kids)|, tail, 0);
  }

  /** One unfolding of `PrintElements` on a non-empty list. */
  lemma PrintElementsCons(kids: seq<Element>)
    requires WfElements(kids) && |kids| > 0
    ensures WfElement(kids[0]) && WfElements(kids[1..])
    ensures PrintElements(kids) == PrintElement(kids[0]) + PrintElements(kids[1..])
  {
    hide PrintElement, WfElement;
    WfElementsTail(kids);
  }

  /** The siblings after the first are well formed too. */
  lemma WfElementsTail(kids: seq<Element>)
    requires WfElements(kids) && |kids| > 0
    ensures WfElement(kids[0]) && WfElements(kids[1..])
  {
    hide WfElement;
    var rest := kids[1..];
    assert forall k | 0 <= k < |rest| :: rest[k] == kids[k + 1];
    assert forall k | 0 <= k < |rest| :: WfElement(rest[k]);
  }

  /** A run of three parts splits into its pieces. */
  lemma HasSplit3(ts: seq<Token>, pos: nat, a: seq<Token>, b: seq<Token>, c: seq<Token>)
    requires Has(ts, pos, (a + b) + c)
    ensures Has(ts, pos, a + b) && Has(ts, pos, a) && Has(ts, pos + |a|, b + c) && Has(ts, pos + |a| + |b|, c)
  {
    HasSplit(ts, pos, a + b, c);
    HasSplit(ts, pos, a, b);
    forall i | 0 <= i < |b + c| ensures ts[pos + |a| + i] == (b + c)[i] {
      assert ((a + b) + c)[|a| + i] == (b + c)[i];
    }
  }

  /** `{/for}` right away closes the loop with no children. */
  lemma ForChildrenClosed(kids: seq<Element>, ts: seq<Token>, pos: nat, forSp: nat)
    requires |kids| == 0 && Has(ts, pos, PrintElements(kids) + [Closer("for")])
    ensures ParseForChildren(ts, pos, forSp) == Ok(Parsed(kids, pos + |PrintElements(kids)| + 1))
  {
    assert PrintElements(kids) + [Closer("for")] == [Closer("for")];
    HasAt(ts, pos, [Closer("for")], 0);
  }

  /** Reading the children of one branch appends them to the open branch. */
  lemma {:induction false} ParsePrintedBranch(kids: seq<Element>, ts: seq<Token>, pos: nat, ctx: IfCtx)
    requires WfBranch(kids) && Has(ts, pos, PrintElements(kids))
    requires IsBrace(ts, pos + |PrintElements(kids)|)
    ensures ParseIfChain(ts, pos, ctx)
         == ParseIfChain(ts, pos + |PrintElements(kids)|, ctx.(children := ctx.children + kids))
    decreases kids
  {
    hide ParseElement, ParseClassic, ParseTagChildren, ParseExprElement, ParseForChildren, ParseIfChain, ParseElements, ParseAttributes, ParseStringUntilString, PrintElements, PrintElement, WfElements, WfElement;
    if |kids| == 0 {
      assert ctx.children + kids == ctx.children;
      EmptyPrint(kids);
    } else {
      BranchLayout(kids, ts, pos);
      var p1 := pos + |PrintElement(kids[0])|;
      FirstStops(kids, ts, pos);
      BranchStep(kids[0], ts, pos, ctx, p1);
      var ctx1 := ctx.(children := ctx.children + [kids[0]]);
      ParsePrintedBranch(kids[1..], ts, p1, ctx1);
      assert ctx1.children + kids[1..] == ctx.children + kids;
    }
  }

  lemma EmptyPrint(kids: seq<Element>)
    requires |kids| == 0
    ensures WfElements(kids) && |PrintElements(kids)| == 0
  {
  }

  /** Where the first child of a branch and the rest lie. */
  lemma BranchLayout(kids: seq<Element>, ts: seq<Token>, pos: nat)
    requires WfBranch(kids) && |kids| > 0 && Has(ts, pos, PrintElements(kids))
    ensures WfElements(kids) && WfElement(kids[0]) && !kids[0].ExprEl? && WfBranch(kids[1..])
    ensures |PrintElements(kids)| == |PrintElement(kids[0])| + |PrintElements(kids[1..])|
    ensures Has(ts, pos, PrintElement(kids[0]))
    ensures Has(ts, pos + |PrintElement(kids[0])|, PrintElements(kids[1..]))
  {
    hide PrintElement;
    HasSplit(ts, pos, PrintElement(kids[0]), PrintElements(kids[1..]));
    assert forall k | 0 <= k < |kids[1..]| :: kids[1..][k] == kids[k + 1];
  }

  /** One non-brace child of a branch read into the open branch. */
  lemma BranchStep(e: Element, ts: seq<Token>, pos: nat, ctx: IfCtx, p1: nat)
    requires WfElement(e) && !e.ExprEl? && Has(ts, pos, PrintElement(e)) && p1 == pos + |PrintElement(e)|
    requires e.Text? ==> Stops(ts, p1)
    ensures ParseIfChain(ts, pos, ctx) == ParseIfChain(ts, p1, ctx.(children := ctx.children + [e]))
    decreases e, 2
  {
    hide ParseElement, ParseClassic, ParseTagChildren, ParseExprElement, ParseForChildren, ParseIfChain, ParseElements, ParseAttributes, ParseStringUntilString, PrintElement, WfElement;
    HasAt(ts, pos, PrintElement(e), 0);
    ParsePrintedElement(e, ts, pos);
    IfChainElement(ts, pos, ctx, e, p1);
  }

  /** Branches `i..` and the closer are read into the conditions, given the
      state the parser is in after branch `i - 1`. */
  lemma ChainSplit(conds: seq<Condition>, i: nat)
    requires WfChain(conds) && i < |conds|
    ensures PrintChain(conds, i) == [Header(conds, i)] + (PrintElements(conds[i].children) + PrintChain(conds, i + 1))
  {
  }

  lemma {:induction false} ParsePrintedChainTail(conds: seq<Condition>, i: nat, ts: seq<Token>, pos: nat, ctx: IfCtx)
    requires WfChain(conds) && 1 <= i <= |conds|
    requires Has(ts, pos, PrintChain(conds, i))
    requires ctx.ifReached && ctx.conditions == conds[..i - 1]
    requires ctx.expr == conds[i - 1].cond && ctx.children == conds[i - 1].children
    requires ctx.elseReached ==> forall k | i <= k < |conds| :: !conds[k].cond.TrueLiteral?
    ensures ParseIfChain(ts, pos, ctx) == Ok(Parsed(IfEl(conds), pos + |PrintChain(conds, i)|))
    decreases conds, |conds| - i, 1
  {
    hide ParseElement, ParseClassic, ParseTagChildren, ParseExprElement, ParseForChildren, ParseIfChain, ParseElements, ParseAttributes, ParseStringUntilString;
    if i == |conds| {
      HasAt(ts, pos, PrintChain(conds, i), 0);
      IfChainClose(ts, pos, ctx);
      assert conds[..i - 1] + [Condition(conds[i - 1].cond, conds[i - 1].children)] == conds;
    } else {
      var next, ctx2 := ChainBranchStep(conds, i, ts, pos, ctx);
      ParsePrintedChainTail(conds, i + 1, ts, next, ctx2);
    }
  }

  /** One `{else if}` / `{else}` branch of a printed chain: its header and
      children, leaving the parser at the next header with the branch
      pending. */
  lemma ChainBranchStep(conds: seq<Condition>, i: nat, ts: seq<Token>, pos: nat, ctx: IfCtx) returns (next: nat, ctx2: IfCtx)
    requires WfChain(conds) && 1 <= i < |conds|
    requires Has(ts, pos, PrintChain(conds, i))
    requires ctx.ifReached && ctx.conditions == conds[..i - 1]
    requires ctx.expr == conds[i - 1].cond && ctx.children == conds[i - 1].children
    requires ctx.elseReached ==> forall k | i <= k < |conds| :: !conds[k].cond.TrueLiteral?
    ensures Has(ts, next, PrintChain(conds, i + 1))
    ensures next + |PrintChain(conds, i + 1)| == pos + |PrintChain(conds, i)|
    ensures ctx2.ifReached && ctx2.conditions == conds[..i]
    ensures ctx2.expr == conds[i].cond && ctx2.children == conds[i].children
    ensures ctx2.elseReached ==> forall k | i + 1 <= k < |conds| :: !conds[k].cond.TrueLiteral?
    ensures ParseIfChain(ts, pos, ctx) == ParseIfChain(ts, next, ctx2)
    decreases conds, |conds| - i, 0
  {
    hide ParseElement, ParseClassic, ParseTagChildren, ParseExprElement, ParseForChildren, ParseIfChain, ParseElements, ParseAttributes, ParseStringUntilString;
    hide PrintChain, PrintElements, WfChain, Has, WfBranch, Header;
    ChainLayout(conds, i, ts, pos);
    BranchWf(conds, i);
    ElseOnce(conds, i, ctx.elseReached);
    var pc := PrintElements(conds[i].children);
    ChainHeaderStep(conds, i, ts, pos, ctx);
    var ctx1 := IfCtx([], conds[..i], true, ctx.elseReached || conds[i].cond.TrueLiteral?, ctx.ifSp, 0, conds[i].cond);
    ParsePrintedBranch(conds[i].children, ts, pos + 1, ctx1);
    ctx2 := ctx1.(children := ctx1.children + conds[i].children);
    assert ctx2.children == conds[i].children;
    next := pos + 1 + |pc|;
  }

  /** Where the header, the children and the later branches of branch `i`
      sit in the printed chain. */
  lemma ChainLayout(conds: seq<Condition>, i: nat, ts: seq<Token>, pos: nat)
    requires WfChain(conds) && 1 <= i < |conds|
    requires Has(ts, pos, PrintChain(conds, i))
    ensures var pc := PrintElements(conds[i].children);
            var tail := PrintChain(conds, i + 1);
            && pos < |ts| && ts[pos] == Header(conds, i)
            && Has(ts, pos + 1, pc) && Has(ts, pos + 1 + |pc|, tail)
            && IsBrace(ts, pos + 1 + |pc|)
            && pos + 1 + |pc| + |tail| == pos + |PrintChain(conds, i)|
  {
    hide PrintChain, PrintElements, Header, WfChain;
    BranchWf(conds, i);
    var pc := PrintElements(conds[i].children);
    var tail := PrintChain(conds, i + 1);
    ChainSplit(conds, i);
    assert [Header(conds, i)] + (pc + tail) == ([Header(conds, i)] + pc) + tail;
    HasSplit3(ts, pos, [Header(conds, i)], pc, tail);
    HasSplit(ts, pos + 1, pc, tail);
    HasAt(ts, pos, [Header(conds, i)], 0);
    HasAt(ts, pos + 1 + |pc|, tail, 0);
  }

  lemma BranchWf(conds: seq<Condition>, i: nat)
    requires WfChain(conds) && i < |conds|
    ensures WfBranch(conds[i].children) && WfElements(conds[i].children)
  {
  }

  /** Once an `{else}` is read, no later branch is another `{else}`. */
  lemma ElseOnce(conds: seq<Condition>, i: nat, elseReached: bool)
    requires WfChain(conds) && 1 <= i < |conds|
    requires elseReached ==> forall k | i <= k < |conds| :: !conds[k].cond.TrueLiteral?
    ensures elseReached || conds[i].cond.TrueLiteral? ==> forall k | i + 1 <= k < |conds| :: !conds[k].cond.TrueLiteral?
  {
  }

  /** One `{else if c}` or `{else}` header closes the previous branch. */
  lemma ChainHeaderStep(conds: seq<Condition>, i: nat, ts: seq<Token>, pos: nat, ctx: IfCtx)
    requires WfChain(conds) && 1 <= i < |conds| && pos < |ts| && ts[pos] == Header(conds, i)
    requires ctx.ifReached && ctx.conditions == conds[..i - 1]
    requires ctx.expr == conds[i - 1].cond && ctx.children == conds[i - 1].children
    requires ctx.elseReached ==> forall k | i <= k < |conds| :: !conds[k].cond.TrueLiteral?
    ensures ParseIfChain(ts, pos, ctx)
         == ParseIfChain(ts, pos + 1, IfCtx([], conds[..i], true, ctx.elseReached || conds[i].cond.TrueLiteral?, ctx.ifSp, 0, conds[i].cond))
  {
    hide ParseIfChain;
    assert conds[..i - 1] + [Condition(conds[i - 1].cond, conds[i - 1].children)] == conds[..i];
    if conds[i].cond.TrueLiteral? {
      IfChainElse(ts, pos, ctx);
    } else {
      assert ts[pos].inner[2..] == conds[i].cond.tokens;
      IfChainElseIf(ts, pos, ctx);
    }
  }

  lemma {:induction false} ParsePrintedElements(kids: seq<Element>, ts: seq<Token>, pos: nat)
    requires WfElements(kids) && Has(ts, pos, PrintElements(kids))
    requires pos + |PrintElements(kids)| == |ts|
    ensures ParseElements(ts, pos) == Ok(kids)
    decreases kids
  {
    hide ParseElement, ParseClassic, ParseTagChildren, ParseExprElement, ParseForChildren, ParseIfChain, ParseElements, ParseAttributes, ParseStringUntilString, PrintElements, PrintElement, WfElements, WfElement;
    if |kids| > 0 {
      SiblingsLayout(kids, ts, pos);
      var p1 := pos + |PrintElement(kids[0])|;
      FirstStops(kids, ts, pos);
      ParsePrintedElements(kids[1..], ts, p1);
      ElementsStep(kids, ts, pos, p1);
    } else {
      EmptyPrint(kids);
      ElementsNil(ts);
    }
  }

  /** The first top-level element read, then the rest. */
  lemma ElementsStep(kids: seq<Element>, ts: seq<Token>, pos: nat, p1: nat)
    requires |kids| > 0 && WfElement(kids[0]) && Has(ts, pos, PrintElement(kids[0]))
    requires p1 == pos + |PrintElement(kids[0])| && (kids[0].Text? ==> Stops(ts, p1))
    requires ParseElements(ts, p1) == Ok(kids[1..])
    ensures ParseElements(ts, pos) == Ok(kids)
  {
    hide ParseElement, ParseClassic, ParseTagChildren, ParseExprElement, ParseForChildren, ParseIfChain, ParseElements, ParseAttributes, ParseStringUntilString;
    ParsePrintedElement(kids[0], ts, pos);
    ElementsCons(ts, pos, kids[0], p1, kids[1..]);
    assert [kids[0]] + kids[1..] == kids;
  }

  /** The template parser inverts the printer on every well-formed tree. */
  lemma ParseRootPrinted(els: seq<Element>)
    requires WfElements(els)
    ensures ParseRoot(PrintElements(els)) == Ok(els)
  {
    ParsePrintedElements(els, PrintElements(els), 0);
  }
}
