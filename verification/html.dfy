/** The template parser (html/mod.rs). It reads the flat token run of a
    template into an `Element` tree: tags with attributes and children,
    comments, text runs, `{for}` blocks, `{if}`/`{else if}`/`{else}` chains
    and brace interpolations. syn's speculative `fork()` parsing becomes pure
    functions from (tokens, position) to (result, next position): a failed
    attempt simply leaves the caller's position untouched. */
module Html {
  import opened Strings
  import opened Diagnostics
  import opened Tokens

  /** A host-language expression, kept as the token run it was parsed from.
      The `{else}` branch receives the literal `true`. */
  datatype HostExpr = HostExpr(tokens: seq<Token>) | TrueLiteral

  /** A host-language block `{ ... }`, kept as its brace group. */
  datatype HostBlock = HostBlock(group: Token)

  /** `for <pat> in <iter>`, with the span of the `for` keyword. */
  datatype ForHeader = ForHeader(forSp: nat, pat: seq<Token>, iter: HostExpr)

  /** `AttrExprType`. */
  datatype AttrValue = StrValue(s: string) | IdentValue(x: string, sp: nat) | BlockValue(block: HostBlock)

  datatype Attribute = Attribute(namespace: string, name: string, value: AttrValue)

  datatype Condition = Condition(cond: HostExpr, children: seq<Element>)

  datatype ExprElement =
    | ForEl(header: ForHeader, children: seq<Element>)
    | IfEl(conditions: seq<Condition>)
    | BlockEl(block: HostBlock)
    | IdentEl(x: string, sp: nat)
    | LitEl(s: string)

  datatype Element =
    | Classic(name: string, attrs: seq<Attribute>, children: seq<Element>)
    | ExprEl(e: ExprElement)
    | Comment(text: string)
    | Text(text: string)

  /** A parse result together with the position of the first unconsumed token. */
  datatype Parsed<T> = Parsed(value: T, next: nat)

  /** The location a syn error at cursor position `pos` points to. */
  function LocAt(ts: seq<Token>, pos: nat): Loc
  {
    if pos < |ts| then At(ts[pos].sp) else EndOfInput
  }

  /** A location inside a group's contents; past their end syn reports the
      group's closing delimiter, modelled by the group's own span. */
  function InnerLoc(inner: seq<Token>, i: nat, groupSp: nat): Loc
  {
    if i < |inner| then At(inner[i].sp) else At(groupSp)
  }

  // ---------------------------------------------------------------------
  // Attributes

  /** `Punctuated::<Ident, Token![-]>::parse_separated_nonempty_with(input,
      Ident::parse_any)`: one or more identifiers (keywords allowed)
      separated by `-`. A trailing `-` is an error. */
  function ParseSegments(ts: seq<Token>, pos: nat): (r: Result<Parsed<seq<string>>>)
    requires pos <= |ts|
    ensures r.Ok? ==> pos < r.value.next <= |ts| && |r.value.value| >= 1
    ensures r.Ok? ==> IsAnyIdent(ts, pos) && r.value.value[0] == ts[pos].name
    ensures !IsAnyIdent(ts, pos) ==> r == Err(Single(LocAt(ts, pos), ExpectedIdent))
    decreases |ts| - pos
  {
    if !IsAnyIdent(ts, pos) then Err(Single(LocAt(ts, pos), ExpectedIdent))
    else if IsPunct(ts, pos + 1, '-') then
      var rest :- ParseSegments(ts, pos + 2);
      Ok(Parsed([ts[pos].name] + rest.value, rest.next))
    else Ok(Parsed([ts[pos].name], pos + 1))
  }

  /** `ident_in_brace`: a brace group holding exactly one identifier (any
      identifier, keywords included, as syn's cursor does not filter them). */
  function IdentInBrace(ts: seq<Token>, pos: nat): Option<(string, nat)>
  {
    if IsBrace(ts, pos) && |ts[pos].inner| == 1 && ts[pos].inner[0].Ident?
    then Some((ts[pos].inner[0].name, ts[pos].inner[0].sp))
    else None
  }

  /** `lit_in_brace`: a brace group holding exactly one string literal. */
  function LitInBrace(ts: seq<Token>, pos: nat): Option<string>
  {
    if IsBrace(ts, pos) && |ts[pos].inner| == 1 && IsStrLit(ts[pos].inner, 0)
    then Some(ts[pos].inner[0].lit.value)
    else None
  }

  /** The value part of `Attribute::parse`: `="lit"`, `=ident`, `={ident}`,
      `={block}`, or nothing. */
  function ParseAttrValue(ts: seq<Token>, pos: nat): (r: Result<Parsed<AttrValue>>)
    requires pos <= |ts|
    ensures r.Ok? ==> pos <= r.value.next <= |ts|
    ensures !IsPunct(ts, pos, '=') ==> r == Ok(Parsed(StrValue(""), pos))
    ensures IsPunct(ts, pos, '=') && IsStrLit(ts, pos + 1)
      ==> r == Ok(Parsed(StrValue(ts[pos + 1].lit.value), pos + 2))
    ensures IsPunct(ts, pos, '=') && IsPlainIdent(ts, pos + 1)
      ==> r == Ok(Parsed(StrValue(ts[pos + 1].name), pos + 2))
    ensures IsPunct(ts, pos, '=') && IsBrace(ts, pos + 1) ==>
      r.Ok? && r.value.next == pos + 2 &&
      (r.value.value.IdentValue? <==> |ts[pos + 1].inner| == 1 && ts[pos + 1].inner[0].Ident?) &&
      (r.value.value.IdentValue? ==> r.value.value == IdentValue(ts[pos + 1].inner[0].name, ts[pos + 1].inner[0].sp)) &&
      (!r.value.value.IdentValue? ==> r.value.value == BlockValue(HostBlock(ts[pos + 1])))
    ensures r.Err? <==>
      IsPunct(ts, pos, '=') && !IsStrLit(ts, pos + 1) && !IsPlainIdent(ts, pos + 1) && !IsBrace(ts, pos + 1)
  {
    if !IsPunct(ts, pos, '=') then Ok(Parsed(StrValue(""), pos))
    else
      var q := pos + 1;
      if IsStrLit(ts, q) then Ok(Parsed(StrValue(ts[q].lit.value), q + 1))
      else if IsPlainIdent(ts, q) then Ok(Parsed(StrValue(ts[q].name), q + 1))
      else match IdentInBrace(ts, q)
        case Some(id) => Ok(Parsed(IdentValue(id.0, id.1), q + 1))
        case None =>
          if IsBrace(ts, q) then Ok(Parsed(BlockValue(HostBlock(ts[q])), q + 1))
          else Err(Single(LocAt(ts, q), BlockError))
  }

  /** `Attribute::parse`: `ns-seg*[:name-seg*][=value]`. Without `:` the
      namespace is empty and the name is the FIRST segment only; with `:` the
      namespace is the first segment before it and the name prints all
      segments after it as `a - b`. */
  function ParseAttribute(ts: seq<Token>, pos: nat): (r: Result<Parsed<Attribute>>)
    requires pos <= |ts|
    ensures r.Ok? ==> pos < r.value.next <= |ts|
    ensures r.Ok? ==> IsAnyIdent(ts, pos) && ParseSegments(ts, pos).Ok?
    ensures r.Ok? && !IsPunct(ts, ParseSegments(ts, pos).value.next, ':')
      ==> r.value.value.namespace == "" && r.value.value.name == ts[pos].name
    ensures r.Ok? && IsPunct(ts, ParseSegments(ts, pos).value.next, ':')
      ==> r.value.value.namespace == ts[pos].name
    ensures ParseSegments(ts, pos).Ok? && !IsPunct(ts, ParseSegments(ts, pos).value.next, ':') ==>
      var v := ParseAttrValue(ts, ParseSegments(ts, pos).value.next);
      (r.Ok? <==> v.Ok?) && (r.Ok? ==> r.value.value.value == v.value.value && r.value.next == v.value.next)
    ensures ParseSegments(ts, pos).Ok? && IsPunct(ts, ParseSegments(ts, pos).value.next, ':') ==>
      var nm := ParseSegments(ts, ParseSegments(ts, pos).value.next + 1);
      (r.Ok? <==> nm.Ok? && ParseAttrValue(ts, nm.value.next).Ok?) &&
      (r.Ok? ==>
         && r.value.value.name == Join(nm.value.value, " - ")
         && r.value.value.value == ParseAttrValue(ts, nm.value.next).value.value
         && r.value.next == ParseAttrValue(ts, nm.value.next).value.next)
  {
    var ns :- ParseSegments(ts, pos);
    if IsPunct(ts, ns.next, ':') then
      var nm :- ParseSegments(ts, ns.next + 1);
      var v :- ParseAttrValue(ts, nm.next);
      Ok(Parsed(Attribute(ns.value[0], Join(nm.value, " - "), v.value), v.next))
    else
      var v :- ParseAttrValue(ts, ns.next);
      Ok(Parsed(Attribute("", ns.value[0], v.value), v.next))
  }

  /** The attribute loop of `Classic::parse`: attributes until `>` or `/>`. */
  function ParseAttributes(ts: seq<Token>, pos: nat): (r: Result<Parsed<seq<Attribute>>>)
    requires pos <= |ts|
    ensures r.Ok? ==> pos <= r.value.next <= |ts|
    ensures r.Ok? ==> IsPunct(ts, r.value.next, '>') || IsPunct2(ts, r.value.next, '/', '>')
    decreases |ts| - pos
  {
    if IsPunct(ts, pos, '>') || IsPunct2(ts, pos, '/', '>') then Ok(Parsed([], pos))
    else
      var a :- ParseAttribute(ts, pos);
      var rest :- ParseAttributes(ts, a.next);
      Ok(Parsed([a.value] + rest.value, rest.next))
  }

  // ---------------------------------------------------------------------
  // Token scanning

  /** `target` occurs at position `i` as consecutive punctuation characters. */
  predicate PunctWindow(ts: seq<Token>, i: nat, target: string)
  {
    i + |target| <= |ts| && forall k :: 0 <= k < |target| ==> PunctIs(ts[i + k], target[k])
  }

  /** Token `t` is the punctuation character `c`. */
  predicate PunctIs(t: Token, c: char)
  {
    t.Punct? && t.ch == c
  }

  /** A partial match of the first `m` characters extends by one token. */
  lemma ExtendWindow(ts: seq<Token>, start: nat, target: string, m: nat)
    requires m < |target| && start + m < |ts|
    requires PunctWindow(ts, start, target[..m])
    requires ts[start + m].Punct? && ts[start + m].ch == target[m]
    ensures PunctWindow(ts, start, target[..m + 1])
  {
    var shorter, longer := target[..m], target[..m + 1];
    forall k | 0 <= k < |longer|
      ensures PunctIs(ts[start + k], longer[k])
    {
      if k < m {
        assert longer[k] == shorter[k];
      } else {
        assert longer[k] == target[m];
      }
    }
  }

  /** The matching loop of `parse_string_until_string` as written: `m`
      characters of `target` are matched so far. A token that does not
      continue the match resets `m` to 0 without being examined again, so an
      occurrence overlapping a failed partial match is missed. The result is
      the position just after the token completing the match. */
  function ScanAsWritten(ts: seq<Token>, pos: nat, target: string, m: nat): (r: Option<nat>)
    requires m < |target| && pos <= |ts|
    requires m <= pos && PunctWindow(ts, pos - m, target[..m])
    ensures r.Some? ==> pos < r.value <= |ts| && r.value >= |target|
    ensures r.Some? ==> PunctWindow(ts, r.value - |target|, target)
    decreases |ts| - pos
  {
    if pos == |ts| then None
    else if ts[pos].Punct? && ts[pos].ch == target[m] then
      ExtendWindow(ts, pos - m, target, m);
      if m + 1 == |target| then
        assert target[..m + 1] == target;
        Some(pos + 1)
      else
        ScanAsWritten(ts, pos + 1, target, m + 1)
    else ScanAsWritten(ts, pos + 1, target, 0)
  }

  /** The scan `parse_string_until_string` evidently intends: the position
      just after the first occurrence of `target`, if any. */
  function FindTarget(ts: seq<Token>, pos: nat, target: string): (r: Option<nat>)
    requires |target| > 0 && pos <= |ts|
    ensures r.Some? ==> pos + |target| <= r.value <= |ts| && PunctWindow(ts, r.value - |target|, target)
    ensures r.Some? ==> forall i :: pos <= i < r.value - |target| ==> !PunctWindow(ts, i, target)
    ensures r.None? <==> forall i :: pos <= i ==> !PunctWindow(ts, i, target)
    decreases |ts| - pos
  {
    if pos + |target| > |ts| then None
    else if PunctWindow(ts, pos, target) then Some(pos + |target|)
    else FindTarget(ts, pos + 1, target)
  }

  /** For a one-character target no partial match can fail, and the scan as
      written finds the first occurrence. */
  lemma {:induction false} ScanAgreesOnOneChar(ts: seq<Token>, pos: nat, c: char)
    requires pos <= |ts|
    ensures ScanAsWritten(ts, pos, [c], 0) == FindTarget(ts, pos, [c])
    decreases |ts| - pos
  {
    assert [c][..0] == "";
    if pos < |ts| && !(ts[pos].Punct? && ts[pos].ch == c) {
      assert !PunctWindow(ts, pos, [c]) by { assert [c][0] == c && pos + 0 == pos; }
      ScanAgreesOnOneChar(ts, pos + 1, c);
    }
  }

  /** The tokens of the empty comment `<!---->`. */
  function EmptyComment(): (ts: seq<Token>)
    ensures |ts| == 7
  {
    [Punct('<', false, 0), Punct('!', false, 0), Punct('-', false, 0), Punct('-', false, 0),
     Punct('-', false, 0), Punct('-', false, 0), Punct('>', false, 0)]
  }

  /** The scan as written misses the end of `<!---->`: the third `-` breaks
      the partial match `--` and is dropped, so the `-->` starting at it is
      never seen. The corrected scan ends after the last token. */
  lemma EmptyCommentMissed()
    ensures ScanAsWritten(EmptyComment(), 0, "-->", 0) == None
    ensures FindTarget(EmptyComment(), 0, "-->") == Some(7)
  {
    var ts := EmptyComment();
    assert ScanAsWritten(ts, 7, "-->", 0) == None;
    assert ScanAsWritten(ts, 6, "-->", 1) == None;
    assert PunctWindow(ts, 4, "-->"[..1]);
    assert ScanAsWritten(ts, 5, "-->", 0) == None;
    assert ScanAsWritten(ts, 4, "-->", 2) == None;
    assert PunctWindow(ts, 2, "-->"[..2]);
    assert ScanAsWritten(ts, 3, "-->", 1) == None;
    assert ScanAsWritten(ts, 2, "-->", 0) == None;
    assert ScanAsWritten(ts, 1, "-->", 0) == None;
    assert PunctWindow(ts, 4, "-->");
    assert !PunctWindow(ts, 3, "-->") by { assert ts[5].ch != "-->"[2]; }
    assert !PunctWindow(ts, 2, "-->") by { assert ts[4].ch != "-->"[2]; }
    assert !PunctWindow(ts, 1, "-->") by { assert ts[1].ch != "-->"[0]; }
    assert !PunctWindow(ts, 0, "-->") by { assert ts[0].ch != "-->"[0]; }
    assert FindTarget(ts, 4, "-->") == Some(7);
    assert FindTarget(ts, 2, "-->") == Some(7);
  }

  /** `parse_string_until_string` (with the corrected scan): the concatenated
      texts of the tokens up to and including the first occurrence of
      `target`; an error at the starting token when there is none. */
  function ParseStringUntilString(ts: seq<Token>, pos: nat, target: string): (r: Result<Parsed<string>>)
    requires |target| > 0 && pos <= |ts|
    ensures r.Ok? ==> pos + |target| <= r.value.next <= |ts|
    ensures r.Ok? ==> r.value.value == JoinedText(ts[pos..r.value.next])
    ensures r.Ok? ==> PunctWindow(ts, r.value.next - |target|, target)
    ensures r.Ok? ==> forall i :: pos <= i < r.value.next - |target| ==> !PunctWindow(ts, i, target)
    ensures r.Err? <==> forall i :: pos <= i ==> !PunctWindow(ts, i, target)
    ensures r.Err? ==> r.failure == Single(LocAt(ts, pos), TargetNotFound(target))
  {
    match FindTarget(ts, pos, target)
    case None => Err(Single(LocAt(ts, pos), TargetNotFound(target)))
    case Some(e) => Ok(Parsed(JoinedText(ts[pos..e]), e))
  }

  /** `parse_text_element`: the concatenated texts of the tokens before the
      next `<` punctuation or brace group. */
  function ParseText(ts: seq<Token>, pos: nat): (r: Parsed<string>)
    requires pos <= |ts|
    ensures pos <= r.next <= |ts|
    ensures r.value == JoinedText(ts[pos..r.next])
    ensures r.next == |ts| || IsPunct(ts, r.next, '<') || IsBrace(ts, r.next)
    ensures forall i :: pos <= i < r.next ==> !IsPunct(ts, i, '<') && !IsBrace(ts, i)
    decreases |ts| - pos
  {
    if pos == |ts| || IsPunct(ts, pos, '<') || IsBrace(ts, pos) then Parsed("", pos)
    else
      var rest := ParseText(ts, pos + 1);
      assert ts[pos..rest.next] == [ts[pos]] + ts[pos + 1..rest.next];
      Parsed(TokenText(ts[pos]) + rest.value, rest.next)
  }

  /** A literal in a text run keeps the form it was written in: escapes and
      raw-string prefixes reach the generated text unchanged, not its value. */
  lemma ParseTextKeepsLiteralAsWritten(l: Lit, sp: nat, rest: seq<Token>)
    requires IsBrace(rest, 0) || IsPunct(rest, 0, '<')
    ensures var r := ParseText([Literal(l, sp)] + rest, 0); r.value == l.repr && r.next == 1
  {
  }

  /** `check_tag_name`. */
  function CheckTagName(name: string, nameSp: nat, closeName: string, closeSp: nat): (r: Result<()>)
    ensures r.Ok? <==> closeName == name
    ensures r.Err? ==> r.failure == Diagnostic([Marker(At(closeSp), ClosingNameMismatch), Marker(At(nameSp), NoClosingMatch)])
  {
    if closeName != name
    then Err(Pair(At(closeSp), ClosingNameMismatch, At(nameSp), NoClosingMatch))
    else Ok(())
  }

  // ---------------------------------------------------------------------
  // Control-flow headers

  /** The first position at or after `from` holding the keyword `kw`, or `|ts|`. */
  function FindKw(ts: seq<Token>, from: nat, kw: string): (k: nat)
    requires from <= |ts|
    ensures from <= k <= |ts|
    ensures k < |ts| ==> IsKw(ts, k, kw)
    ensures forall i :: from <= i < k ==> !IsKw(ts, i, kw)
    decreases |ts| - from
  {
    if from == |ts| || IsKw(ts, from, kw) then from else FindKw(ts, from + 1, kw)
  }

  /** A host expression made of the rest of a header, which must not be empty. */
  function ExprFrom(inner: seq<Token>, from: nat, groupSp: nat, msg: Msg): (r: Result<HostExpr>)
  {
    if from < |inner| then Ok(HostExpr(inner[from..]))
    else Err(Single(InnerLoc(inner, from, groupSp), msg))
  }

  /** `ForLoopWithoutBlock::parse` on the contents of `{for pat in iter}`. */
  function ParseForHeader(inner: seq<Token>, groupSp: nat): (r: Result<ForHeader>)
    requires IsKw(inner, 0, "for")
  {
    var k := FindKw(inner, 1, "in");
    if k == 1 then Err(Single(InnerLoc(inner, 1, groupSp), ExpectedPattern))
    else if k == |inner| then Err(Single(InnerLoc(inner, k, groupSp), ExpectedKeyword("in")))
    else
      var iter :- ExprFrom(inner, k + 1, groupSp, ExpectedExpression);
      Ok(ForHeader(inner[0].sp, inner[1..k], iter))
  }

  /** `IfChildrenCtx`: the state of an `{if}` chain being collected. */
  datatype IfCtx = IfCtx(
    children: seq<Element>,
    conditions: seq<Condition>,
    ifReached: bool,
    elseReached: bool,
    ifSp: nat,
    nameSp: nat,
    expr: HostExpr)

  /** `IfChildrenCtx::new`, on the contents of the opening `{if cond}`. */
  function NewIfCtx(inner: seq<Token>, groupSp: nat): (r: Result<IfCtx>)
    requires IsKw(inner, 0, "if")
  {
    var e :- ExprFrom(inner, 1, groupSp, ExpectedExpression);
    Ok(IfCtx([], [], false, false, inner[0].sp, inner[0].sp, e))
  }

  /** `create_previous_condition`: close the open branch. */
  function CreatePreviousCondition(ctx: IfCtx): (c: IfCtx)
  {
    ctx.(conditions := ctx.conditions + [Condition(ctx.expr, ctx.children)], children := [])
  }

  // ---------------------------------------------------------------------
  // Elements. The measure is the number of tokens left, then a rank that
  // orders the calls made without consuming anything.

  /** `Element::parse`. */
  function ParseElement(ts: seq<Token>, pos: nat): (r: Result<Parsed<Element>>)
    requires pos <= |ts|
    ensures r.Ok? ==> pos < r.value.next <= |ts|
    ensures IsPunct(ts, pos, '<') && IsPunct(ts, pos + 1, '/') ==> r == Err(Single(At(ts[pos].sp), InnerError))
    ensures r.Ok? ==> (r.value.value.Comment? <==> IsPunct(ts, pos, '<') && IsPunct(ts, pos + 1, '!'))
    ensures r.Ok? ==> (r.value.value.Classic? ==> IsPunct(ts, pos, '<'))
    ensures r.Ok? ==> (r.value.value.ExprEl? <==> IsBrace(ts, pos))
    ensures r.Ok? ==> (r.value.value.Text? <==> !IsPunct(ts, pos, '<') && !IsBrace(ts, pos))
    ensures r.Ok? && r.value.value.Text? ==> r.value.value.text != ""
    decreases |ts| - pos, if IsBrace(ts, pos) then 4 else 1
  {
    if IsPunct(ts, pos, '<') then
      if IsPunct(ts, pos + 1, '!') then
        var c :- ParseStringUntilString(ts, pos, "-->");
        Ok(Parsed(Comment(c.value), c.next))
      else if IsPunct(ts, pos + 1, '/') then Err(Single(LocAt(ts, pos), InnerError))
      else ParseClassic(ts, pos)
    else
      var t := ParseText(ts, pos);
      if t.value == "" then
        var e :- ParseExprElement(ts, pos);
        Ok(Parsed(ExprEl(e.value), e.next))
      else
        JoinedTextEmpty(ts[pos..t.next]);
        Ok(Parsed(Text(t.value), t.next))
  }

  /** `Classic::parse`: `<name attrs/>` or `<name attrs>children</name>`. */
  function ParseClassic(ts: seq<Token>, pos: nat): (r: Result<Parsed<Element>>)
    requires pos <= |ts| && IsPunct(ts, pos, '<')
    ensures r.Ok? ==> pos < r.value.next <= |ts| && r.value.value.Classic?
    ensures r.Ok? ==> IsPlainIdent(ts, pos + 1) && r.value.value.name == ts[pos + 1].name
    ensures r.Ok? ==>
      var n := r.value.next;
      (n >= pos + 4 && IsPunct2(ts, n - 2, '/', '>') && r.value.value.children == []) ||
      (n >= pos + 7 && IsPunct2(ts, n - 4, '<', '/') && IsPlainIdent(ts, n - 2) &&
       ts[n - 2].name == r.value.value.name && IsPunct(ts, n - 1, '>'))
    decreases |ts| - pos, 0
  {
    var p := pos + 1;
    if FindTarget(ts, p, ">").None? then Err(Single(LocAt(ts, p), TargetNotFound(">")))
    else if !IsPlainIdent(ts, p) then Err(Single(LocAt(ts, p), CantParseIdent))
    else
      var name := ts[p].name;
      var attrs :- ParseAttributes(ts, p + 1);
      var q := attrs.next;
      if IsPunct2(ts, q, '/', '>') then Ok(Parsed(Classic(name, attrs.value, []), q + 2))
      else
        var children :- ParseTagChildren(ts, q + 1);
        var c := children.next;
        if !IsPlainIdent(ts, c + 2) then Err(Single(LocAt(ts, c + 2), ExpectedIdent))
        else
          var ok :- CheckTagName(name, ts[p].sp, ts[c + 2].name, ts[c + 2].sp);
          if !IsPunct(ts, c + 3, '>') then Err(Single(LocAt(ts, c + 3), ExpectedPunct('>')))
          else Ok(Parsed(Classic(name, attrs.value, children.value), c + 4))
  }

  /** The children loop of `Classic::parse`: elements until `</`. The result
      position is that of the `</`. */
  function ParseTagChildren(ts: seq<Token>, pos: nat): (r: Result<Parsed<seq<Element>>>)
    requires pos <= |ts|
    ensures r.Ok? ==> pos <= r.value.next && IsPunct2(ts, r.value.next, '<', '/')
    decreases |ts| - pos, 5
  {
    if IsPunct2(ts, pos, '<', '/') then Ok(Parsed([], pos))
    else
      var e :- ParseElement(ts, pos);
      var rest :- ParseTagChildren(ts, e.next);
      Ok(Parsed([e.value] + rest.value, rest.next))
  }

  /** `ExprElement::parse`, on a brace group at `pos`. */
  function ParseExprElement(ts: seq<Token>, pos: nat): (r: Result<Parsed<ExprElement>>)
    requires pos <= |ts|
    ensures r.Ok? ==> pos < r.value.next <= |ts|
    ensures !IsBrace(ts, pos) ==> r == Err(Single(LocAt(ts, pos), ExpectedBrace))
    ensures r.Ok? ==> IsBrace(ts, pos)
    ensures r.Ok? ==>
      var inner := ts[pos].inner;
      (r.value.value.ForEl? <==> IsKw(inner, 0, "for")) &&
      (r.value.value.IfEl? <==> IsKw(inner, 0, "if")) &&
      (r.value.value.IdentEl? <==> |inner| == 1 && inner[0].Ident?) &&
      (r.value.value.LitEl? <==> |inner| == 1 && IsStrLit(inner, 0)) &&
      (r.value.value.BlockEl? ==> r.value.value.block == HostBlock(ts[pos]) && r.value.next == pos + 1)
    decreases |ts| - pos, if IsBrace(ts, pos) then 3 else 0
  {
    if !IsBrace(ts, pos) then Err(Single(LocAt(ts, pos), ExpectedBrace))
    else
      var g := ts[pos];
      if IsKw(g.inner, 0, "for") then
        var header :- ParseForHeader(g.inner, g.sp);
        var body :- ParseForChildren(ts, pos + 1, header.forSp);
        Ok(Parsed(ForEl(header, body.value), body.next))
      else if IsKw(g.inner, 0, "if") then
        var ctx :- NewIfCtx(g.inner, g.sp);
        ParseIfChain(ts, pos, ctx)
      else match IdentInBrace(ts, pos)
        case Some(id) => Ok(Parsed(IdentEl(id.0, id.1), pos + 1))
        case None => match LitInBrace(ts, pos)
          case Some(s) => Ok(Parsed(LitEl(s), pos + 1))
          case None => Ok(Parsed(BlockEl(HostBlock(g)), pos + 1))
  }

  /** The children loop of a `{for}` block: elements and brace elements until
      a brace starting with `/`, which must be `{/for}`. */
  function ParseForChildren(ts: seq<Token>, pos: nat, forSp: nat): (r: Result<Parsed<seq<Element>>>)
    requires pos <= |ts|
    ensures r.Ok? ==> pos < r.value.next <= |ts|
    ensures IsBrace(ts, pos) && IsPunct(ts[pos].inner, 0, '/') ==>
      if IsKw(ts[pos].inner, 1, "for") then r == Ok(Parsed([], pos + 1))
      else r == Err(Pair(At(forSp), ClosingNameMismatch, InnerLoc(ts[pos].inner, 1, ts[pos].sp), NoClosingMatch))
    decreases |ts| - pos, 5
  {
    if IsBrace(ts, pos) then
      var g := ts[pos];
      if IsPunct(g.inner, 0, '/') then
        if IsKw(g.inner, 1, "for") then Ok(Parsed([], pos + 1))
        else Err(Pair(At(forSp), ClosingNameMismatch, InnerLoc(g.inner, 1, g.sp), NoClosingMatch))
      else
        var e :- ParseExprElement(ts, pos);
        var rest :- ParseForChildren(ts, e.next, forSp);
        Ok(Parsed([ExprEl(e.value)] + rest.value, rest.next))
    else
      var e :- ParseElement(ts, pos);
      var rest :- ParseForChildren(ts, e.next, forSp);
      Ok(Parsed([e.value] + rest.value, rest.next))
  }

  /** The loop of the `if` branch of `ExprElement::parse`. The opening
      `{if cond}` is not consumed before the loop, so the first iteration
      meets it again and sets `if_reached`. */
  function ParseIfChain(ts: seq<Token>, pos: nat, ctx: IfCtx): (r: Result<Parsed<ExprElement>>)
    requires pos <= |ts|
    ensures r.Ok? ==> pos < r.value.next <= |ts| && r.value.value.IfEl?
    ensures r.Ok? ==> |r.value.value.conditions| > |ctx.conditions|
    ensures r.Ok? ==> r.value.value.conditions[..|ctx.conditions|] == ctx.conditions
    ensures ctx.ifReached && IsBrace(ts, pos) && IsKw(ts[pos].inner, 0, "if")
      ==> r == Err(Pair(At(ctx.ifSp), ConsiderCloseIf, At(ts[pos].inner[0].sp), IfAfterOpenIf))
    ensures ctx.elseReached && IsBrace(ts, pos) && IsKw(ts[pos].inner, 0, "else") && !IsKw(ts[pos].inner, 1, "if")
      ==> r == Err(Pair(At(ctx.nameSp), ElseAfterElse, At(ts[pos].inner[0].sp), RemoveElse))
    ensures IsBrace(ts, pos) && IsPunct(ts[pos].inner, 0, '/') && !IsKw(ts[pos].inner, 1, "if")
      ==> r == Err(Pair(At(ctx.ifSp), ClosingNameMismatch, InnerLoc(ts[pos].inner, 1, ts[pos].sp), NoClosingMatch))
    ensures IsBrace(ts, pos) && !IsPunct(ts[pos].inner, 0, '/') && !IsKw(ts[pos].inner, 0, "if") && !IsKw(ts[pos].inner, 0, "else")
      ==> r == Err(Pair(At(ctx.ifSp), IfMustClose, InnerLoc(ts[pos].inner, 0, ts[pos].sp), InsertCloseIf))
    decreases |ts| - pos, 2
  {
    if IsBrace(ts, pos) then
      var g := ts[pos];
      var inner := g.inner;
      if IsPunct(inner, 0, '/') then
        if !IsKw(inner, 1, "if")
        then Err(Pair(At(ctx.ifSp), ClosingNameMismatch, InnerLoc(inner, 1, g.sp), NoClosingMatch))
        else Ok(Parsed(IfEl(CreatePreviousCondition(ctx).conditions), pos + 1))
      else if IsKw(inner, 0, "if") then
        if ctx.ifReached then Err(Pair(At(ctx.ifSp), ConsiderCloseIf, At(inner[0].sp), IfAfterOpenIf))
        else
          var e :- ExprFrom(inner, 1, g.sp, ExpressionRequired);
          ParseIfChain(ts, pos + 1, ctx.(nameSp := inner[0].sp, ifReached := true, expr := e))
      else if IsKw(inner, 0, "else") && IsKw(inner, 1, "if") then
        if !ctx.ifReached then Err(Single(At(inner[0].sp), ElseIfWithoutIf))
        else
          var c := CreatePreviousCondition(ctx).(nameSp := inner[0].sp);
          var e :- ExprFrom(inner, 2, g.sp, ExpressionRequired);
          ParseIfChain(ts, pos + 1, c.(expr := e))
      else if IsKw(inner, 0, "else") then
        if ctx.elseReached then Err(Pair(At(ctx.nameSp), ElseAfterElse, At(inner[0].sp), RemoveElse))
        else if !ctx.ifReached then Err(Single(At(inner[0].sp), ElseWithoutIf))
        else
          var c := CreatePreviousCondition(ctx.(nameSp := inner[0].sp, elseReached := true));
          ParseIfChain(ts, pos + 1, c.(expr := TrueLiteral))
      else Err(Pair(At(ctx.ifSp), IfMustClose, InnerLoc(inner, 0, g.sp), InsertCloseIf))
    else
      var e :- ParseElement(ts, pos);
      ParseIfChain(ts, e.next, ctx.(children := ctx.children + [e.value]))
  }

  // ---------------------------------------------------------------------
  // Root

  /** The loop of `Root::parse`: elements until the input is exhausted. */
  function ParseElements(ts: seq<Token>, pos: nat): (r: Result<seq<Element>>)
    requires pos <= |ts|
    decreases |ts| - pos
  {
    if pos == |ts| then Ok([])
    else
      var e :- ParseElement(ts, pos);
      var rest :- ParseElements(ts, e.next);
      Ok([e.value] + rest)
  }

  /** `Root::parse`. */
  function ParseRoot(ts: seq<Token>): Result<seq<Element>>
  {
    ParseElements(ts, 0)
  }
}
