/** The identifier validator (check.rs): every `{x}` interpolation and every
    `attr={x}` attribute must name a state, except `on:event={f}`, which must
    name an event closure. Only the children of tags are searched. */
module Check {
  import opened Diagnostics
  import opened Html
  import opened StateBlock

  /** One lookup the validator performs. */
  datatype Lookup = InEvents(x: string, sp: nat) | InStates(x: string, sp: nat)

  /** `check_ident_expr_attrs`: the attributes in order, stopping at the
      first name that does not resolve. */
  function CheckAttrs(attrs: seq<Attribute>, d: LocalDetails): (r: Result<()>)
  {
    if |attrs| == 0 then Ok(())
    else
      var a := attrs[0];
      var _ :- match a.value
        case IdentValue(x, sp) =>
          if a.namespace == "on" then EventsContainsIdent(d, x, sp) else StatesContainsIdent(d, x, sp)
        case _ => Ok(());
      CheckAttrs(attrs[1..], d)
  }

  /** `check_ident_expr`: a tag's attributes, then its children; a
      `{x}` interpolation; nothing else. */
  function CheckIdentExpr(els: seq<Element>, d: LocalDetails): (r: Result<()>)
  {
    if |els| == 0 then Ok(())
    else
      var _ :- CheckElement(els[0], d);
      CheckIdentExpr(els[1..], d)
  }

  function CheckElement(e: Element, d: LocalDetails): (r: Result<()>)
  {
    match e
    case Classic(_, attrs, children) =>
      var _ :- CheckAttrs(attrs, d);
      CheckIdentExpr(children, d)
    case ExprEl(IdentEl(x, sp)) => StatesContainsIdent(d, x, sp)
    case _ => Ok(())
  }

  // ---------------------------------------------------------------------
  // Reference: the lookups in visiting order, and the first one that fails

  function AttrLookups(attrs: seq<Attribute>): seq<Lookup>
  {
    if |attrs| == 0 then []
    else
      var a := attrs[0];
      (match a.value
       case IdentValue(x, sp) => if a.namespace == "on" then [InEvents(x, sp)] else [InStates(x, sp)]
       case _ => []) + AttrLookups(attrs[1..])
  }

  function Lookups(els: seq<Element>): seq<Lookup>
  {
    if |els| == 0 then [] else ElementLookups(els[0]) + Lookups(els[1..])
  }

  function ElementLookups(e: Element): seq<Lookup>
  {
    match e
    case Classic(_, attrs, children) => AttrLookups(attrs) + Lookups(children)
    case ExprEl(IdentEl(x, sp)) => [InStates(x, sp)]
    case _ => []
  }

  predicate Resolves(l: Lookup, d: LocalDetails)
  {
    match l
    case InEvents(x, _) => exists i | 0 <= i < |d.eventsClosures| :: d.eventsClosures[i].ident == x
    case InStates(x, _) => exists i | 0 <= i < |d.states| :: d.states[i].ident == x
  }

  function Complaint(l: Lookup): Failure
  {
    match l
    case InEvents(_, sp) => Single(At(sp), NotInEvents)
    case InStates(_, sp) => Single(At(sp), NotInStates)
  }

  /** The outcome of performing the lookups in order. */
  function FirstUnresolved(ls: seq<Lookup>, d: LocalDetails): (r: Result<()>)
    ensures r.Ok? <==> forall i | 0 <= i < |ls| :: Resolves(ls[i], d)
  {
    if |ls| == 0 then Ok(())
    else if !Resolves(ls[0], d) then Err(Complaint(ls[0]))
    else FirstUnresolved(ls[1..], d)
  }

  lemma {:induction false} FirstUnresolvedAppend(a: seq<Lookup>, b: seq<Lookup>, d: LocalDetails)
    ensures FirstUnresolved(a + b, d)
         == (if FirstUnresolved(a, d).Err? then FirstUnresolved(a, d) else FirstUnresolved(b, d))
  {
    if |a| > 0 {
      assert (a + b)[1..] == a[1..] + b;
      FirstUnresolvedAppend(a[1..], b, d);
    } else {
      assert a + b == b;
    }
  }

  lemma {:induction false} CheckAttrsIsFirstUnresolved(attrs: seq<Attribute>, d: LocalDetails)
    ensures CheckAttrs(attrs, d) == FirstUnresolved(AttrLookups(attrs), d)
  {
    if |attrs| > 0 {
      var a := attrs[0];
      var head := match a.value
        case IdentValue(x, sp) => if a.namespace == "on" then [InEvents(x, sp)] else [InStates(x, sp)]
        case _ => [];
      FirstUnresolvedAppend(head, AttrLookups(attrs[1..]), d);
      CheckAttrsIsFirstUnresolved(attrs[1..], d);
    }
  }

  /** The validator performs exactly the lookups of `Lookups`, in order, and
      reports the first that fails. */
  lemma {:induction false} CheckIsFirstUnresolved(els: seq<Element>, d: LocalDetails)
    ensures CheckIdentExpr(els, d) == FirstUnresolved(Lookups(els), d)
    decreases els
  {
    if |els| > 0 {
      CheckElementIsFirstUnresolved(els[0], d);
      CheckIsFirstUnresolved(els[1..], d);
      FirstUnresolvedAppend(ElementLookups(els[0]), Lookups(els[1..]), d);
    }
  }

  lemma {:induction false} CheckElementIsFirstUnresolved(e: Element, d: LocalDetails)
    ensures CheckElement(e, d) == FirstUnresolved(ElementLookups(e), d)
    decreases e
  {
    match e
    case Classic(_, attrs, children) =>
      CheckAttrsIsFirstUnresolved(attrs, d);
      CheckIsFirstUnresolved(children, d);
      FirstUnresolvedAppend(AttrLookups(attrs), Lookups(children), d);
    case ExprEl(IdentEl(x, sp)) =>
    case _ =>
  }

  /** The bodies of `{for}` and `{if}` blocks are never inspected. */
  lemma BlocksNotInspected(x: ExprElement, rest: seq<Element>, d: LocalDetails)
    requires x.ForEl? || x.IfEl?
    ensures CheckIdentExpr([ExprEl(x)] + rest, d) == CheckIdentExpr(rest, d)
  {
    assert ([ExprEl(x)] + rest)[1..] == rest;
  }
}
