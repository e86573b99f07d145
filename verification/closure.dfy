/** The callbacks of a component (template/closure.rs): the handler that
    keeps a state in sync with an `<input bind:value={x}>`, and the handler
    built from an event closure of the state block after the rewriter has
    run over it. The handler's template text is not modelled; a callback is
    its name together with what the template is filled with. */
module Closure {
  import opened Strings
  import opened Diagnostics
  import opened Syntax
  import opened StateBlock
  import opened Lines
  import Visitor

  /** The ten primitive numeric type names, concatenated. */
  const NumericTypes: string := "u8u16u32u64i8i16i32i64f32f64"

  /** The numeric test of `ClosureBindInput::new`: a substring test on the
      concatenation, not a comparison with each name. */
  predicate IsNumeric(ty: string)
  {
    exists i: nat | i <= |NumericTypes| :: WindowAt(NumericTypes, ty, i)
  }

  /** The test is Rust's `contains` on the concatenation. */
  lemma IsNumericIsContains(ty: string)
    ensures IsNumeric(ty) <==> Contains(NumericTypes, ty)
  {
    ContainsIff(NumericTypes, ty);
  }

  /** What a handler's template is filled with. */
  datatype Handler =
    | EventHandler(statements: seq<string>)
    | BindHandler(bindIdent: string, numberType: Option<string>)

  datatype Callback = Callback(name: string, handler: Handler)

  datatype ClosureBindInput = ClosureBindInput(callbackOnChange: Callback, initValue: Line, updateValue: Line)

  /** The name of the handler bound to an input element. */
  function BindName(elementName: string): (r: string)
    ensures StartsWith(r, elementName) && EndsWith(r, "_bind_value")
    ensures |r| == |elementName| + 11
  {
    elementName + "_bind_value"
  }

  /** Distinct elements get distinct handler names. */
  lemma BindNameInjective(a: string, b: string)
    requires BindName(a) == BindName(b)
    ensures a == b
  {
    assert a == BindName(a)[..|a|];
  }

  /** `ClosureBindInput::new`. */
  function NewClosureBindInput(elementName: string, initIdent: string, state: State): (r: ClosureBindInput)
    ensures r.callbackOnChange.name == BindName(elementName)
    ensures r.callbackOnChange.handler.BindHandler? && r.callbackOnChange.handler.bindIdent == state.ident
    ensures r.callbackOnChange.handler.numberType.Some? <==> IsNumeric(state.ty.text)
    ensures r.callbackOnChange.handler.numberType.Some? ==> r.callbackOnChange.handler.numberType.value == state.ty.text
    ensures r.initValue.SetValueAsNumber? && !r.initValue.onSelf
    ensures r.initValue.element == elementName && r.initValue.value.ident == initIdent
    ensures r.initValue.value.asF64 <==> IsNumeric(state.ty.text)
    ensures r.updateValue == r.initValue.(onSelf := true)
  {
    var ty := state.ty.text;
    var numberType := if IsNumeric(ty) then Some(ty) else None;
    var value := StateValue(initIdent, IsNumeric(ty));
    ClosureBindInput(
      Callback(BindName(elementName), BindHandler(state.ident, numberType)),
      SetValueAsNumber(false, elementName, value),
      SetValueAsNumber(true, elementName, value))
  }

  /** Each of the ten primitive numeric types is numeric. */
  lemma PrimitiveNumeric(ty: string)
    requires ty in ["u8", "u16", "u32", "u64", "i8", "i16", "i32", "i64", "f32", "f64"]
    ensures IsNumeric(ty)
  {
    var starts := [0, 2, 5, 8, 11, 13, 16, 19, 22, 25];
    var names := ["u8", "u16", "u32", "u64", "i8", "i16", "i32", "i64", "f32", "f64"];
    var k :| 0 <= k < 10 && names[k] == ty;
    var i := starts[k];
    assert forall j :: 0 <= j < |ty| ==> NumericTypes[i + j] == ty[j];
    assert NumericTypes[i..i + |ty|] == ty;
    assert WindowAt(NumericTypes, ty, i);
  }

  /** A type text with a character outside the ten names is not numeric. */
  lemma ForeignCharNotNumeric(ty: string, k: nat)
    requires k < |ty| && ty[k] !in NumericTypes
    ensures !IsNumeric(ty)
  {
  }

  /** Consequences of the substring test: the empty type text and fragments
      such as `8u1` count as numeric, while `usize` and `String` do not. */
  lemma NumericQuirks()
    ensures IsNumeric("") && IsNumeric("8u1")
    ensures !IsNumeric("usize") && !IsNumeric("String")
  {
    assert WindowAt(NumericTypes, "", 0);
    assert forall j :: 0 <= j < 3 ==> NumericTypes[1 + j] == "8u1"[j];
    assert NumericTypes[1..4] == "8u1";
    assert WindowAt(NumericTypes, "8u1", 1);
    ForeignCharNotNumeric("usize", 1);
    ForeignCharNotNumeric("String", 0);
  }

  /** The statements of a closure body: one per statement of a block body,
      otherwise the body followed by `;`. */
  function ClosureStatements(body: Expr): (r: seq<string>)
    ensures body.Block? ==> |r| == |body.stmts| && forall i :: 0 <= i < |r| ==> r[i] == StmtText(body.stmts[i])
    ensures !body.Block? ==> |r| == 1 && StartsWith(r[0], ExprText(body)) && EndsWith(r[0], ";")
  {
    if body.Block? then seq(|body.stmts|, i requires 0 <= i < |body.stmts| => StmtText(body.stmts[i]))
    else [ExprText(body) + " ;"]
  }

  /** `string_from_event_closure`: the closure is rewritten in place with the
      shared modifier, then its statements are read. The rewritten body
      erases back to the original one, and when the rewrite recorded no
      error it uses no state directly. */
  function StringFromEventClosure(ev: EventClosure, m: Visitor.Modifier, c: Visitor.Config): (r: (EventClosure, Callback, Visitor.Modifier))
    requires Visitor.Valid(c)
    ensures r.0.ident == ev.ident && r.0.local == ev.local && r.0.closure.params == ev.closure.params
    ensures r.1 == Callback(ev.ident, EventHandler(ClosureStatements(r.0.closure.body)))
    ensures Visitor.Erase(r.0.closure.body, c.stateIdent) == Visitor.Erase(ev.closure.body, c.stateIdent)
    ensures m.errors <= r.2.errors
    ensures |r.2.errors| == |m.errors| ==> Visitor.Clean(r.0.closure.body, c.stateNames)
    ensures r.2.names == m.names + Visitor.Elems(ClosureIdents(r.0.closure))
  {
    var o := Visitor.VisitClosure(ev.closure, m, c);
    Visitor.VisitClosureSound(ev.closure, m, c);
    var ev1 := ev.(closure := o.v);
    (ev1, Callback(ev.ident, EventHandler(ClosureStatements(o.v.body))), o.m)
  }
}
