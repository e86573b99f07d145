/** The state/event extractor (state_block.rs). The `let` statements of the
    state block are classified in source order: a typed `let x: T` is a state
    field, an untyped `let f = |..| ..` is an event closure, anything else
    stops the extraction. */
module StateBlock {
  import opened Strings
  import opened Diagnostics
  import opened Syntax
  import Visitor

  datatype State = State(ident: string, ty: Ty, local: Stmt)

  datatype EventClosure = EventClosure(ident: string, closure: ClosureExpr, local: Stmt)

  datatype LocalDetails = LocalDetails(states: seq<State>, eventsClosures: seq<EventClosure>, block: string)

  /** What one `let` contributes. */
  datatype LetKind = IsState(state: State) | IsEvent(event: EventClosure) | Rejected(failure: Failure)

  type LetStmt = s: Stmt | s.Local? witness Local(POther("", []), None, 0)

  /** The `let` statements of a block, in order; other statements are dropped. */
  function LocalsOf(stmts: seq<Stmt>): (ls: seq<LetStmt>)
    ensures |ls| <= |stmts|
  {
    if |stmts| == 0 then []
    else (if stmts[0].Local? then [stmts[0]] else []) + LocalsOf(stmts[1..])
  }

  /** Statements other than `let` are ignored: the `let`s of a block are
      those of its parts, in order. */
  lemma {:induction false} LocalsOfAppend(a: seq<Stmt>, b: seq<Stmt>)
    ensures LocalsOf(a + b) == LocalsOf(a) + LocalsOf(b)
  {
    if |a| > 0 {
      assert (a + b)[1..] == a[1..] + b;
      LocalsOfAppend(a[1..], b);
    } else {
      assert a + b == b;
    }
  }

  /** The arms of the `match local` in `extract_locals`. */
  function ClassifyLocal(l: LetStmt): (k: LetKind)
    ensures k.IsState? <==> l.pat.PType? && l.pat.pat.PIdent?
    ensures k.IsState? ==> k.state == State(l.pat.pat.name, l.pat.ty, l)
    ensures k.IsEvent? <==> l.pat.PIdent? && l.init.Some? && l.init.value.Closure?
    ensures k.IsEvent? ==> k.event == EventClosure(l.pat.name, l.init.value.closure, l)
    ensures l.pat.PType? && !l.pat.pat.PIdent? ==> k == Rejected(Panic(TypedLetWithoutIdent))
    ensures l.pat.PIdent? && !(l.init.Some? && l.init.value.Closure?)
      ==> k == Rejected(Single(At(l.pat.sp), TypeRequired))
    ensures l.pat.POther? ==> k == Rejected(Single(At(l.letSp), LocalNotHandled))
  {
    match l.pat
    case PType(inner, ty) =>
      if inner.PIdent? then IsState(State(inner.name, ty, l)) else Rejected(Panic(TypedLetWithoutIdent))
    case PIdent(x, sp) =>
      if l.init.Some? && l.init.value.Closure? then IsEvent(EventClosure(x, l.init.value.closure, l))
      else Rejected(Single(At(sp), TypeRequired))
    case POther(_, _) => Rejected(Single(At(l.letSp), LocalNotHandled))
  }

  // Reference definitions, read from the back so that a loop can extend them.

  function StatesOf(ls: seq<LetStmt>): seq<State>
  {
    if |ls| == 0 then []
    else
      var k := ClassifyLocal(ls[|ls| - 1]);
      StatesOf(ls[..|ls| - 1]) + (if k.IsState? then [k.state] else [])
  }

  function EventsOf(ls: seq<LetStmt>): seq<EventClosure>
  {
    if |ls| == 0 then []
    else
      var k := ClassifyLocal(ls[|ls| - 1]);
      EventsOf(ls[..|ls| - 1]) + (if k.IsEvent? then [k.event] else [])
  }

  /** The `let`s `extract_locals` accepts. */
  predicate Accepted(l: LetStmt)
  {
    (l.pat.PType? && l.pat.pat.PIdent?) || (l.pat.PIdent? && l.init.Some? && l.init.value.Closure?)
  }

  /** The failure of the first rejected `let`, if any. */
  function FirstRejection(ls: seq<LetStmt>): (r: Option<Failure>)
    ensures r.None? <==> forall i | 0 <= i < |ls| :: Accepted(ls[i])
    ensures r.Some? ==> exists i | 0 <= i < |ls| ::
      (ClassifyLocal(ls[i]) == Rejected(r.value) && forall j | 0 <= j < i :: Accepted(ls[j]))
  {
    if |ls| == 0 then None
    else if !Accepted(ls[0]) then Some(ClassifyLocal(ls[0]).failure)
    else
      FirstRejection(ls[1..])
  }

  function StmtTexts(stmts: seq<Stmt>): (ts: seq<string>)
    ensures |ts| == |stmts| && forall i | 0 <= i < |stmts| :: ts[i] == StmtText(stmts[i])
  {
    if |stmts| == 0 then [] else [StmtText(stmts[0])] + StmtTexts(stmts[1..])
  }

  /** `extract_locals`. */
  method ExtractLocals(stmts: seq<Stmt>) returns (r: Result<LocalDetails>)
    ensures r.Ok? <==> FirstRejection(LocalsOf(stmts)).None?
    ensures r.Err? ==> r.failure == FirstRejection(LocalsOf(stmts)).value
    ensures r.Ok? ==> r.value.states == StatesOf(LocalsOf(stmts))
    ensures r.Ok? ==> r.value.eventsClosures == EventsOf(LocalsOf(stmts))
    ensures r.Ok? ==> r.value.block == Join(StmtTexts(stmts), "\n")
  {
    hide FirstRejection;
    var block := Join(StmtTexts(stmts), "\n");
    var locals := LocalsOf(stmts);
    var states: seq<State> := [];
    var events: seq<EventClosure> := [];
    var i := 0;
    while i < |locals|
      invariant 0 <= i <= |locals|
      invariant forall j | 0 <= j < i :: Accepted(locals[j])
      invariant states == StatesOf(locals[..i])
      invariant events == EventsOf(locals[..i])
    {
      var k := ClassifyLocal(locals[i]);
      ExtendPrefix(locals, i);
      if k.Rejected? {
        FirstRejectionAt(locals, i);
        return Err(k.failure);
      }
      if k.IsState? {
        states := states + [k.state];
      } else {
        events := events + [k.event];
      }
      i := i + 1;
    }
    assert locals[..i] == locals;
    NoRejection(locals);
    return Ok(LocalDetails(states, events, block));
  }

  lemma ExtendPrefix(ls: seq<LetStmt>, i: nat)
    requires i < |ls|
    ensures var k := ClassifyLocal(ls[i]);
      StatesOf(ls[..i + 1]) == StatesOf(ls[..i]) + (if k.IsState? then [k.state] else []) &&
      EventsOf(ls[..i + 1]) == EventsOf(ls[..i]) + (if k.IsEvent? then [k.event] else [])
  {
    assert ls[..i + 1][..i] == ls[..i];
  }

  lemma NoRejection(ls: seq<LetStmt>)
    requires forall j | 0 <= j < |ls| :: Accepted(ls[j])
    ensures FirstRejection(ls).None?
  {
  }

  lemma FirstRejectionAt(ls: seq<LetStmt>, i: nat)
    requires i < |ls| && !Accepted(ls[i]) && forall j | 0 <= j < i :: Accepted(ls[j])
    ensures FirstRejection(ls) == Some(ClassifyLocal(ls[i]).failure)
  {
    var r := FirstRejection(ls);
    var k :| 0 <= k < |ls| && ClassifyLocal(ls[k]) == Rejected(r.value) && forall j | 0 <= j < k :: Accepted(ls[j]);
    assert k == i;
  }

  /** No duplicate-name check: every `let` of a successful extraction adds
      exactly one entry. */
  lemma {:induction false} EveryLetCounted(ls: seq<LetStmt>)
    requires forall i | 0 <= i < |ls| :: Accepted(ls[i])
    ensures |StatesOf(ls)| + |EventsOf(ls)| == |ls|
  {
    if |ls| > 0 {
      EveryLetCounted(ls[..|ls| - 1]);
    }
  }

  /** `states_contains_ident`: Ok iff some state has the name. */
  function StatesContainsIdent(d: LocalDetails, x: string, sp: nat): (r: Result<()>)
    ensures r.Ok? <==> exists i | 0 <= i < |d.states| :: d.states[i].ident == x
    ensures r.Err? ==> r.failure == Single(At(sp), NotInStates)
  {
    if exists i | 0 <= i < |d.states| :: d.states[i].ident == x then Ok(()) else Err(Single(At(sp), NotInStates))
  }

  /** `events_contains_ident`: Ok iff some event closure has the name. */
  function EventsContainsIdent(d: LocalDetails, x: string, sp: nat): (r: Result<()>)
    ensures r.Ok? <==> exists i | 0 <= i < |d.eventsClosures| :: d.eventsClosures[i].ident == x
    ensures r.Err? ==> r.failure == Single(At(sp), NotInEvents)
  {
    if exists i | 0 <= i < |d.eventsClosures| :: d.eventsClosures[i].ident == x then Ok(()) else Err(Single(At(sp), NotInEvents))
  }

  /** The names of the state fields. */
  function StateNames(d: LocalDetails): set<string>
  {
    set i | 0 <= i < |d.states| :: d.states[i].ident
  }

  /** `get_ident_modifier`: a fresh rewriter whose state names are the
      fields' names and whose accessor is `stateIdent`. */
  function GetIdentModifier(d: LocalDetails, stateIdent: string): (r: (Visitor.Config, Visitor.Modifier))
    ensures r.0.stateIdent == stateIdent
    ensures forall x :: x in r.0.stateNames <==> StatesContainsIdent(d, x, 0).Ok?
    ensures r.1 == Visitor.New()
  {
    (Visitor.Config(StateNames(d), stateIdent), Visitor.New())
  }
}
