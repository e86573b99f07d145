/** Component assembly (template/component.rs): the pieces the component
    template is filled with. The state fields give the struct's field list,
    its shorthand initialiser and the `let`s that initialise them; the event
    closures, rewritten by one shared `IdentModifier`, come first in the
    callback list, followed by the callbacks of bound inputs, so that the
    slot a listener was given indexes its own callback. */
module Assembly {
  import opened Strings
  import opened Diagnostics
  import opened Syntax
  import opened Html
  import opened StateBlock
  import opened Lines
  import opened Closure
  import opened Nodes
  import Visitor

  /** `Component`. The `mount` and `mount_mounted` buckets of the `Dom` are
      not among its fields. */
  datatype Component = Component(
    stateInitBlock: string,
    stateFieldsType: seq<string>,
    stateFieldsValue: seq<string>,
    callbacks: seq<Callback>,
    init: seq<Line>,
    update: seq<Line>,
    drop: seq<Line>,
    domState: seq<(string, Kind)>)

  /** The marker the templates put before interpolated items. */
  const ItemMarker: string := "//ITEM "

  /** `clean_up_generated`: every occurrence of the marker removed, scanning
      from the left in one pass, as `str::replace` does. */
  function CleanUpGenerated(s: string): (r: string)
    ensures |r| <= |s|
    decreases |s|
  {
    if |s| == 0 then ""
    else if StartsWith(s, ItemMarker) then CleanUpGenerated(s[|ItemMarker|..])
    else [s[0]] + CleanUpGenerated(s[1..])
  }

  /** Text without the marker comes back unchanged. */
  lemma {:induction false} CleanUpWithoutMarker(s: string)
    requires !Contains(s, ItemMarker)
    ensures CleanUpGenerated(s) == s
    decreases |s|
  {
    if |s| > 0 {
      assert !StartsWith(s, ItemMarker);
      assert !Contains(s[1..], ItemMarker);
      CleanUpWithoutMarker(s[1..]);
      assert s == [s[0]] + s[1..];
    }
  }

  /** No marker starts at any of the first `n` positions of `t`. */
  predicate NoMarkerBefore(t: string, n: nat)
    requires n <= |t|
  {
    forall k :: 0 <= k < n ==> !StartsWith(t[k..], ItemMarker)
  }

  /** A marker is removed, and the text before it, in which no marker
      starts, is kept as it is. */
  lemma {:induction false} CleanUpRemovesMarkers(a: string, b: string)
    requires NoMarkerBefore(a + ItemMarker + b, |a|)
    ensures CleanUpGenerated(a + ItemMarker + b) == a + CleanUpGenerated(b)
    decreases |a|
  {
    hide CleanUpGenerated;
    var t := a + ItemMarker + b;
    if |a| == 0 {
      assert t == ItemMarker + b;
      DroppedMarker(b);
    } else {
      var tail := a[1..] + ItemMarker + b;
      assert t == [a[0]] + tail;
      assert t[0..] == t;
      KeptChar(a[0], tail);
      forall k | 0 <= k < |a| - 1 ensures !StartsWith(tail[k..], ItemMarker) {
        assert tail[k..] == t[k + 1..];
      }
      CleanUpRemovesMarkers(a[1..], b);
      assert a == [a[0]] + a[1..];
    }
  }

  /** A marker at the front is dropped. */
  lemma DroppedMarker(b: string)
    ensures CleanUpGenerated(ItemMarker + b) == CleanUpGenerated(b)
  {
    assert (ItemMarker + b)[..|ItemMarker|] == ItemMarker;
    assert (ItemMarker + b)[|ItemMarker|..] == b;
  }

  /** A division or a comment before the marker is kept. */
  lemma CleanUpKeepsSlashes()
    ensures CleanUpGenerated("x / 2 // y " + ItemMarker + "z") == "x / 2 // y z"
  {
    var a := "x / 2 // y ";
    var t := a + ItemMarker + "z";
    forall k | 0 <= k < |a| ensures !StartsWith(t[k..], ItemMarker) {
      if a[k] != '/' {
        DiffersAt(t[k..], 0);
      } else if k + 1 < |a| && a[k + 1] != '/' {
        DiffersAt(t[k..], 1);
      } else {
        DiffersAt(t[k..], 2);
      }
    }
    CleanUpRemovesMarkers(a, "z");
    CleanUpWithoutMarker("z");
  }

  /** A text whose `k`-th character differs from the marker's does not
      start with the marker. */
  lemma DiffersAt(t: string, k: nat)
    requires k < |t| && k < |ItemMarker| && t[k] != ItemMarker[k]
    ensures !StartsWith(t, ItemMarker)
  {
    if |ItemMarker| <= |t| {
      assert t[..|ItemMarker|][k] == t[k];
    }
  }

  /** A character that does not start a marker is kept. */
  lemma KeptChar(c: char, t: string)
    requires !StartsWith([c] + t, ItemMarker)
    ensures CleanUpGenerated([c] + t) == [c] + CleanUpGenerated(t)
  {
    assert ([c] + t)[1..] == t;
  }

  /** One pass is not enough: removing a marker can join the text around
      it into a new marker. */
  lemma CleanUpNotIdempotent()
    ensures var s := "//IT" + ItemMarker + "EM ";
            CleanUpGenerated(s) == ItemMarker && CleanUpGenerated(CleanUpGenerated(s)) == ""
  {
    hide CleanUpGenerated;
    var b := ItemMarker + "EM ";
    assert CleanUpGenerated(b) == "EM " by {
      CleanUpRemovesMarkers("", "EM ");
      assert "" + ItemMarker + "EM " == b;
      CleanUpWithoutMarker("EM ");
    }
    var t3 := ['T'] + b;
    var t2 := ['I'] + t3;
    var t1 := ['/'] + t2;
    var t0 := ['/'] + t1;
    DiffersAt(t3, 0);
    KeptChar('T', b);
    DiffersAt(t2, 0);
    KeptChar('I', t3);
    DiffersAt(t1, 1);
    KeptChar('/', t2);
    DiffersAt(t0, 4);
    KeptChar('/', t1);
    assert t0 == "//IT" + ItemMarker + "EM ";
    assert "//IT" + "EM " == ItemMarker;
    assert CleanUpGenerated(ItemMarker) == "" by {
      CleanUpRemovesMarkers("", "");
      assert "" + ItemMarker + "" == ItemMarker;
    }
  }

  /** `gen_field_type`: the field `ident : ty ,`. */
  function GenFieldType(ident: string, ty: string): (r: string)
    ensures StartsWith(r, ident + " : ") && EndsWith(r, ty + " ,")
    ensures |r| == |ident| + |ty| + 5
  {
    ident + " : " + ty + " ,"
  }

  /** `gen_field_value_shorthand`: the shorthand field `ident ,`. */
  function GenFieldValueShorthand(ident: string): (r: string)
    ensures StartsWith(r, ident) && EndsWith(r, " ,") && |r| == |ident| + 2
  {
    ident + " ,"
  }

  /** The field's name and type can be read back from the field text. */
  lemma FieldTypeReadBack(ident: string, ty: string)
    ensures var r := GenFieldType(ident, ty);
            r[..|ident|] == ident && r[|ident| + 3..|r| - 2] == ty
  {
  }

  /** The shorthand field gives its identifier back, so distinct states
      get distinct fields. */
  lemma FieldValueReadBack(ident: string, other: string)
    ensures var r := GenFieldValueShorthand(ident);
            r[..|r| - 2] == ident
    ensures GenFieldValueShorthand(ident) == GenFieldValueShorthand(other) ==> ident == other
  {
    var r, q := GenFieldValueShorthand(ident), GenFieldValueShorthand(other);
    assert r[..|r| - 2] == ident;
    assert q[..|q| - 2] == other;
  }

  /** The `let` of each state, printed. */
  function StateLets(states: seq<State>): (r: seq<string>)
    ensures |r| == |states| && forall i :: 0 <= i < |r| ==> r[i] == StmtText(states[i].local)
  {
    seq(|states|, i requires 0 <= i < |states| => StmtText(states[i].local))
  }

  /** The event closures rewritten in order with one shared modifier, and
      the callbacks built from them. */
  function RewriteEvents(evs: seq<EventClosure>, m: Visitor.Modifier, c: Visitor.Config): (r: (seq<EventClosure>, seq<Callback>, Visitor.Modifier))
    requires Visitor.Valid(c)
    ensures |r.0| == |evs| && |r.1| == |evs|
    ensures forall i | 0 <= i < |evs| :: r.0[i].ident == evs[i].ident && r.0[i].local == evs[i].local
    ensures forall i | 0 <= i < |evs| :: r.1[i] == Callback(evs[i].ident, EventHandler(ClosureStatements(r.0[i].closure.body)))
    ensures forall i | 0 <= i < |evs| ::
      Visitor.Erase(r.0[i].closure.body, c.stateIdent) == Visitor.Erase(evs[i].closure.body, c.stateIdent)
    ensures m.errors <= r.2.errors
    ensures |r.2.errors| == |m.errors| ==> forall i | 0 <= i < |evs| :: Visitor.Clean(r.0[i].closure.body, c.stateNames)
    decreases |evs|
  {
    if |evs| == 0 then ([], [], m)
    else
      var (e0, cb0, m0) := StringFromEventClosure(evs[0], m, c);
      var (es, cbs, m1) := RewriteEvents(evs[1..], m0, c);
      assert |m1.errors| == |m.errors| ==> |m0.errors| == |m.errors| by {
        if |m1.errors| == |m.errors| {
          assert m.errors <= m0.errors <= m1.errors;
        }
      }
      RewrittenCons(evs, e0, cb0, es, cbs, |m1.errors| == |m.errors|, c);
      ([e0] + es, [cb0] + cbs, m1)
  }

  /** The contract of `RewriteEvents` carried from the tail to the whole
      list, one rewritten closure in front. */
  lemma {:induction false} RewrittenCons(evs: seq<EventClosure>, e0: EventClosure, cb0: Callback,
                                         es: seq<EventClosure>, cbs: seq<Callback>, clean: bool, c: Visitor.Config)
    requires |evs| > 0 && |es| == |evs| - 1 && |cbs| == |evs| - 1
    requires e0.ident == evs[0].ident && e0.local == evs[0].local
    requires cb0 == Callback(evs[0].ident, EventHandler(ClosureStatements(e0.closure.body)))
    requires Visitor.Erase(e0.closure.body, c.stateIdent) == Visitor.Erase(evs[0].closure.body, c.stateIdent)
    requires clean ==> Visitor.Clean(e0.closure.body, c.stateNames)
    requires forall i | 0 <= i < |es| :: es[i].ident == evs[1..][i].ident && es[i].local == evs[1..][i].local
    requires forall i | 0 <= i < |es| :: cbs[i] == Callback(evs[1..][i].ident, EventHandler(ClosureStatements(es[i].closure.body)))
    requires forall i | 0 <= i < |es| ::
      Visitor.Erase(es[i].closure.body, c.stateIdent) == Visitor.Erase(evs[1..][i].closure.body, c.stateIdent)
    requires clean ==> forall i | 0 <= i < |es| :: Visitor.Clean(es[i].closure.body, c.stateNames)
    ensures var r0, r1 := [e0] + es, [cb0] + cbs;
      && (forall i | 0 <= i < |evs| :: r0[i].ident == evs[i].ident && r0[i].local == evs[i].local)
      && (forall i | 0 <= i < |evs| :: r1[i] == Callback(evs[i].ident, EventHandler(ClosureStatements(r0[i].closure.body))))
      && (forall i | 0 <= i < |evs| ::
            Visitor.Erase(r0[i].closure.body, c.stateIdent) == Visitor.Erase(evs[i].closure.body, c.stateIdent))
      && (clean ==> forall i | 0 <= i < |evs| :: Visitor.Clean(r0[i].closure.body, c.stateNames))
  {
    hide Visitor.Erase, Visitor.Clean, ClosureStatements;
    var r0, r1 := [e0] + es, [cb0] + cbs;
    forall i | 1 <= i < |evs| ensures r0[i] == es[i - 1] && r1[i] == cbs[i - 1] && evs[i] == evs[1..][i - 1] {
    }
  }

  /** `Component::new`. The rewriter is built as `get_ident_modifier` builds
      it, with the accessor identifier `stateIdent`. */
  function NewComponent(d: LocalDetails, elements: seq<Element>, stateIdent: string): (r: Result<Component>)
    requires stateIdent !in StateNames(d)
    ensures r.Ok? ==> |r.value.stateFieldsType| == |d.states| && |r.value.stateFieldsValue| == |d.states|
    ensures r.Ok? ==> forall i | 0 <= i < |d.states| ::
      && r.value.stateFieldsType[i] == GenFieldType(d.states[i].ident, d.states[i].ty.text)
      && r.value.stateFieldsValue[i] == GenFieldValueShorthand(d.states[i].ident)
    ensures r.Ok? ==> r.value.stateInitBlock == Join(StateLets(d.states), "\n")
    ensures r.Ok? ==> |d.eventsClosures| <= |r.value.callbacks|
    ensures r.Ok? ==> forall i | 0 <= i < |d.eventsClosures| ::
      r.value.callbacks[i].name == d.eventsClosures[i].ident && r.value.callbacks[i].handler.EventHandler?
    ensures r.Ok? ==> forall j | |d.eventsClosures| <= j < |r.value.callbacks| :: r.value.callbacks[j].handler.BindHandler?
    ensures r.Ok? ==> SlotsIndexCallbacks(r.value, d)
    ensures r.Err? ==> r.failure.Panic?
  {
    var fieldsType := seq(|d.states|, i requires 0 <= i < |d.states| => GenFieldType(d.states[i].ident, d.states[i].ty.text));
    var fieldsValue := seq(|d.states|, i requires 0 <= i < |d.states| => GenFieldValueShorthand(d.states[i].ident));
    var (c, m) := GetIdentModifier(d, stateIdent);
    var (evs, eventCallbacks, _) := RewriteEvents(d.eventsClosures, m, c);
    var d1 := d.(eventsClosures := evs);
    var dom :- Generate(elements, d1);
    var callbacks := eventCallbacks + dom.bindedCallbacks;
    var comp := Component(Join(StateLets(d.states), "\n"), fieldsType, fieldsValue, callbacks,
                          dom.init, dom.update, dom.drop, dom.domState);
    ComponentSlots(comp, d, d1, eventCallbacks, dom);
    Ok(comp)
  }

  /** A removed listener's slot holds its own callback: the event closure
      with that slot's index, or the bound input's callback named after the
      listener's element. */
  predicate ListenerAligned(comp: Component, d: LocalDetails, l: Line)
  {
    && l.RemoveListener?
    && l.slot < |comp.callbacks|
    && (l.slot < |d.eventsClosures| ==> comp.callbacks[l.slot].name == d.eventsClosures[l.slot].ident)
    && (l.slot >= |d.eventsClosures| ==> comp.callbacks[l.slot].name == BindName(l.element))
  }

  predicate SlotsIndexCallbacks(comp: Component, d: LocalDetails)
  {
    forall i | 0 <= i < |comp.drop| :: ListenerAligned(comp, d, comp.drop[i])
  }

  /** The slots the generator hands out line up with the callback list:
      event closures first, then bound inputs. */
  lemma ComponentSlots(comp: Component, d: LocalDetails, d1: LocalDetails, eventCallbacks: seq<Callback>, dom: Dom)
    requires Inv(dom, d1)
    requires |d1.eventsClosures| == |d.eventsClosures| == |eventCallbacks|
    requires forall i | 0 <= i < |d.eventsClosures| :: eventCallbacks[i].name == d.eventsClosures[i].ident
    requires comp.callbacks == eventCallbacks + dom.bindedCallbacks && comp.drop == dom.drop
    ensures SlotsIndexCallbacks(comp, d)
    ensures forall j | |d.eventsClosures| <= j < |comp.callbacks| :: comp.callbacks[j].handler.BindHandler?
  {
    var k := |d.eventsClosures|;
    forall i | 0 <= i < |comp.drop| ensures ListenerAligned(comp, d, comp.drop[i]) {
      var l := dom.mountMounted[i];
      assert comp.drop[i] == RemoveListener(l.element, l.event, l.slot);
      if l.slot >= k {
        assert comp.callbacks[l.slot] == dom.bindedCallbacks[l.slot - k];
      } else {
        assert comp.callbacks[l.slot] == eventCallbacks[l.slot];
      }
    }
    forall j | k <= j < |comp.callbacks| ensures comp.callbacks[j].handler.BindHandler? {
      assert comp.callbacks[j] == dom.bindedCallbacks[j - k];
    }
  }
}
