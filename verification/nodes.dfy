/** The DOM instruction generator (template/nodes.rs). It walks the
    template tree and appends generated lines to the buckets of a `Dom`
    record: `init` (node creation), `mount` (appending and initial values),
    `mountMounted` and `drop` (adding and removing event listeners) and
    `update` (refreshing interpolations and bound inputs). Nodes are named
    after their tag with a per-tag counter; listeners refer to their
    callback by its slot in the component's callback list. */
module Nodes {
  import opened Strings
  import opened Diagnostics
  import opened Html
  import opened StateBlock
  import opened Lines
  import opened Closure
  import Check

  datatype Dom = Dom(
    init: seq<Line>,
    mount: seq<Line>,
    mountMounted: seq<Line>,
    update: seq<Line>,
    drop: seq<Line>,
    bindedCallbacks: seq<Callback>,
    domState: seq<(string, Kind)>,
    tagCount: map<string, nat>)

  /** `Dom::default()`. */
  function EmptyDom(): (dom: Dom)
    ensures dom.init == dom.mount == dom.mountMounted == dom.update == dom.drop == []
    ensures dom.bindedCallbacks == [] && dom.domState == [] && dom.tagCount == map[]
  {
    Dom([], [], [], [], [], [], [], map[])
  }

  // ---------------------------------------------------------------------
  // Node names

  /** `<tag>_<n>`. */
  function NodeName(tag: string, n: nat): string
  {
    tag + "_" + NatToString(n)
  }

  /** Different (tag, counter) pairs give different names: the counter is
      all digits, so the last `_` separates it from the tag. */
  lemma NodeNameInjective(t1: string, n1: nat, t2: string, n2: nat)
    requires NodeName(t1, n1) == NodeName(t2, n2)
    ensures t1 == t2 && n1 == n2
  {
    var s1, s2 := NatToString(n1), NatToString(n2);
    var w := NodeName(t1, n1);
    assert w == t1 + "_" + s1 && w == t2 + "_" + s2;
    if |s1| < |s2| {
      UnderscoreNotDigit(t1, s1, t2, s2);
    } else if |s2| < |s1| {
      UnderscoreNotDigit(t2, s2, t1, s1);
    }
    assert t1 == w[..|t1|] == t2;
    assert s1 == w[|t1| + 1..] == s2;
    NatToStringInjective(n1, n2);
  }

  /** A `_` followed by fewer digits cannot line up with more digits. */
  lemma UnderscoreNotDigit(t1: string, s1: string, t2: string, s2: string)
    requires |s1| < |s2| && forall i :: 0 <= i < |s2| ==> IsDigit(s2[i])
    ensures t1 + "_" + s1 != t2 + "_" + s2
  {
    var w1, w2 := t1 + "_" + s1, t2 + "_" + s2;
    if |w1| == |w2| {
      var p := |w1| - |s1| - 1;
      assert w1[p] == '_';
      assert w2[p] == s2[p - |t2| - 1];
    }
  }

  /** A node name never equals the mount point's name `parent`. */
  lemma NodeNameNotParent(tag: string, n: nat)
    ensures NodeName(tag, n) != "parent"
  {
    var w := NodeName(tag, n);
    var s := NatToString(n);
    assert w[|w| - 1] == s[|s| - 1];
    assert IsDigit(w[|w| - 1]);
  }

  function Count(tc: map<string, nat>, tag: string): nat
  {
    if tag in tc then tc[tag] else 0
  }

  /** Every name handed out so far under the counters `tc`. */
  function Issued(tc: map<string, nat>): set<string>
  {
    set t, k | t in tc && 1 <= k <= tc[t] :: NodeName(t, k)
  }

  /** `generate_node_name`: the tag's counter is incremented and the name
      carries its new value. The name was never handed out before. */
  function GenerateNodeName(dom: Dom, tag: string): (r: (string, Dom))
    ensures r.0 == NodeName(tag, Count(dom.tagCount, tag) + 1)
    ensures r.1 == dom.(tagCount := dom.tagCount[tag := Count(dom.tagCount, tag) + 1])
    ensures r.0 !in Issued(dom.tagCount) && r.0 in Issued(r.1.tagCount)
    ensures Issued(dom.tagCount) <= Issued(r.1.tagCount)
  {
    var c := Count(dom.tagCount, tag);
    var tc := dom.tagCount[tag := c + 1];
    var n := NodeName(tag, c + 1);
    assert n !in Issued(dom.tagCount) by {
      if n in Issued(dom.tagCount) {
        var t, k :| t in dom.tagCount && 1 <= k <= dom.tagCount[t] && n == NodeName(t, k);
        NodeNameInjective(t, k, tag, c + 1);
        assert false;
      }
    }
    assert n in Issued(tc) by {
      assert tag in tc && 1 <= c + 1 <= tc[tag];
    }
    assert Issued(dom.tagCount) <= Issued(tc) by {
      forall x | x in Issued(dom.tagCount) ensures x in Issued(tc) {
        var t, k :| t in dom.tagCount && 1 <= k <= dom.tagCount[t] && x == NodeName(t, k);
        assert t in tc && k <= tc[t];
      }
    }
    (n, dom.(tagCount := tc))
  }

  // ---------------------------------------------------------------------
  // Creating nodes

  function ParentOf(parent: string): Parent
  {
    if parent == "parent" then Root else Node(parent)
  }

  /** `append_node`: one `mount` line; the mount point `parent` is
      addressed directly, any other parent through `self`. */
  function AppendNode(dom: Dom, parent: string, node: string): (r: Dom)
    ensures r == dom.(mount := dom.mount + [AppendChild(ParentOf(parent), node)])
    ensures parent == "parent" <==> r.mount[|r.mount| - 1].parent.Root?
  {
    dom.(mount := dom.mount + [AppendChild(ParentOf(parent), node)])
  }

  function KindOf(tag: string): Kind
  {
    if tag == "input" then InputKind else if tag == "button" then ButtonKind else ElementKind
  }

  /** `create_node`: one `init` line, one `dom_state` entry and one `mount`
      line for a fresh name. */
  function CreateNode(dom: Dom, parent: string, tag: string, creator: string): (r: (string, Dom))
    ensures r.0 == NodeName(tag, Count(dom.tagCount, tag) + 1) && r.0 !in Issued(dom.tagCount)
    ensures r.1.init == dom.init + [CreateElement(r.0, KindOf(tag), creator, tag)]
    ensures r.1.domState == dom.domState + [(r.0, KindOf(tag))]
    ensures r.1.mount == dom.mount + [AppendChild(ParentOf(parent), r.0)]
    ensures r.1.mountMounted == dom.mountMounted && r.1.update == dom.update && r.1.drop == dom.drop
    ensures r.1.bindedCallbacks == dom.bindedCallbacks
    ensures r.1.tagCount == dom.tagCount[tag := Count(dom.tagCount, tag) + 1]
  {
    var (name, dom1) := GenerateNodeName(dom, tag);
    var kind := KindOf(tag);
    var dom2 := dom1.(init := dom1.init + [CreateElement(name, kind, creator, tag)]);
    var dom3 := dom2.(domState := dom2.domState + [(name, kind)]);
    (name, AppendNode(dom3, parent, name))
  }

  /** `create_text_node`: as `create_node`, for a text or comment node. */
  function CreateTextNode(dom: Dom, parent: string, tag: string, creator: string, source: TextSource): (r: (string, Dom))
    ensures r.0 == NodeName(tag, Count(dom.tagCount, tag) + 1) && r.0 !in Issued(dom.tagCount)
    ensures r.1.init == dom.init + [CreateText(r.0, creator, source)]
    ensures r.1.domState == dom.domState + [(r.0, TextKind)]
    ensures r.1.mount == dom.mount + [AppendChild(ParentOf(parent), r.0)]
    ensures r.1.mountMounted == dom.mountMounted && r.1.update == dom.update && r.1.drop == dom.drop
    ensures r.1.bindedCallbacks == dom.bindedCallbacks
    ensures r.1.tagCount == dom.tagCount[tag := Count(dom.tagCount, tag) + 1]
  {
    var (name, dom1) := GenerateNodeName(dom, tag);
    var dom2 := dom1.(init := dom1.init + [CreateText(name, creator, source)]);
    var dom3 := dom2.(domState := dom2.domState + [(name, TextKind)]);
    (name, AppendNode(dom3, parent, name))
  }

  /** `add_event_listener`: the listener is added when mounted and removed
      on drop, with the same element, event and slot. */
  function AddEventListener(dom: Dom, element: string, event: string, slot: nat): (r: Dom)
    ensures r.mountMounted == dom.mountMounted + [AddListener(element, event, slot)]
    ensures r.drop == dom.drop + [RemoveListener(element, event, slot)]
    ensures r == dom.(mountMounted := r.mountMounted, drop := r.drop)
  {
    dom.(mountMounted := dom.mountMounted + [AddListener(element, event, slot)],
         drop := dom.drop + [RemoveListener(element, event, slot)])
  }

  // ---------------------------------------------------------------------
  // Lookups done with `unwrap`

  /** The first state named `x`. */
  function FirstStateNamed(d: LocalDetails, x: string): (r: Option<State>)
    ensures r.Some? <==> exists i | 0 <= i < |d.states| :: d.states[i].ident == x
    ensures r.Some? ==> r.value.ident == x
  {
    FirstStateFrom(d.states, x)
  }

  function FirstStateFrom(states: seq<State>, x: string): (r: Option<State>)
    ensures r.Some? <==> exists i | 0 <= i < |states| :: states[i].ident == x
    ensures r.Some? ==> r.value.ident == x
    ensures r.Some? ==> exists i | 0 <= i < |states| ::
                          (states[i] == r.value && forall j | 0 <= j < i :: states[j].ident != x)
  {
    if |states| == 0 then None
    else if states[0].ident == x then Some(states[0])
    else
      var r := FirstStateFrom(states[1..], x);
      assert r.Some? ==> exists i | 0 <= i < |states| ::
                           (states[i] == r.value && forall j | 0 <= j < i :: states[j].ident != x) by {
        if r.Some? {
          var i :| 0 <= i < |states| - 1 && states[1..][i] == r.value
                   && (forall j | 0 <= j < i :: states[1..][j].ident != x);
          assert states[i + 1] == r.value;
          assert forall j | 0 <= j < i + 1 :: states[j].ident != x by {
            forall j | 0 <= j < i + 1 ensures states[j].ident != x {
              if j > 0 { assert states[j] == states[1..][j - 1]; }
            }
          }
        }
      }
      assert (exists i | 0 <= i < |states| :: states[i].ident == x) ==> r.Some? by {
        if exists i | 0 <= i < |states| :: states[i].ident == x {
          var i :| 0 <= i < |states| && states[i].ident == x;
          assert states[1..][i - 1].ident == x;
        }
      }
      r
  }

  /** The slot of the first event closure named `x`. */
  function FirstEventIndex(d: LocalDetails, x: string): (r: Option<nat>)
    ensures r.Some? <==> exists i | 0 <= i < |d.eventsClosures| :: d.eventsClosures[i].ident == x
    ensures r.Some? ==> r.value < |d.eventsClosures| && d.eventsClosures[r.value].ident == x
    ensures r.Some? ==> forall j | 0 <= j < r.value :: d.eventsClosures[j].ident != x
  {
    FirstEventFrom(d.eventsClosures, x, 0)
  }

  function FirstEventFrom(evs: seq<EventClosure>, x: string, i: nat): (r: Option<nat>)
    requires i <= |evs|
    requires forall j | 0 <= j < i :: evs[j].ident != x
    ensures r.Some? <==> exists k | 0 <= k < |evs| :: evs[k].ident == x
    ensures r.Some? ==> r.value < |evs| && evs[r.value].ident == x
    ensures r.Some? ==> forall j | 0 <= j < r.value :: evs[j].ident != x
    decreases |evs| - i
  {
    if i == |evs| then None
    else if evs[i].ident == x then Some(i)
    else FirstEventFrom(evs, x, i + 1)
  }

  // ---------------------------------------------------------------------
  // Attributes

  /** One iteration of the loop of `generate_attributes`: a block value is
      skipped; a string value resets the namespace (and the identifier
      name) to `""`; then `AttributeStep` decides. */
  function GenerateAttribute(dom: Dom, element: string, a: Attribute, d: LocalDetails): (r: Result<Dom>)
    ensures r.Err? ==> r.failure.Panic?
    ensures a.value.BlockValue? ==> r == Ok(dom)
    ensures a.value.StrValue? ==> r == Ok(dom.(init := dom.init + [SetAttribute(false, element, a.name, Literal(a.value.s))]))
    ensures a.value.IdentValue? ==> r == AttributeStep(dom, element, a.namespace, a.name, a.value, a.value.x, d)
  {
    match a.value
    case BlockValue(_) => Ok(dom)
    case StrValue(_) => AttributeStep(dom, element, "", a.name, a.value, "", d)
    case IdentValue(x, _) => AttributeStep(dom, element, a.namespace, a.name, a.value, x, d)
  }

  /** The `bind:value` case: a listener on `change` whose slot is the
      number of event closures plus the number of callbacks bound so far,
      the bound callback, its `update` line and its initial `mount` line. */
  function BindStep(dom: Dom, element: string, identName: string, state: State, d: LocalDetails): (r: Dom)
    ensures r.mountMounted == dom.mountMounted + [AddListener(element, "change", |d.eventsClosures| + |dom.bindedCallbacks|)]
    ensures r.drop == dom.drop + [RemoveListener(element, "change", |d.eventsClosures| + |dom.bindedCallbacks|)]
    ensures |r.bindedCallbacks| == |dom.bindedCallbacks| + 1 && dom.bindedCallbacks <= r.bindedCallbacks
    ensures r.bindedCallbacks[|dom.bindedCallbacks|].name == BindName(element)
    ensures r.bindedCallbacks[|dom.bindedCallbacks|].handler.BindHandler?
    ensures |r.update| == |dom.update| + 1 && dom.update <= r.update
    ensures |r.mount| == |dom.mount| + 1 && dom.mount <= r.mount
    ensures r.mount[|dom.mount|].SetValueAsNumber? && r.update[|dom.update|] == r.mount[|dom.mount|].(onSelf := true)
    ensures r.init == dom.init && r.domState == dom.domState && r.tagCount == dom.tagCount
  {
    var data := NewClosureBindInput(element, identName, state);
    var slot := |d.eventsClosures| + |dom.bindedCallbacks|;
    var dom1 := AddEventListener(dom, element, "change", slot);
    dom1.(bindedCallbacks := dom1.bindedCallbacks + [data.callbackOnChange],
          update := dom1.update + [data.updateValue],
          mount := dom1.mount + [data.initValue])
  }

  /** The case split of `generate_attributes` on a string or identifier
      value: `bind:value` on an input is bound to the state named
      `identName`; `on:<event>` listens with the first event closure named
      `identName`; any other `bind:` is not implemented; otherwise the
      attribute is set, from `init` for a string and on mount for an
      identifier. */
  function AttributeStep(dom: Dom, element: string, namespace: string, name: string, value: AttrValue, identName: string, d: LocalDetails): (r: Result<Dom>)
    requires !value.BlockValue?
    ensures r.Err? ==> r.failure.Panic?
    ensures IsBindValue(element, namespace, name) ==>
      && (r.Ok? <==> exists i | 0 <= i < |d.states| :: d.states[i].ident == identName)
      && (r.Err? ==> r.failure == Panic(NoStateForBind))
    ensures IsBindValue(element, namespace, name) && r.Ok? ==>
      var slot := |d.eventsClosures| + |dom.bindedCallbacks|;
      && r.value.mountMounted == dom.mountMounted + [AddListener(element, "change", slot)]
      && r.value.drop == dom.drop + [RemoveListener(element, "change", slot)]
      && |r.value.bindedCallbacks| == |dom.bindedCallbacks| + 1 && dom.bindedCallbacks <= r.value.bindedCallbacks
      && r.value.bindedCallbacks[slot - |d.eventsClosures|].name == BindName(element)
      && |r.value.update| == |dom.update| + 1 && dom.update <= r.value.update
      && |r.value.mount| == |dom.mount| + 1 && dom.mount <= r.value.mount
      && r.value.init == dom.init && r.value.domState == dom.domState && r.value.tagCount == dom.tagCount
    ensures !IsBindValue(element, namespace, name) && namespace == "on" ==>
      && (r.Ok? <==> exists i | 0 <= i < |d.eventsClosures| :: d.eventsClosures[i].ident == identName)
      && (r.Err? ==> r.failure == Panic(NoEventForListener))
    ensures !IsBindValue(element, namespace, name) && namespace == "on" && r.Ok? ==>
      exists k | 0 <= k < |d.eventsClosures| ::
        && d.eventsClosures[k].ident == identName
        && (forall j | 0 <= j < k :: d.eventsClosures[j].ident != identName)
        && r.value.mountMounted == dom.mountMounted + [AddListener(element, name, k)]
        && r.value.drop == dom.drop + [RemoveListener(element, name, k)]
        && r.value.(mountMounted := dom.mountMounted, drop := dom.drop) == dom
    ensures !IsBindValue(element, namespace, name) && namespace == "bind" ==> r == Err(Panic(BindNotImplemented))
    ensures namespace != "on" && namespace != "bind" ==>
      && r.Ok?
      && r.value.mountMounted == dom.mountMounted && r.value.drop == dom.drop && r.value.update == dom.update
      && r.value.bindedCallbacks == dom.bindedCallbacks && r.value.domState == dom.domState && r.value.tagCount == dom.tagCount
      && |r.value.init| + |r.value.mount| == |dom.init| + |dom.mount| + 1
      && dom.init <= r.value.init && dom.mount <= r.value.mount
    ensures namespace != "on" && namespace != "bind" && value.StrValue? ==>
      r.Ok? && r.value.init == dom.init + [SetAttribute(false, element, name, Literal(value.s))]
    ensures namespace != "on" && namespace != "bind" && value.IdentValue? ==>
      r.Ok? && r.value.mount == dom.mount + [SetAttribute(true, element, name, StateText(identName))]
  {
    if IsBindValue(element, namespace, name) then
      match FirstStateNamed(d, identName)
      case None => Err(Panic(NoStateForBind))
      case Some(state) => Ok(BindStep(dom, element, identName, state, d))
    else if namespace == "on" then
      match FirstEventIndex(d, identName)
      case None => Err(Panic(NoEventForListener))
      case Some(slot) => Ok(AddEventListener(dom, element, name, slot))
    else if namespace == "bind" then
      Err(Panic(BindNotImplemented))
    else if value.StrValue? then
      Ok(dom.(init := dom.init + [SetAttribute(false, element, name, Literal(value.s))]))
    else
      Ok(dom.(mount := dom.mount + [SetAttribute(true, element, name, StateText(identName))]))
  }

  /** `bind:value` on a node whose generated name starts with `input`. */
  predicate IsBindValue(element: string, namespace: string, name: string)
  {
    StartsWith(element, "input") && namespace == "bind" && name == "value"
  }

  /** `generate_attributes`: the attributes in order. */
  function GenerateAttributes(dom: Dom, element: string, attrs: seq<Attribute>, d: LocalDetails): (r: Result<Dom>)
    ensures r.Err? ==> r.failure.Panic?
    ensures r.Ok? ==> Extends(dom, r.value) && r.value.domState == dom.domState && r.value.tagCount == dom.tagCount
    ensures r.Ok? && Inv(dom, d) ==> Inv(r.value, d)
    decreases attrs
  {
    if |attrs| == 0 then Ok(dom)
    else
      var dom1 :- GenerateAttribute(dom, element, attrs[0], d);
      AttributeKeeps(dom, element, attrs[0], d);
      GenerateAttributes(dom1, element, attrs[1..], d)
  }

  // ---------------------------------------------------------------------
  // What the walk keeps

  /** `dom1` is `dom` with lines appended: every bucket only grows and no
      counter goes down. */
  predicate Extends(dom: Dom, dom1: Dom)
  {
    && dom.init <= dom1.init && dom.mount <= dom1.mount && dom.mountMounted <= dom1.mountMounted
    && dom.update <= dom1.update && dom.drop <= dom1.drop
    && dom.bindedCallbacks <= dom1.bindedCallbacks && dom.domState <= dom1.domState
    && forall t | t in dom.tagCount :: t in dom1.tagCount && dom.tagCount[t] <= dom1.tagCount[t]
  }

  /** The node names in `dom_state` are pairwise distinct, each handed out
      by the counters. */
  predicate NamesFresh(dom: Dom)
  {
    && (forall i, j | 0 <= i < j < |dom.domState| :: dom.domState[i].0 != dom.domState[j].0)
    && (forall i | 0 <= i < |dom.domState| :: dom.domState[i].0 in Issued(dom.tagCount))
  }

  /** Every listener added on mount is removed on drop, in the same order. */
  predicate ListenersPaired(dom: Dom)
  {
    && |dom.drop| == |dom.mountMounted|
    && forall i | 0 <= i < |dom.mountMounted| ::
         && dom.mountMounted[i].AddListener?
         && dom.drop[i] == RemoveListener(dom.mountMounted[i].element, dom.mountMounted[i].event, dom.mountMounted[i].slot)
  }

  /** Every listener's slot falls inside the event closures followed by the
      bound callbacks, and a slot past the event closures holds the bound
      callback of the listener's own element. */
  predicate SlotsAligned(dom: Dom, d: LocalDetails)
  {
    forall i | 0 <= i < |dom.mountMounted| ::
      && dom.mountMounted[i].AddListener?
      && dom.mountMounted[i].slot < |d.eventsClosures| + |dom.bindedCallbacks|
      && (dom.mountMounted[i].slot >= |d.eventsClosures| ==>
            dom.bindedCallbacks[dom.mountMounted[i].slot - |d.eventsClosures|].name == BindName(dom.mountMounted[i].element))
  }

  /** The callbacks collected by the generator are bound-input handlers. */
  predicate BindsOnly(dom: Dom)
  {
    forall j | 0 <= j < |dom.bindedCallbacks| :: dom.bindedCallbacks[j].handler.BindHandler?
  }

  predicate Inv(dom: Dom, d: LocalDetails)
  {
    NamesFresh(dom) && ListenersPaired(dom) && SlotsAligned(dom, d) && BindsOnly(dom)
  }

  lemma AttributeKeeps(dom: Dom, element: string, a: Attribute, d: LocalDetails)
    requires GenerateAttribute(dom, element, a, d).Ok?
    ensures var dom1 := GenerateAttribute(dom, element, a, d).value;
            Extends(dom, dom1) && dom1.domState == dom.domState && dom1.tagCount == dom.tagCount
            && (Inv(dom, d) ==> Inv(dom1, d))
  {
    var dom1 := GenerateAttribute(dom, element, a, d).value;
    if a.value.IdentValue? && IsBindValue(element, a.namespace, a.name) {
      BindKeeps(dom, element, a.value.x, FirstStateNamed(d, a.value.x).value, d);
    }
  }

  lemma BindKeeps(dom: Dom, element: string, identName: string, state: State, d: LocalDetails)
    ensures var dom1 := BindStep(dom, element, identName, state, d);
            Extends(dom, dom1) && (Inv(dom, d) ==> Inv(dom1, d))
  {
    hide BindStep;
    var dom1 := BindStep(dom, element, identName, state, d);
    var k := |d.eventsClosures|;
    if Inv(dom, d) {
      forall i | 0 <= i < |dom1.mountMounted|
        ensures dom1.mountMounted[i].AddListener?
        ensures dom1.mountMounted[i].slot < k + |dom1.bindedCallbacks|
        ensures dom1.mountMounted[i].slot >= k ==>
                  dom1.bindedCallbacks[dom1.mountMounted[i].slot - k].name == BindName(dom1.mountMounted[i].element)
      {
        if i < |dom.mountMounted| {
          assert dom1.mountMounted[i] == dom.mountMounted[i];
          if dom.mountMounted[i].slot >= k {
            assert dom1.bindedCallbacks[dom.mountMounted[i].slot - k] == dom.bindedCallbacks[dom.mountMounted[i].slot - k];
          }
        }
      }
    }
  }

  lemma CreateKeeps(dom: Dom, parent: string, tag: string, creator: string, d: LocalDetails)
    ensures var dom1 := CreateNode(dom, parent, tag, creator).1;
            Extends(dom, dom1) && (Inv(dom, d) ==> Inv(dom1, d))
  {
    var (name, dom1) := CreateNode(dom, parent, tag, creator);
    var _ := GenerateNodeName(dom, tag);
    if Inv(dom, d) {
      forall i | 0 <= i < |dom1.domState| ensures dom1.domState[i].0 in Issued(dom1.tagCount) {
        if i < |dom.domState| { assert dom1.domState[i] == dom.domState[i]; }
      }
    }
  }

  lemma CreateTextKeeps(dom: Dom, parent: string, tag: string, creator: string, source: TextSource, d: LocalDetails)
    ensures var dom1 := CreateTextNode(dom, parent, tag, creator, source).1;
            Extends(dom, dom1) && (Inv(dom, d) ==> Inv(dom1, d))
  {
    var (name, dom1) := CreateTextNode(dom, parent, tag, creator, source);
    var _ := GenerateNodeName(dom, tag);
    if Inv(dom, d) {
      forall i | 0 <= i < |dom1.domState| ensures dom1.domState[i].0 in Issued(dom1.tagCount) {
        if i < |dom.domState| { assert dom1.domState[i] == dom.domState[i]; }
      }
    }
  }

  // ---------------------------------------------------------------------
  // Elements

  /** `generate_elements`: the elements in order, under `parent`. */
  function GenerateElements(dom: Dom, parent: string, els: seq<Element>, d: LocalDetails): (r: Result<Dom>)
    ensures r.Err? ==> r.failure.Panic?
    ensures r.Ok? ==> Extends(dom, r.value)
    ensures r.Ok? && Inv(dom, d) ==> Inv(r.value, d)
    decreases els
  {
    if |els| == 0 then Ok(dom)
    else
      var dom1 :- GenerateElement(dom, parent, els[0], d);
      GenerateElements(dom1, parent, els[1..], d)
  }

  /** One element: a tag is created, then its attributes, then its
      children under it; text and comments become text nodes; an `{x}`
      interpolation becomes a text node refreshed on update; a non-empty
      `{if}` chain is not implemented; other interpolations and `{for}`
      blocks emit nothing. */
  function GenerateElement(dom: Dom, parent: string, el: Element, d: LocalDetails): (r: Result<Dom>)
    ensures r.Err? ==> r.failure.Panic?
    ensures r.Ok? ==> Extends(dom, r.value)
    ensures r.Ok? && Inv(dom, d) ==> Inv(r.value, d)
    ensures el.ExprEl? && el.e.IdentEl? ==>
      r.Ok? && |r.value.init| == |dom.init| + 1 && |r.value.domState| == |dom.domState| + 1
      && r.value.update == dom.update + [SetTextContent(r.value.domState[|dom.domState|].0, el.e.x)]
    ensures (el.Text? || el.Comment?) ==>
      r.Ok? && |r.value.init| == |dom.init| + 1 && |r.value.domState| == |dom.domState| + 1
      && r.value.update == dom.update && r.value.mountMounted == dom.mountMounted
    ensures el.ExprEl? && (el.e.ForEl? || el.e.LitEl? || el.e.BlockEl? || (el.e.IfEl? && |el.e.conditions| == 0)) ==> r == Ok(dom)
    ensures el.ExprEl? && el.e.IfEl? && |el.e.conditions| > 0 ==> r == Err(Panic(IfNotImplemented))
    decreases el
  {
    match el
    case Classic(name, attrs, children) =>
      var (node, dom1) := CreateNode(dom, parent, name, "create_element");
      CreateKeeps(dom, parent, name, "create_element", d);
      var dom2 :- GenerateAttributes(dom1, node, attrs, d);
      GenerateElements(dom2, node, children, d)
    case Text(text) =>
      CreateTextKeeps(dom, parent, "text", "create_text_node", Escaped(text), d);
      Ok(CreateTextNode(dom, parent, "text", "create_text_node", Escaped(text)).1)
    case Comment(text) =>
      CreateTextKeeps(dom, parent, "text", "create_comment", Escaped(text), d);
      Ok(CreateTextNode(dom, parent, "text", "create_comment", Escaped(text)).1)
    case ExprEl(x) =>
      GenerateExprElement(dom, parent, x, d)
  }

  /** An interpolation or control block: `{x}` becomes a text node whose
      content is refreshed on update; a non-empty `{if}` chain is not
      implemented; the rest emit nothing. */
  function GenerateExprElement(dom: Dom, parent: string, x: ExprElement, d: LocalDetails): (r: Result<Dom>)
    ensures r.Err? ==> r.failure.Panic?
    ensures r.Ok? ==> Extends(dom, r.value)
    ensures r.Ok? && Inv(dom, d) ==> Inv(r.value, d)
    ensures x.IdentEl? ==>
      r.Ok? && |r.value.init| == |dom.init| + 1 && |r.value.domState| == |dom.domState| + 1
      && r.value.update == dom.update + [SetTextContent(r.value.domState[|dom.domState|].0, x.x)]
    ensures x.ForEl? || x.LitEl? || x.BlockEl? || (x.IfEl? && |x.conditions| == 0) ==> r == Ok(dom)
    ensures x.IfEl? && |x.conditions| > 0 ==> r == Err(Panic(IfNotImplemented))
  {
    if x.IdentEl? then
      var (node, dom1) := CreateTextNode(dom, parent, "text", "create_text_node", StateDisplay(x.x));
      CreateTextKeeps(dom, parent, "text", "create_text_node", StateDisplay(x.x), d);
      Ok(dom1.(update := dom1.update + [SetTextContent(node, x.x)]))
    else if x.IfEl? && |x.conditions| > 0 then
      Err(Panic(IfNotImplemented))
    else
      Ok(dom)
  }

  /** `Dom::generate`: the template's top-level elements under `parent`. */
  function Generate(els: seq<Element>, d: LocalDetails): (r: Result<Dom>)
    ensures r.Err? ==> r.failure.Panic?
    ensures r.Ok? ==> Inv(r.value, d)
  {
    GenerateElements(EmptyDom(), "parent", els, d)
  }

  // ---------------------------------------------------------------------
  // The validator rules out the lookups that `unwrap`

  /** The `unwrap` of a state or event lookup fired. */
  predicate LookupPanic(r: Result<Dom>)
  {
    r == Err(Panic(NoStateForBind)) || r == Err(Panic(NoEventForListener))
  }

  predicate AllResolve(ls: seq<Check.Lookup>, d: LocalDetails)
  {
    forall l | l in ls :: Check.Resolves(l, d)
  }

  lemma {:induction false} AttributesNoLookupPanic(dom: Dom, element: string, attrs: seq<Attribute>, d: LocalDetails)
    requires AllResolve(Check.AttrLookups(attrs), d)
    ensures !LookupPanic(GenerateAttributes(dom, element, attrs, d))
    decreases attrs
  {
    if |attrs| > 0 {
      var a := attrs[0];
      if a.value.IdentValue? {
        var l := if a.namespace == "on" then Check.InEvents(a.value.x, a.value.sp) else Check.InStates(a.value.x, a.value.sp);
        assert Check.AttrLookups(attrs) == [l] + Check.AttrLookups(attrs[1..]);
        assert Check.Resolves(l, d);
      } else {
        assert Check.AttrLookups(attrs) == Check.AttrLookups(attrs[1..]);
      }
      var r := GenerateAttribute(dom, element, a, d);
      if r.Ok? {
        AttributesNoLookupPanic(r.value, element, attrs[1..], d);
      }
    }
  }

  lemma {:induction false} ElementsNoLookupPanic(dom: Dom, parent: string, els: seq<Element>, d: LocalDetails)
    requires AllResolve(Check.Lookups(els), d)
    ensures !LookupPanic(GenerateElements(dom, parent, els, d))
    decreases els
  {
    if |els| > 0 {
      ElementNoLookupPanic(dom, parent, els[0], d);
      var r := GenerateElement(dom, parent, els[0], d);
      if r.Ok? {
        ElementsNoLookupPanic(r.value, parent, els[1..], d);
      }
    }
  }

  lemma {:induction false} ElementNoLookupPanic(dom: Dom, parent: string, el: Element, d: LocalDetails)
    requires AllResolve(Check.ElementLookups(el), d)
    ensures !LookupPanic(GenerateElement(dom, parent, el, d))
    decreases el
  {
    if el.Classic? {
      var (node, dom1) := CreateNode(dom, parent, el.name, "create_element");
      AttributesNoLookupPanic(dom1, node, el.attrs, d);
      var r := GenerateAttributes(dom1, node, el.attrs, d);
      if r.Ok? {
        ElementsNoLookupPanic(r.value, node, el.children, d);
      }
    }
  }

  /** A template the validator accepts never reaches the `unwrap` of a state
      or event lookup in the generator: the lookups the generator makes are
      among those the validator checked. */
  lemma CheckedTemplateNoLookupPanic(els: seq<Element>, d: LocalDetails)
    requires Check.CheckIdentExpr(els, d).Ok?
    ensures !LookupPanic(Generate(els, d))
  {
    Check.CheckIsFirstUnresolved(els, d);
    var ls := Check.Lookups(els);
    forall l | l in ls ensures Check.Resolves(l, d) {
      var i :| 0 <= i < |ls| && ls[i] == l;
    }
    ElementsNoLookupPanic(EmptyDom(), "parent", els, d);
  }
}
