/** The generated code, line by line. The generator emits each line with
    `format!`; the model keeps the line's parts instead of its text (the
    text each constructor stands for is given next to it). */
module Lines {

  /** The type a node field gets in the generated struct (`dom_state`). */
  datatype Kind = InputKind | ButtonKind | ElementKind | TextKind

  /** Where a node is appended: the mount point `parent` or another node. */
  datatype Parent = Root | Node(name: string)

  /** `state.borrow().<ident>`, followed by ` as f64` for a numeric field. */
  datatype StateValue = StateValue(ident: string, asF64: bool)

  /** The value of a `set_attribute` call: the attribute's literal text, or
      the text `state.borrow().<ident>` for an identifier value. */
  datatype AttrInit = Literal(text: string) | StateText(ident: string)

  /** What a text node is created from: a raw string literal holding the
      text (`r#######"..."#######`), or `&format!("{}", state.borrow().<ident>)`. */
  datatype TextSource = Escaped(text: string) | StateDisplay(ident: string)

  datatype Line =
    /** `let <node>: <kind> = document.<creator>("<tag>")?.dyn_into()?;` */
    | CreateElement(node: string, kind: Kind, creator: string, tag: string)
    /** `let <node> = document.<creator>(<source>);` */
    | CreateText(node: string, creator: string, source: TextSource)
    /** `parent.append_child(&self.<node>)?;` or `self.<parent>.append_child(&self.<node>)?;` */
    | AppendChild(parent: Parent, node: string)
    /** `add_listener!(self.<element>, "<event>", self.state, <slot>)?;` */
    | AddListener(element: string, event: string, slot: nat)
    /** `remove_listener!(self.<element>, "<event>", self.state, <slot>).unwrap_throw();` */
    | RemoveListener(element: string, event: string, slot: nat)
    /** `<element>.set_attribute("<name>", "<value>")?;`, prefixed by `self.` when `onSelf`. */
    | SetAttribute(onSelf: bool, element: string, name: string, init: AttrInit)
    /** `<element>.set_value_as_number(<value>);`, with `self.` before both the
        element and the value when `onSelf`. */
    | SetValueAsNumber(onSelf: bool, element: string, value: StateValue)
    /** `self.<node>.set_text_content(Some(&format!("{}", self.state.borrow().<ident>)));` */
    | SetTextContent(node: string, ident: string)
}
