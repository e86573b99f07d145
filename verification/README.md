# code_generator, modelled in Dafny

This project models the compile-time pipeline of the `code_generator`
procedural macro. The macro turns an HTML-like template plus a Rust block of
`let` statements into a component: DOM construction code, state fields and
event callbacks. Each stage is written as pure functions over immutable
datatypes:

- **Template parser** (`Html`, html.dfy). It reads a token stream into
  `Element` trees. The trees are classic tags with attributes, comments,
  text runs, and brace interpolations: identifiers, string literals, opaque
  blocks, `{for}` blocks and `{if}`/`{else if}`/`{else}` chains. syn's
  speculative `fork()` parsing becomes functions from (tokens, position) to
  (result, next position).
- **Printer** (`HtmlPrint`, html_print.dfy). It prints well-formed trees back
  to tokens. The parser reads every printed tree back as the same tree.
- **State/event extractor** (`StateBlock`). It sorts the `let`s of the state
  block into typed states and closure event handlers, and rejects every other
  form with the source's diagnostics.
- **Identifier validator** (`Check`). It checks bare identifiers in
  attributes and interpolations against the extractor's tables.
- **Expression rewriter** (`Visitor`). It rewrites state leaves of host
  expressions behind the `borrow()` / `borrow_mut()` accessor. It records
  the sets of names it sees, reads and writes, and the errors it reports.
- **DOM instruction generator** (`Nodes`). It fills the `init`, `mount`,
  `mount_mounted`, `update` and `drop` buckets. It names nodes with per-tag
  counters and gives each listener a callback slot.
- **Component assembly** (`Closure`, `Assembly`). It covers bind handlers,
  event-closure statements, field lists, callback order and the removal of
  the `//ITEM ` marker.
- **rustc readers** (`ThirParse`). It reads the `file:line:col:line:col(...)`
  span text and the THIR debug dump, collecting the `Pat`/`Binding`
  name/type pairs.

Shared pieces:

- `Strings` (string helpers).
- `Diagnostics` (syn errors as marker lists, and panics as a separate outcome).
- `Tokens` (the token model).
- `Syntax` (a small Rust expression/statement model with its printed text).
- `Lines` (the generated DOM lines as datatypes).

Host-language expressions are opaque token runs. Generated code is kept as
structured lines rather than token streams.

## Model

| member | source | states |
|---|---|---|
| Html.ParseSegments | code_generator/src/html/mod.rs:86-93 | an attribute name starts with an identifier (keywords allowed) and yields at least one hyphen segment; no identifier is the "expected identifier" error at that token |
| Html.ParseAttrValue | code_generator/src/html/mod.rs:110-148 | no `=` gives the empty string; `="lit"` gives the literal's value; `=ident` gives the identifier text; a brace group with one identifier `x` gives `Ident(x)` with its span, any other brace group gives `Block`; any other token after `=` is an error, and only then |
| Html.ParseAttribute | code_generator/src/html/mod.rs:83-165 | without `:` the namespace is empty and the name is the first hyphen segment only; with `:` the first segment becomes the namespace and the name is the segments after `:` printed as `a - b`; in both cases the value is what the value parser reads right after the name, and the attribute is read iff the name and that value are |
| Html.ParseAttributes | code_generator/src/html/mod.rs:558-572 | attributes are read until the tag's `>` or `/>`, and the position returned sits on one of them |
| Html.ParseStringUntilString | code_generator/src/html/mod.rs:476-510 | success iff the punctuation window of the target occurs; the text is the joined consumed tokens (each as written, string literals with their quotes and escapes), ending at the FIRST occurrence of the target; otherwise the "target not found" error |
| Html.FindTarget | code_generator/src/html/mod.rs:476-510 | the corrected scan: returns the end of the first window spelling the target, or None iff there is no such window |
| Html.ScanAsWritten | code_generator/src/html/mod.rs:476-510 | the scan as written: any result it returns is the end of a complete window spelling the target |
| Html.ScanAgreesOnOneChar | code_generator/src/html/mod.rs:476-510 | for a one-character target the as-written scan equals the corrected one |
| Html.EmptyCommentMissed | code_generator/src/html/mod.rs:476-510 | on `<!---->` the as-written scan finds no `-->` although the corrected one ends the comment after 7 tokens |
| Html.ParseTextKeepsLiteralAsWritten | code_generator/src/html/mod.rs:512-534 | a string literal in a text run contributes the text it was written as (quotes, escapes, raw prefix), not its unescaped value |
| Html.ParseText | code_generator/src/html/mod.rs:512-534 | a text run is the joined tokens (each as written) up to the first `<` punct or brace group, which is not consumed; no token inside the run is one |
| Html.CheckTagName | code_generator/src/html/mod.rs:233-247 | equal closing and opening names succeed; different names give one error with both markers |
| Html.FindKw | code_generator/src/html/mod.rs:171-197 | the `in` keyword of a for header is the first one after the start |
| Html.ParseElement | code_generator/src/html/mod.rs:625-645 | `</` is the inner error; `<!` gives a comment, other `<` a classic tag, a brace group an expression element, anything else a non-empty text run |
| Html.ParseClassic | code_generator/src/html/mod.rs:544-615 | a tag ends either in `/>` with no children or in `</name>` with the same name as its opening |
| Html.ParseTagChildren | code_generator/src/html/mod.rs:579-606 | children are read until the `</` that closes the tag |
| Html.ParseExprElement | code_generator/src/html/mod.rs:299-474 | a non-brace token is the "expected brace" error; `for` and `if` headers give For and If elements, one identifier gives Ident, one string literal gives Lit, any other group gives an opaque Block |
| Html.ParseForChildren | code_generator/src/html/mod.rs:311-327 | `{/for}` closes the loop; any other `{/...}` is the two-marker name-mismatch error |
| Html.ParseIfChain | code_generator/src/html/mod.rs:342-443 | conditions only grow; a nested `{if}`, a second `{else}`, a closer other than `{/if}` and any other brace group are the two-marker errors of the source |
| HtmlPrint.IfChainElse | code_generator/src/html/mod.rs:398-422 | `{else}` closes the previous branch and opens one whose condition is the literal `true` |
| HtmlPrint.IfChainElseIf | code_generator/src/html/mod.rs:380-397 | `{else if}` closes the previous branch whether or not an `{else}` came before |
| HtmlPrint.IfChainClose | code_generator/src/html/mod.rs:345-358 | `{/if}` ends the chain with one condition per header |
| HtmlPrint.ParsePrintedValue | code_generator/src/html/mod.rs:110-148 | a printed attribute value reads back as the same value |
| HtmlPrint.ParsePrintedAttrs | code_generator/src/html/mod.rs:83-165 | a printed attribute list reads back as the same list |
| HtmlPrint.ParsePrintedComment | code_generator/src/html/mod.rs:628-629 | a printed comment reads back as the same comment text, through its first `-->` |
| HtmlPrint.ParsePrintedForHeader | code_generator/src/html/mod.rs:171-197 | a printed for header reads back as the same pattern and iterator |
| HtmlPrint.ParsePrintedElement | code_generator/src/html/mod.rs:625-645 | every well-formed element reads back from its printed tokens, consuming exactly them |
| HtmlPrint.ParsePrintedIf | code_generator/src/html/mod.rs:342-443 | a printed if chain reads back with the same conditions and branch children |
| HtmlPrint.ParseRootPrinted | code_generator/src/html/mod.rs:650-657 | parsing the printed tokens of well-formed siblings returns exactly those siblings |
| StateBlock.LocalsOfAppend | code_generator/src/state_block.rs:81-90 | collecting `let`s distributes over concatenation, so source order is kept |
| StateBlock.ClassifyLocal | code_generator/src/state_block.rs:91-136 | typed identifier let iff State carrying its name and type; untyped identifier with closure initializer iff EventClosure; typed non-identifier panics; other untyped identifiers are the "type required" error; other patterns are the "not handled" error |
| StateBlock.FirstRejection | code_generator/src/state_block.rs:90-138 | no rejection iff every `let` is accepted; otherwise the failure of the first rejected one |
| StateBlock.ExtractLocals | code_generator/src/state_block.rs:73-140 | succeeds iff no `let` is rejected, returns the first rejection otherwise; states and events follow source order; `block` is the statement texts joined with a newline |
| StateBlock.EveryLetCounted | code_generator/src/state_block.rs:90-138 | no duplicate check: when all are accepted, states plus events number exactly the `let`s |
| StateBlock.StatesContainsIdent | code_generator/src/state_block.rs:42-54 | Ok iff some state has that name; otherwise the "not in states" error at the identifier |
| StateBlock.EventsContainsIdent | code_generator/src/state_block.rs:56-69 | Ok iff some event closure has that name; otherwise the "not in events" error |
| StateBlock.GetIdentModifier | code_generator/src/state_block.rs:25-40 | the rewriter's state names are exactly the names the state check accepts, and it starts with empty records |
| Check.FirstUnresolved | code_generator/src/check.rs:8-47 | Ok iff every lookup resolves; the reference definition the validator is compared with |
| Check.CheckAttrsIsFirstUnresolved | code_generator/src/check.rs:8-26 | `on:` Ident attributes look in the events, other Ident attributes in the states, String and Block values are not looked up; the first failure wins |
| Check.CheckIsFirstUnresolved | code_generator/src/check.rs:28-47 | the validator is exactly "first unresolved lookup" over the template's lookups, attributes before children |
| Check.CheckElementIsFirstUnresolved | code_generator/src/check.rs:31-43 | per element: the attributes, then the classic children; Ident interpolations look in the states |
| Check.FirstUnresolvedAppend | code_generator/src/check.rs:36-37 | fail-fast: checking a concatenation returns the first part's error, else checks the second part |
| Check.BlocksNotInspected | code_generator/src/check.rs:31-43 | a For or If interpolation is skipped without inspecting its children |
| Visitor.New | code_generator/src/visitor/ident.rs:55-67 | a fresh modifier has no names, borrows, locals or errors and a zero path count |
| Visitor.Reparse | code_generator/src/visitor/ident.rs:128-147 | re-parsing after the accessor prefix succeeds iff the leftmost leaf can take it; the leaf becomes the accessor, method calls keep name and arguments |
| Visitor.ReparseText | code_generator/src/visitor/ident.rs:128-147 | the re-parsed node's text is the accessor text followed by the node's text, as in the source's string concatenation |
| Visitor.ReparseIdents | code_generator/src/visitor/ident.rs:128-147 | the re-parsed node's identifiers are the state identifier and `borrow`/`borrow_mut` followed by the node's own |
| Visitor.ReparseErase | code_generator/src/visitor/ident.rs:128-147 | erasing the accessor from the re-parsed node gives the node back |
| Visitor.TryParse | code_generator/src/visitor/ident.rs:128-147 | on success the name goes to `names_refmut` exactly when the parsed text (accessor plus node) contains `borrow_mut`, and to `names_ref` otherwise, which only a read can reach; a write always reaches `names_refmut`; on failure the node is unchanged and one error is appended |
| Visitor.BorrowNamed | code_generator/src/visitor/ident.rs:134-138 | the accessor text always contains `borrow`, so a write is recognised by `borrow_mut` |
| Visitor.StatesIn | code_generator/src/visitor/ident.rs:26-35 | one identifier that is a state gives exactly that state; no identifier gives none |
| Visitor.ReplaceExpr | code_generator/src/visitor/ident.rs:85-126 | rewrites only when the node has exactly one identifier and it is a state; one distinct state among several identifiers is an error and the node is unchanged; otherwise nothing happens |
| Visitor.UnguardedVisitLoops | code_generator/src/visitor/ident.rs:193-232 | as written, when the state identifier is itself a state name: a read of a state becomes an accessor whose base is a call on a state path, and re-parsing any such call yields a receiver containing the call `s.borrow_mut()` unchanged, which the visit reaches again |
| Visitor.VisitExpr | code_generator/src/visitor/ident.rs:219-232 | a path starting with a state is read-wrapped, then every node gets the default visit; the modifier grows as the Grows invariant says |
| Visitor.DefaultExpr | code_generator/src/visitor/ident.rs:234-256 | the default walk counts paths and records every identifier visited |
| Visitor.VisitBinary | code_generator/src/visitor/ident.rs:161-169 | the right operand is always offered to `replace_expr` with the read accessor, the left one only when the right one is not binary; both are then visited, the operator is kept and the modifier grows as Grows says |
| Visitor.BinaryOffersLeft | code_generator/src/visitor/ident.rs:161-169 | with a non-binary right operand, the left operand `x.len()` is offered and reports the state among several identifiers first |
| Visitor.BinaryOffersRight | code_generator/src/visitor/ident.rs:161-169 | a binary right operand `x.len() + 1` is still offered and reports the state among several identifiers first |
| Visitor.BinarySkipsLeft | code_generator/src/visitor/ident.rs:161-169 | with a binary right operand, the left operand `x.len()` is not offered: no error, and the call still gets the write accessor when visited |
| Visitor.VisitAssign | code_generator/src/visitor/ident.rs:171-191 | the target is write-wrapped and the right side read-wrapped unless binary; assignment and compound assignment keep their shape |
| Visitor.VisitMethodCall | code_generator/src/visitor/ident.rs:193-217 | a receiver that is a state path is write-wrapped; the method name is kept |
| Visitor.VisitStmts | code_generator/src/visitor/ident.rs:150-159 | identifier `let`s go to `locals`; the statement count is kept |
| Visitor.VisitClosure | code_generator/src/visitor/ident.rs:219-232 | closure parameters are kept and the body is visited |
| Visitor.VisitExprSound | code_generator/src/visitor/ident.rs:85-232 | the rewrite only adds accessors (erasing them gives the input back), and with no new errors every state leaf ends up behind an accessor |
| Visitor.VisitAssignSound | code_generator/src/visitor/ident.rs:171-191 | the same soundness for assignments |
| Visitor.VisitClosureSound | code_generator/src/visitor/ident.rs:219-232 | the same soundness for a whole closure body |
| Visitor.MovedNames | code_generator/src/visitor/ident.rs:69-71 | moved names are exactly the names seen minus the locals |
| Visitor.MovedNamesOfVisit | code_generator/src/visitor/ident.rs:69-71 | after one visit the moved names are the identifiers of the rewritten node minus its `let` names |
| Visitor.RaiseErrors | code_generator/src/visitor/ident.rs:74-83 | Err iff errors were recorded, and then all of them, combined |
| Visitor.StateRead | code_generator/src/visitor/ident.rs:219-232 | a state path becomes the read accessor, with no error, and its name is recorded as borrowed; it is added to `names_ref` alone unless the accessor text followed by the name contains `borrow_mut`, in which case it is added to `names_refmut` alone |
| Visitor.ReadOfBorrowMutName | code_generator/src/visitor/ident.rs:134-138 | a read of a state named `borrow_mut_n` is recorded in `names_refmut`, not `names_ref`, because the source tells reads from writes by searching the parsed text |
| Visitor.StateWrite | code_generator/src/visitor/ident.rs:182-191 | assigning to a state gives the write accessor, with no error, and the name lands in `names_refmut` |
| Visitor.StatesCompared | code_generator/src/visitor/ident.rs:161-169 | both states of a comparison are read-wrapped |
| Visitor.StateMethodCall | code_generator/src/visitor/ident.rs:193-217 | a method called on a state goes through the write accessor |
| Visitor.MacroReported | code_generator/src/visitor/ident.rs:239-248 | every macro invocation records exactly one error and is left unchanged |
| Nodes.EmptyDom | code_generator/src/template/nodes.rs:13-29 | generation starts with empty buckets and counters |
| Nodes.GenerateNodeName | code_generator/src/template/nodes.rs:136-140 | the name is `tag_n` with n one more than the tag's previous count; it was not issued before and is issued after |
| Nodes.NodeNameInjective | code_generator/src/template/nodes.rs:136-140 | different tags or counts give different names, so names within one Dom are pairwise distinct |
| Nodes.NodeNameNotParent | code_generator/src/template/nodes.rs:142-152 | no generated node is called `parent`, so only the root uses the bare parent |
| Nodes.AppendNode | code_generator/src/template/nodes.rs:142-152 | one mount line; its parent is the root exactly when the parent is `parent` |
| Nodes.CreateNode | code_generator/src/template/nodes.rs:154-168 | exactly one init line, one dom-state entry and one append line; kind is Input, Button or Element by tag; other buckets untouched |
| Nodes.CreateTextNode | code_generator/src/template/nodes.rs:170-194 | the same for text nodes, with the text kind |
| Nodes.AddEventListener | code_generator/src/template/nodes.rs:31-45 | mount_mounted and drop grow by one line each with the same element, event and slot; nothing else changes |
| Nodes.FirstEventIndex | code_generator/src/template/nodes.rs:106-117 | the slot of `on:x` is the index of the FIRST event closure named x, if any |
| Nodes.FirstStateNamed | code_generator/src/template/nodes.rs:83-105 | the bound state is one named x, present iff some state is named x |
| Nodes.BindStep | code_generator/src/template/nodes.rs:83-105 | `bind:value` uses slot events + bound callbacks, pushes one bind callback, one update line and one mount line |
| Nodes.AttributeStep | code_generator/src/template/nodes.rs:59-131 | `bind:value` on an input succeeds iff some state has the name, and then adds a `change` listener at slot events plus bound callbacks, one callback named after the element, one update and one mount line; `on:` succeeds iff some event closure has the name, and then adds only the add/remove listener pair for the first such closure's slot; other `bind:` is the todo panic; any other attribute adds exactly one `init` line (string) or `mount` line (identifier) and nothing else |
| Nodes.GenerateAttribute | code_generator/src/template/nodes.rs:59-80 | a String value emits one init line with an empty namespace, a Block value emits nothing |
| Nodes.GenerateAttributes | code_generator/src/template/nodes.rs:47-134 | attributes only append lines and keep the Dom invariant |
| Nodes.GenerateElement | code_generator/src/template/nodes.rs:196-250 | an Ident interpolation gives one text node and exactly one update line; text and comments give init-only nodes; Lit, Block and For give nothing; a non-empty If panics |
| Nodes.GenerateExprElement | code_generator/src/template/nodes.rs:216-243 | an interpolation only appends: an identifier gives one text node reading the state and one `set_text_content` update line; Lit, Block, For and an empty If give nothing; an If with a branch panics |
| Nodes.GenerateElements | code_generator/src/template/nodes.rs:196-250 | the buckets only grow and the Dom invariant is kept |
| Nodes.Generate | code_generator/src/template/nodes.rs:25-29 | the finished Dom has fresh distinct names, paired listeners and slots that point at the right callback |
| Nodes.CheckedTemplateNoLookupPanic | code_generator/src/check.rs:28-47 | a template the validator accepts never hits the missing-state or missing-event panic in generation |
| Closure.IsNumericIsContains | code_generator/src/template/closure.rs:35-41 | a type is numeric iff its text is a substring of the ten primitive names run together |
| Closure.NumericQuirks | code_generator/src/template/closure.rs:35-41 | the substring test accepts `` and `8u1` and rejects `usize` and `String` |
| Closure.PrimitiveNumeric | code_generator/src/template/closure.rs:35-41 | each of the ten primitive numeric types is numeric |
| Closure.BindName | code_generator/src/template/closure.rs:28 | the handler name is the element name followed by `_bind_value` |
| Closure.BindNameInjective | code_generator/src/template/closure.rs:28 | different elements get different handler names |
| Closure.NewClosureBindInput | code_generator/src/template/closure.rs:26-69 | number type present iff numeric (then the type text) and the value cast `as f64` iff numeric; init and update both set the value as number, update on `self.` |
| Closure.ClosureStatements | code_generator/src/template/closure.rs:84-90 | a block body gives one statement per block statement; any other body exactly one statement ending in `;` |
| Closure.StringFromEventClosure | code_generator/src/template/closure.rs:77-95 | the closure is rewritten in place before being read; the callback is named after the closure's identifier |
| Assembly.CleanUpGenerated | code_generator/src/template/component.rs:30-32 | one left-to-right pass; output never longer than input |
| Assembly.CleanUpWithoutMarker | code_generator/src/template/component.rs:30-32 | input without the marker is returned unchanged |
| Assembly.CleanUpRemovesMarkers | code_generator/src/template/component.rs:30-32 | a marker is deleted and the text around it kept, whatever precedes it as long as no marker starts there |
| Assembly.CleanUpKeepsSlashes | code_generator/src/template/component.rs:30-32 | a division and a `//` comment before the marker are kept; only the marker itself is removed |
| Assembly.CleanUpNotIdempotent | code_generator/src/template/component.rs:30-32 | one pass can leave a marker made by joining the pieces around a deleted one |
| Assembly.GenFieldType | code_generator/src/template/component.rs:107-120 | a single `ident : ty ,` field |
| Assembly.FieldTypeReadBack | code_generator/src/template/component.rs:107-120 | the identifier and the type can be read back from the field text |
| Assembly.GenFieldValueShorthand | code_generator/src/template/component.rs:122-134 | a single shorthand `ident ,` field |
| Assembly.FieldValueReadBack | code_generator/src/template/component.rs:122-134 | the identifier can be read back from the shorthand field, so distinct identifiers give distinct fields |
| Assembly.StateLets | code_generator/src/template/component.rs:36-41 | one `let` text per state, in declaration order |
| Assembly.RewriteEvents | code_generator/src/template/component.rs:66-72 | one rewritten closure and one callback per event closure, in order, sharing one modifier |
| Assembly.NewComponent | code_generator/src/template/component.rs:35-100 | one type field and one value field per state in order; the init block is the state lets joined with a newline; callbacks are the event handlers in order, then the bind callbacks; every listener slot indexes its own callback; failures are panics only |
| Assembly.ComponentSlots | code_generator/src/template/component.rs:66-80 | because event callbacks come first, every slot from the Dom indexes the callback it was made for |
| ThirParse.ParseU32 | code_generator/src/thir.rs:136 | a parsed position fits in a u32 and comes from non-empty text |
| ThirParse.U32OrZero | code_generator/src/thir.rs:136 | unparsable positions become 0 |
| ThirParse.ParsePrinted | code_generator/src/thir.rs:136 | every u32 printed in decimal parses back to itself |
| ThirParse.ParseTooLarge | code_generator/src/thir.rs:136 | a decimal above the u32 range does not parse and becomes 0 |
| ThirParse.ParseSigns | code_generator/src/thir.rs:136 | a leading `+` is accepted, a bare sign or empty text is not |
| ThirParse.ParseNegative | code_generator/src/thir.rs:136 | a leading `-` never parses |
| ThirParse.Locations | code_generator/src/thir.rs:90-100 | start takes the first pair and end the second, each (0,0) when missing |
| ThirParse.SpanFile | code_generator/src/thir.rs:116-134 | the file is the text before the first `:`, or empty when there is no `:` |
| ThirParse.ScanColon | code_generator/src/thir.rs:118-128 | the first `:` fixes the file, later ones push a position |
| ThirParse.ScanParen | code_generator/src/thir.rs:130 | `(` after the file ends the scan |
| ThirParse.SpanRoundTrip | code_generator/src/thir.rs:108-142 | a printed `file:l:c:l:c(...)` span reads back to the same file and locations |
| ThirParse.SpanExample | code_generator/src/thir.rs:109 | the documented example gives start (6,9) and end (6,13) |
| ThirParse.RemoveLastChar | code_generator/src/thir.rs:191-195 | exactly one trailing char is dropped; the empty string stays empty |
| ThirParse.CommaText | code_generator/src/thir.rs:238-251 | the comma and then a pair of surrounding quotes are dropped |
| ThirParse.BindingFields | code_generator/src/thir.rs:312-318 | defined iff a Pat node whose kind is Binding; Binding fields win on shared keys and Pat-only keys are kept |
| ThirParse.InsertItem | code_generator/src/thir.rs:312-329 | only a Pat whose kind is Binding is read, with the Binding fields overriding the Pat's; one binding is appended iff both name and ty are text (the field reads of the `instance_from_thir_raw_string!` macro, thir.rs lines 175-189); other nodes leave the list unchanged; a missing field panics |
| ThirParse.Switch | code_generator/src/thir.rs:211-265 | every node read has no spaces in it and the reader always advances |
| ThirParse.CommaLine | code_generator/src/thir.rs:238-251 | a line ending in `,` is the list-end error when it is a closer and a comma, otherwise a Text node |
| ThirParse.CloserLine | code_generator/src/thir.rs:239-240 | a closer followed by `,` is the list-end error |
| ThirParse.QuotedLine | code_generator/src/thir.rs:238-251 | a quoted value reads as text without its quotes |
| ThirParse.CommaLineSpaces | code_generator/src/thir.rs:260 | spaces are never kept: a line reads the same without them |
| ThirParse.NoLineEnd | code_generator/src/thir.rs:215-218 | input ending before a newline is the end-of-dump error |
| ThirParse.ParseVec | code_generator/src/thir.rs:267-277 | items accumulate in order until the reader fails; it never fails itself |
| ThirParse.VecStep | code_generator/src/thir.rs:267-277 | one loop step: an item is appended, a reader error ends the list |
| ThirParse.ListOfTexts | code_generator/src/thir.rs:229-233 | a bracketed list of two values reads as a List of two Texts |
| ThirParse.ParseMap | code_generator/src/thir.rs:279-310 | keys are only `a-z` and `_`, values have no spaces, entries only accumulate |
| ThirParse.ParseMapUnknownChar | code_generator/src/thir.rs:283-307 | after any run of key characters, spaces, line ends and commas, a character outside `a-z`, `_`, `}`, `:`, space, line end and comma aborts the reader with that character |
| ThirParse.ParseMapEntry | code_generator/src/thir.rs:291-297 | `key:` reads a value and inserts it under the key; a reader error ends the map |
| ThirParse.MapClose | code_generator/src/thir.rs:288-290 | `}` ends the map |
| ThirParse.PatRead | code_generator/src/thir.rs:223-227 | a Pat with a Binding kind reads as that node and appends one name/type binding |
| ThirParse.AfterLine | code_generator/src/thir.rs:200-205 | everything up to and including the first newline is discarded |
| ThirParse.SerializeSkipsFirstLine | code_generator/src/thir.rs:198-209 | the first line never matters |
| ThirParse.SerializeOneLine | code_generator/src/thir.rs:198-209 | a dump without a newline is the end-of-dump error |
| ThirParse.SerializePat | code_generator/src/thir.rs:198-209 | a dump holding one Pat binding serializes to that node with that one binding |
| Strings.NatToStringInjective | code_generator/src/template/nodes.rs:136-140 | decimal counters print to distinct texts |
| Tokens.JoinedTextAppend | code_generator/src/html/mod.rs:476-510 | the text of consumed tokens is the concatenation of their texts |

## Left out

- I/O and the compiler: running rustc (`generate_rustc_thir`, `write_code_and_thir`, `generate_thir`), `format_main_code`, `get_pat_bindings` and its wrapper, and the files they write are not modelled. The readers take the dump and span text as strings.
- The crate entry points in lib.rs, the sailfish templates, `to_token_stream` and template/mod.rs are not part of this model.
- Exact spacing of `quote!`/`to_string` output is not modelled. Expression and group text is printed with single spaces between tokens, and the accessor prefix is printed spaced (`s . borrow () . `) where the source writes `s.borrow().`. The text runs of the html parser are joined without separators, as `stack.join("")` does. No contract depends on the spacing: the `borrow_mut` and `borrow` searches give the same answer on the spaced and unspaced accessor.
- syn's expression grammar is not modelled. `{if ..}`/`{for ..}` headers and block interpolations are opaque token runs, and syn's deferred "unexpected token" check on leftovers is left out.
- Visitor.Reparse: re-parsing is structural. The accessor attaches to the leftmost leaf, and parenthesised expressions are not modelled.
- Visitor.VisitExpr: requires that the state identifier is not itself a state name (`Valid`). Otherwise the source's rewrite of the accessor never terminates (see Findings).
- Assembly.NewComponent: component.rs calls `IdentModifier::new` with one argument, but visitor/ident.rs:55 takes two. The model uses the two-argument form, with the state identifier as a parameter that is not a state name.
- Assembly.NewComponent: `raise_errors` is never called, so the rewriter's errors are dropped. The `mount` and `mount_mounted` buckets are not carried into the component, as in the source.
- The warning emitted for block attributes, `println!` debug output and the `dbg_line` counter (used only in panic messages) are left out.
- ThirParse.Switch: compares string lengths in characters where the source uses bytes. They agree on the two-character closer lines it tests.
- Nodes.GenerateElement: loop scopes, props and reconciliation are not generated by the source either. `If` code generation is modelled only as its panic.
- ThirParse.InsertItem: the span field of `PatBinding` is commented out in the source and is not modelled.

## Findings

| source | as written | input that shows it | evidently intended | confidence | as-written member | corrected member |
|---|---|---|---|---|---|---|
| code_generator/src/html/mod.rs:476-510 | on a mismatch the partial match is reset without re-examining the token that broke it | the comment `<!---->`, or any `--->` ending: the scan never sees `-->` | stop at the first occurrence of the target | not executed | Html.ScanAsWritten, Html.EmptyCommentMissed | Html.FindTarget, Html.ParseStringUntilString |
| code_generator/src/visitor/ident.rs:193-232 | the accessor a state is rewritten to starts with the state identifier, which is rewritten again when it is also a state name | a component whose state identifier equals one of its state names, visiting any read of a state: `x` becomes `s.borrow().x`, then `s.borrow_mut().s.borrow()`, and the call `s.borrow_mut()` reappears on every step | the state identifier is never a state name (`Valid`), so the visit ends and every accessor is left alone | not executed | Visitor.UnguardedVisitLoops | Visitor.VisitExpr, Visitor.VisitExprSound |
