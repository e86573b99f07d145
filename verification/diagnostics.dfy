/** Failure values of the pipeline. A syn `Error` is a list of markers, each a
    source location with a message; `combine` concatenates the lists. A Rust
    `panic!`, `todo!` or `unwrap` on `None` aborts the macro expansion and is a
    separate kind of failure. */
module Diagnostics {

  datatype Option<T> = None | Some(value: T)

  /** Where a marker points: the span of a token, the end of the input when
      the cursor is exhausted, or a place inside a host expression (whose
      tokens carry no spans in this model), named by the identifier there. */
  datatype Loc = At(sp: nat) | EndOfInput | InExpr(ident: string)

  /** The messages the core attaches to its diagnostics. */
  datatype Msg =
    // template parser (html/mod.rs)
    | ExpectedIdent
    | ExpectedPunct(c: char)
    | ExpectedBrace
    | ExpectedPattern
    | ExpectedKeyword(kw: string)
    | ExpectedExpression
    | ExpressionRequired
    | BlockError
    | CantParseIdent
    | InnerError
    | TargetNotFound(target: string)
    | ClosingNameMismatch
    | NoClosingMatch
    | ConsiderCloseIf
    | IfAfterOpenIf
    | ElseIfWithoutIf
    | ElseAfterElse
    | RemoveElse
    | ElseWithoutIf
    | IfMustClose
    | InsertCloseIf
    // state/event extractor (state_block.rs)
    | TypeRequired
    | LocalNotHandled
    | NotInStates
    | NotInEvents
    // expression rewriter (visitor/ident.rs)
    | MultipleIdents
    | ReparseFailed
    | MacroNotImplemented

  /** Why a `panic!`, `todo!` or `unwrap` fired. */
  datatype PanicReason =
    | TypedLetWithoutIdent
    | BindNotImplemented
    | IfNotImplemented
    | NoStateForBind
    | NoEventForListener

  datatype Marker = Marker(loc: Loc, msg: Msg)

  datatype Failure = Diagnostic(markers: seq<Marker>) | Panic(reason: PanicReason)

  /** `syn::Result<T>` extended with the panic outcome. */
  datatype Result<+T> = Ok(value: T) | Err(failure: Failure) {
    predicate IsFailure()
    {
      Err?
    }

    function PropagateFailure<U>(): Result<U>
      requires Err?
    {
      Err(failure)
    }

    function Extract(): T
      requires Ok?
    {
      value
    }
  }

  /** `Error::new(span, msg)`. */
  function Single(loc: Loc, msg: Msg): Failure
  {
    Diagnostic([Marker(loc, msg)])
  }

  /** `Error::new(span1, msg1)` combined with `Error::new(span2, msg2)`. */
  function Pair(loc1: Loc, msg1: Msg, loc2: Loc, msg2: Msg): Failure
  {
    Diagnostic([Marker(loc1, msg1), Marker(loc2, msg2)])
  }
}
