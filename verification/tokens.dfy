/** The token trees a procedural macro receives (proc_macro2's `TokenTree`):
    punctuation characters with their spacing, identifiers, literals and
    delimited groups. Every token carries an opaque span used by diagnostics. */
module Tokens {

  type NonEmptyString = s: string | |s| > 0 witness "_"

  datatype Delim = Brace | Paren | Bracket

  /** A literal token: a string literal, with its unescaped value and the
      text it was written as (quotes, escapes, raw `r"..."` form and all), or
      any other literal (numbers, chars, ...) kept as its source text. */
  datatype Lit = Str(value: string, repr: NonEmptyString) | Other(repr: NonEmptyString)

  /** The written form of a plain string literal with no escapes in it. */
  function Quoted(v: string): NonEmptyString
  {
    "\"" + v + "\""
  }

  datatype Token =
    | Punct(ch: char, joint: bool, sp: nat)
    | Ident(name: NonEmptyString, sp: nat)
    | Literal(lit: Lit, sp: nat)
    | Group(delim: Delim, inner: seq<Token>, sp: nat)

  function Open(d: Delim): string
  {
    match d
    case Brace => "{"
    case Paren => "("
    case Bracket => "["
  }

  function Close(d: Delim): string
  {
    match d
    case Brace => "}"
    case Paren => ")"
    case Bracket => "]"
  }

  /** `tt.to_string()`: never empty, because every token prints at least one
      character. Groups print their contents separated by single spaces. */
  function TokenText(t: Token): (s: string)
    ensures |s| > 0
    decreases t
  {
    match t
    case Punct(c, _, _) => [c]
    case Ident(n, _) => n
    case Literal(l, _) => l.repr
    case Group(d, inner, _) => Open(d) + SpacedText(inner) + Close(d)
  }

  function SpacedText(ts: seq<Token>): string
    decreases ts
  {
    if |ts| == 0 then ""
    else if |ts| == 1 then TokenText(ts[0])
    else TokenText(ts[0]) + " " + SpacedText(ts[1..])
  }

  /** The texts of `ts` concatenated without separators (`stack.join("")`). */
  function JoinedText(ts: seq<Token>): string
  {
    if |ts| == 0 then "" else TokenText(ts[0]) + JoinedText(ts[1..])
  }

  lemma JoinedTextAppend(a: seq<Token>, b: seq<Token>)
    ensures JoinedText(a + b) == JoinedText(a) + JoinedText(b)
  {
    if |a| > 0 {
      assert (a + b)[1..] == a[1..] + b;
      JoinedTextAppend(a[1..], b);
    } else {
      assert a + b == b;
    }
  }

  /** The joined text of a token run is empty exactly when the run is. */
  lemma JoinedTextEmpty(ts: seq<Token>)
    ensures JoinedText(ts) == "" <==> |ts| == 0
  {
    if |ts| > 0 {
      assert |TokenText(ts[0])| > 0;
    }
  }

  /** The words syn refuses as a plain `Ident` (they parse only through
      `Ident::parse_any` or as keyword tokens). */
  predicate IsKeyword(s: string)
  {
    s in {"_", "abstract", "as", "async", "await", "become", "box", "break", "const",
          "continue", "crate", "do", "dyn", "else", "enum", "extern", "false", "final",
          "fn", "for", "if", "impl", "in", "let", "loop", "macro", "match", "mod", "move",
          "mut", "override", "priv", "pub", "ref", "return", "Self", "self", "static",
          "struct", "super", "trait", "true", "try", "type", "typeof", "unsafe", "unsized",
          "use", "virtual", "where", "while", "yield"}
  }

  // Cursor predicates over a flat token run.

  predicate IsPunct(ts: seq<Token>, pos: nat, c: char)
  {
    pos < |ts| && ts[pos].Punct? && ts[pos].ch == c
  }

  /** Peek of a two-character punctuation: the first character must be
      joint with the second. */
  predicate IsPunct2(ts: seq<Token>, pos: nat, c1: char, c2: char)
  {
    IsPunct(ts, pos, c1) && ts[pos].joint && IsPunct(ts, pos + 1, c2)
  }

  predicate IsAnyIdent(ts: seq<Token>, pos: nat)
  {
    pos < |ts| && ts[pos].Ident?
  }

  /** `peek(Ident)`: an identifier that is not a keyword. */
  predicate IsPlainIdent(ts: seq<Token>, pos: nat)
  {
    IsAnyIdent(ts, pos) && !IsKeyword(ts[pos].name)
  }

  /** `peek(Token![kw])`. */
  predicate IsKw(ts: seq<Token>, pos: nat, kw: string)
  {
    IsAnyIdent(ts, pos) && ts[pos].name == kw
  }

  predicate IsStrLit(ts: seq<Token>, pos: nat)
  {
    pos < |ts| && ts[pos].Literal? && ts[pos].lit.Str?
  }

  predicate IsBrace(ts: seq<Token>, pos: nat)
  {
    pos < |ts| && ts[pos].Group? && ts[pos].delim == Brace
  }
}
