/** The span and THIR-dump readers (thir.rs): character-level parsers over
    the text rustc prints. `Span::from` reads `file:line:col:line:col(...)`;
    `RawInfo::serialize` skips the dump's first line and reads the rest as a
    tree of brace maps, bracket lists, parenthesised named lists and text
    lines, collecting the `Pat` nodes whose kind is `Binding` on the way.
    The shared character iterator becomes the remaining text, returned with
    each result. */
module ThirParse {
  import opened Strings
  import opened Diagnostics

  // ---------------------------------------------------------------------
  // u32 parsing

  /** The value of a run of decimal digits. */
  function DecimalValue(t: string): nat
    requires forall i :: 0 <= i < |t| ==> IsDigit(t[i])
  {
    if |t| == 0 then 0
    else
      assert IsDigit(t[|t| - 1]);
      DecimalValue(t[..|t| - 1]) * 10 + (t[|t| - 1] as int - '0' as int)
  }

  const U32Max: nat := 0xFFFF_FFFF

  /** `str::parse::<u32>`: an optional `+`, then at least one digit, and a
      value that fits in 32 bits. */
  function ParseU32(s: string): (r: Option<nat>)
    ensures r.Some? ==> r.value <= U32Max
    ensures r.Some? ==> |s| > 0
  {
    var t := if |s| > 0 && s[0] == '+' then s[1..] else s;
    if AllDigits(t) && DecimalValue(t) <= U32Max then Some(DecimalValue(t))
    else None
  }

  /** `s.parse().unwrap_or(0)`. */
  function U32OrZero(s: string): (n: nat)
    ensures n <= U32Max
    ensures ParseU32(s).None? ==> n == 0
  {
    match ParseU32(s)
    case Some(v) => v
    case None => 0
  }

  lemma {:induction false} DecimalOfNatToString(n: nat)
    ensures DecimalValue(NatToString(n)) == n
  {
    if n >= 10 {
      var s := NatToString(n);
      assert s[..|s| - 1] == NatToString(n / 10);
      DecimalOfNatToString(n / 10);
    }
  }

  /** Printing a 32-bit value in decimal and parsing it back gives the value. */
  lemma ParsePrinted(n: nat)
    requires n <= U32Max
    ensures ParseU32(NatToString(n)) == Some(n)
  {
    DecimalOfNatToString(n);
    var s := NatToString(n);
    assert s[0] != '+' by { assert IsDigit(s[0]); }
  }

  /** A value past 32 bits does not parse, so a position holding it reads
      as 0. */
  lemma ParseTooLarge(n: nat)
    requires n > U32Max
    ensures ParseU32(NatToString(n)) == None
    ensures U32OrZero(NatToString(n)) == 0
  {
    DecimalOfNatToString(n);
    var s := NatToString(n);
    assert s[0] != '+' by { assert IsDigit(s[0]); }
  }

  /** A leading `+` is accepted; a sign alone or an empty text is not. */
  lemma ParseSigns()
    ensures ParseU32("+7") == Some(7)
    ensures ParseU32("+") == None && ParseU32("") == None
  {
    assert "+7"[0] == '+' && "+7"[1..] == "7";
    assert "7"[..0] == "" && IsDigit('7');
    assert DecimalValue("7") == 7;
  }

  /** An unsigned parse rejects a minus sign. */
  lemma ParseNegative(s: string)
    requires |s| > 0 && s[0] == '-'
    ensures ParseU32(s) == None
  {
    assert !IsDigit(s[0]);
  }

  // ---------------------------------------------------------------------
  // Span::from

  datatype Location = Location(line: nat, column: nat)

  datatype Span = Span(file: string, start: Location, end: Location)

  /** The loop state of `Span::from`. */
  datatype SpanScan = SpanScan(file: string, positions: seq<string>, buf: string, fileParsed: bool)

  /** The character loop: the first `:` ends the file name, each later `:`
      ends a position, and once the file name is read a `(` stops the scan. */
  function ScanSpan(t: string, st: SpanScan): SpanScan
    decreases |t|
  {
    if |t| == 0 then st
    else if t[0] == ':' then
      if st.fileParsed then ScanSpan(t[1..], st.(positions := st.positions + [st.buf], buf := ""))
      else ScanSpan(t[1..], st.(file := st.buf, fileParsed := true, buf := ""))
    else if t[0] == '(' && st.fileParsed then st
    else ScanSpan(t[1..], st.(buf := st.buf + [t[0]]))
  }

  /** `Location::from_iterator` twice, each falling back to (0, 0): the
      first two numbers are the start, the next two the end. */
  function Locations(nums: seq<nat>): (r: (Location, Location))
    ensures |nums| >= 2 ==> r.0 == Location(nums[0], nums[1])
    ensures |nums| < 2 ==> r.0 == Location(0, 0)
    ensures |nums| >= 4 ==> r.1 == Location(nums[2], nums[3])
    ensures |nums| < 4 ==> r.1 == Location(0, 0)
  {
    var start := if |nums| >= 2 then Location(nums[0], nums[1]) else Location(0, 0);
    // with one number left over, `from_iterator` consumes it and gives up
    var end := if |nums| >= 4 then Location(nums[2], nums[3]) else Location(0, 0);
    (start, end)
  }

  /** `Span::from`. */
  function SpanFrom(value: string): (r: Span)
  {
    var st := ScanSpan(value, SpanScan("", [], "", false));
    var positions := st.positions + [st.buf];
    var nums := seq(|positions|, i requires 0 <= i < |positions| => U32OrZero(positions[i]));
    var (start, end) := Locations(nums);
    Span(st.file, start, end)
  }

  /** A run of ordinary characters only extends the buffer. */
  lemma {:induction false} ScanPlain(chunk: string, rest: string, st: SpanScan)
    requires forall i | 0 <= i < |chunk| :: chunk[i] != ':' && (st.fileParsed ==> chunk[i] != '(')
    ensures ScanSpan(chunk + rest, st) == ScanSpan(rest, st.(buf := st.buf + chunk))
    decreases |chunk|
  {
    if |chunk| > 0 {
      assert (chunk + rest)[1..] == chunk[1..] + rest;
      ScanPlain(chunk[1..], rest, st.(buf := st.buf + [chunk[0]]));
      assert st.buf + [chunk[0]] + chunk[1..] == st.buf + chunk;
    } else {
      assert chunk + rest == rest;
      assert st.(buf := st.buf + chunk) == st;
    }
  }

  /** Everything before the first `:` is the file name; without a `:` the
      file name stays empty. */
  lemma SpanFile(value: string)
    ensures (forall i | 0 <= i < |value| :: value[i] != ':') ==> SpanFrom(value).file == ""
    ensures forall k | 0 <= k < |value| && value[k] == ':' && (forall i | 0 <= i < k :: value[i] != ':') ::
              SpanFrom(value).file == value[..k]
  {
    var st0 := SpanScan("", [], "", false);
    if forall i | 0 <= i < |value| :: value[i] != ':' {
      ScanPlain(value, "", st0);
      assert value + "" == value;
    }
    forall k | 0 <= k < |value| && value[k] == ':' && (forall i | 0 <= i < k :: value[i] != ':')
      ensures SpanFrom(value).file == value[..k]
    {
      assert value == value[..k] + value[k..];
      ScanPlain(value[..k], value[k..], st0);
      assert "" + value[..k] == value[..k];
      assert value[k..][1..] == value[k + 1..];
      FileKept(value[k + 1..], SpanScan(value[..k], [], "", true));
    }
  }

  /** Once the file name is read it is never changed. */
  lemma {:induction false} FileKept(t: string, st: SpanScan)
    requires st.fileParsed
    ensures ScanSpan(t, st).file == st.file
    decreases |t|
  {
    if |t| > 0 {
      if t[0] == ':' {
        FileKept(t[1..], st.(positions := st.positions + [st.buf], buf := ""));
      } else if t[0] != '(' {
        FileKept(t[1..], st.(buf := st.buf + [t[0]]));
      }
    }
  }

  /** The scan of `file:a:b:c:d(tail)`: the file name, three positions
      and the fourth in the buffer when `(` stops it. */
  lemma {:induction false} ScanPrinted(file: string, a: string, b: string, c: string, d: string, tail: string)
    requires forall i | 0 <= i < |file| :: file[i] != ':'
    requires forall i | 0 <= i < |a| :: IsDigit(a[i])
    requires forall i | 0 <= i < |b| :: IsDigit(b[i])
    requires forall i | 0 <= i < |c| :: IsDigit(c[i])
    requires forall i | 0 <= i < |d| :: IsDigit(d[i])
    ensures ScanSpan(file + ":" + a + ":" + b + ":" + c + ":" + d + "(" + tail, SpanScan("", [], "", false))
         == SpanScan(file, [a, b, c], d, true)
  {
    var rest := a + ":" + b + ":" + c + ":" + d + "(" + tail;
    var r1 := ":" + rest;
    hide ScanSpan;
    var st0 := SpanScan("", [], "", false);
    assert ScanSpan(file + r1, st0) == ScanSpan(rest, SpanScan(file, [], "", true)) by {
      ScanPlain(file, r1, st0);
      assert st0.(buf := st0.buf + file) == SpanScan("", [], file, false);
      ScanColon(r1, SpanScan("", [], file, false));
      assert r1[1..] == rest;
    }
    assert file + ":" + a + ":" + b + ":" + c + ":" + d + "(" + tail == file + r1;
    ScanPrintedPositions(file, a, b, c, d, tail);
  }

  /** The part of that scan after the file name. */
  lemma {:induction false} ScanPrintedPositions(file: string, a: string, b: string, c: string, d: string, tail: string)
    requires forall i | 0 <= i < |a| :: IsDigit(a[i])
    requires forall i | 0 <= i < |b| :: IsDigit(b[i])
    requires forall i | 0 <= i < |c| :: IsDigit(c[i])
    requires forall i | 0 <= i < |d| :: IsDigit(d[i])
    ensures ScanSpan(a + ":" + b + ":" + c + ":" + d + "(" + tail, SpanScan(file, [], "", true))
         == SpanScan(file, [a, b, c], d, true)
  {
    var r4 := ":" + d + "(" + tail;
    var r3 := ":" + c + r4;
    var r2 := ":" + b + r3;
    assert a + ":" + b + ":" + c + ":" + d + "(" + tail == a + r2;
    hide ScanSpan;
    var st1 := SpanScan(file, [], "", true);
    var st2 := st1.(positions := [a]);
    var st3 := st1.(positions := [a, b]);
    var st4 := st1.(positions := [a, b, c]);
    assert ScanSpan(a + r2, st1) == ScanSpan(b + r3, st2) by {
      assert r2[1..] == b + r3;
      var _ := ScanNumber(a, r2, st1);
      assert [] + [a] == [a];
    }
    assert ScanSpan(b + r3, st2) == ScanSpan(c + r4, st3) by {
      assert r3[1..] == c + r4;
      var _ := ScanNumber(b, r3, st2);
      assert [a] + [b] == [a, b];
    }
    assert ScanSpan(c + r4, st3) == ScanSpan(d + ("(" + tail), st4) by {
      assert r4[1..] == d + ("(" + tail);
      var _ := ScanNumber(c, r4, st3);
      assert [a, b] + [c] == [a, b, c];
    }
    assert ScanSpan(d + ("(" + tail), st4) == st4.(buf := d) by {
      ScanPlain(d, "(" + tail, st4);
      assert st4.buf + d == d;
      ScanParen("(" + tail, st4.(buf := d));
    }
  }

  /** One step of the scan at a `:`. */
  lemma ScanColon(t: string, st: SpanScan)
    requires |t| > 0 && t[0] == ':'
    ensures !st.fileParsed ==> ScanSpan(t, st) == ScanSpan(t[1..], st.(file := st.buf, fileParsed := true, buf := ""))
    ensures st.fileParsed ==> ScanSpan(t, st) == ScanSpan(t[1..], st.(positions := st.positions + [st.buf], buf := ""))
  {
  }

  /** After the file name, a `(` ends the scan. */
  lemma ScanParen(t: string, st: SpanScan)
    requires |t| > 0 && t[0] == '(' && st.fileParsed
    ensures ScanSpan(t, st) == st
  {
  }

  /** The span text rustc prints is read back exactly: the file name, then
      the start and end positions, up to the `(` that follows. */
  lemma SpanRoundTrip(file: string, l1: nat, c1: nat, l2: nat, c2: nat, tail: string)
    requires forall i | 0 <= i < |file| :: file[i] != ':'
    requires l1 <= U32Max && c1 <= U32Max && l2 <= U32Max && c2 <= U32Max
    ensures SpanFrom(file + ":" + NatToString(l1) + ":" + NatToString(c1) + ":" + NatToString(l2) + ":"
                     + NatToString(c2) + "(" + tail)
         == Span(file, Location(l1, c1), Location(l2, c2))
  {
    var a, b, c, d := NatToString(l1), NatToString(c1), NatToString(l2), NatToString(c2);
    ScanPrinted(file, a, b, c, d, tail);
    ParsePrinted(l1);
    ParsePrinted(c1);
    ParsePrinted(l2);
    ParsePrinted(c2);
    var positions := [a, b, c] + [d];
    var nums := seq(|positions|, i requires 0 <= i < |positions| => U32OrZero(positions[i]));
    assert nums == [l1, c1, l2, c2];
  }

  /** A number followed by `:` becomes the next position. */
  lemma ScanNumber(n: string, rest: string, st: SpanScan) returns (st1: SpanScan)
    requires st.fileParsed && st.buf == ""
    requires forall i | 0 <= i < |n| :: IsDigit(n[i])
    requires |rest| > 0 && rest[0] == ':'
    ensures st1 == st.(positions := st.positions + [n])
    ensures ScanSpan(n + rest, st) == ScanSpan(rest[1..], st1)
  {
    ScanPlain(n, rest, st);
    assert st.buf + n == n;
    ScanColon(rest, st.(buf := n));
    st1 := st.(positions := st.positions + [n]);
  }

  /** The example from the source's documentation. */
  lemma SpanExample()
    ensures SpanFrom("target/thir/src/main.rs/for_loop_1.rs:6:9:6:13(#0)")
         == Span("target/thir/src/main.rs/for_loop_1.rs", Location(6, 9), Location(6, 13))
  {
    var file := "target/thir/src/main.rs/for_loop_1.rs";
    assert NatToString(6) == "6" && NatToString(9) == "9" && NatToString(13) == "13";
    assert file + ":" + "6" + ":" + "9" + ":" + "6" + ":" + "13" + "(" + "#0)"
        == "target/thir/src/main.rs/for_loop_1.rs:6:9:6:13(#0)";
    SpanRoundTrip(file, 6, 9, 6, 13, "#0)");
  }

  // ---------------------------------------------------------------------
  // remove_last_char

  /** `remove_last_char`: one trailing character dropped; the empty text
      stays empty. */
  function RemoveLastChar(s: string): (r: string)
    ensures |s| == 0 ==> r == ""
    ensures |s| > 0 ==> |r| == |s| - 1 && s == r + [s[|s| - 1]]
  {
    if |s| == 0 then "" else s[..|s| - 1]
  }

  // ---------------------------------------------------------------------
  // The THIR dump reader

  /** One node of the dump: a bracket list, a brace map with its name, a
      parenthesised list with its name, or a text line. */
  datatype Thir =
    | List(items: seq<Thir>)
    | Fields(name: string, fields: map<string, Thir>)
    | NamedList(name: string, items: seq<Thir>)
    | Text(text: string)

  datatype PatBinding = PatBinding(name: string, ty: string)

  /** The `Err` values of `switch`: the input ran out, or a line held only
      a closing delimiter and a comma. */
  datatype DumpError = EndOfDump | CloseDelimiter

  /** The `panic!`s and `unwrap`s of the reader. */
  datatype DumpPanic =
    | LineEnd(c: char)          // a line ending in neither `{`, `[`, `(` nor `,`
    | UnknownKeyChar(c: char)   // a map key character outside `a-z` and `_`
    | MissingField(key: string) // a binding without a `name` or `ty` entry

  /** What a reader returns: its value with the text it left unread and the
      bindings collected so far, an error with the text left unread, or a
      panic. */
  datatype Parsed<T> =
    | Got(value: T, rest: string, bindings: seq<PatBinding>)
    | Failed(err: DumpError, rest: string)
    | Aborted(reason: DumpPanic)

  /** The text of a line ending in a comma: the comma dropped, then a pair of
      enclosing double quotes dropped. */
  function CommaText(buf: string): (r: string)
    requires |buf| > 0
    ensures var body := buf[..|buf| - 1];
            if |body| >= 2 && body[0] == '"' && body[|body| - 1] == '"' then body == ['"'] + r + ['"'] else r == body
  {
    var body := RemoveLastChar(buf);
    if |body| >= 2 && body[0] == '"' && body[|body| - 1] == '"' then
      assert body == ['"'] + body[1..|body| - 1] + ['"'];
      body[1..|body| - 1]
    else body
  }

  predicate IsCloser(c: char)
  {
    c == '}' || c == ']' || c == ')'
  }

  /** The fields of a `Pat` node whose `kind` is a `Binding` node: the
      Pat's fields extended with the Binding's, which win on shared keys.
      Any other node gives `None`. */
  function BindingFields(node: Thir): (r: Option<map<string, Thir>>)
    ensures r.Some? <==> node.Fields? && node.name == "Pat" && "kind" in node.fields
                         && node.fields["kind"].Fields? && node.fields["kind"].name == "Binding"
    ensures r.Some? ==> var pat, b := node.fields, node.fields["kind"].fields;
                        && (forall k :: k in r.value <==> k in pat || k in b)
                        && (forall k | k in b :: r.value[k] == b[k])
                        && (forall k | k in pat && k !in b :: r.value[k] == pat[k])
  {
    match node
    case Fields(name, pat) =>
      if name == "Pat" && "kind" in pat && pat["kind"].Fields? && pat["kind"].name == "Binding" then
        Some(pat + pat["kind"].fields)
      else None
    case _ => None
  }

  /** The outcome of `insert_item`. */
  datatype Pushed = Pushed(bindings: seq<PatBinding>) | PushPanic(key: string)

  /** `insert_item`: a `Pat` node of kind `Binding` whose merged fields hold
      text `name` and `ty` entries adds a binding; a missing entry panics; a
      non-text entry, or any other node, adds nothing. */
  function InsertItem(bs: seq<PatBinding>, node: Thir): (r: Pushed)
    ensures BindingFields(node).None? ==> r == Pushed(bs)
    ensures r.Pushed? ==> r.bindings == bs || (|r.bindings| == |bs| + 1 && r.bindings[..|bs|] == bs)
    ensures r.Pushed? && |r.bindings| > |bs| <==>
              BindingFields(node).Some? && var f := BindingFields(node).value;
              "name" in f && f["name"].Text? && "ty" in f && f["ty"].Text?
    ensures r.Pushed? && |r.bindings| > |bs| ==>
              var f := BindingFields(node).value;
              r.bindings[|bs|] == PatBinding(f["name"].text, f["ty"].text)
    ensures r.PushPanic? <==>
              BindingFields(node).Some? && var f := BindingFields(node).value;
              ("name" !in f || (f["name"].Text? && "ty" !in f))
  {
    match BindingFields(node)
    case None => Pushed(bs)
    case Some(f) =>
      // the fields are read in order, each either unwrapped or returned from
      if "name" !in f then PushPanic("name")
      else if !f["name"].Text? then Pushed(bs)
      else if "ty" !in f then PushPanic("ty")
      else if !f["ty"].Text? then Pushed(bs)
      else Pushed(bs + [PatBinding(f["name"].text, f["ty"].text)])
  }

  /** No space in a text, a name or a key anywhere in the tree. */
  predicate Spaceless(node: Thir)
  {
    match node
    case Text(s) => NoSpace(s)
    case List(items) => forall i | 0 <= i < |items| :: Spaceless(items[i])
    case NamedList(name, items) => NoSpace(name) && forall i | 0 <= i < |items| :: Spaceless(items[i])
    case Fields(name, m) => NoSpace(name) && forall k | k in m :: NoSpace(k) && Spaceless(m[k])
  }

  predicate NoSpace(s: string)
  {
    forall i | 0 <= i < |s| :: s[i] != ' '
  }

  /** A key `parse_map` can build. */
  predicate KeyName(k: string)
  {
    forall i | 0 <= i < |k| :: 'a' <= k[i] <= 'z' || k[i] == '_'
  }

  /** `switch` from a fresh line buffer. */
  function Switch(t: string, bs: seq<PatBinding>): (r: Parsed<Thir>)
    decreases |t|, 2
    ensures r.Got? ==> |r.rest| < |t| && Spaceless(r.value)
    ensures r.Failed? ==> |r.rest| <= |t|
  {
    SwitchFrom(t, "", ' ', bs)
  }

  /** The character loop of `switch`: spaces are skipped, every other
      character up to the line end goes into `buf`, and `prev` is the last
      character read, spaces included. */
  function SwitchFrom(t: string, buf: string, prev: char, bs: seq<PatBinding>): (r: Parsed<Thir>)
    requires NoSpace(buf)
    requires prev == ',' ==> |buf| > 0 && buf[|buf| - 1] == ','
    decreases |t|, 1
    ensures r.Got? ==> |r.rest| < |t| && Spaceless(r.value)
    ensures r.Failed? ==> |r.rest| <= |t|
  {
    if |t| == 0 then Failed(EndOfDump, t)
    else if t[0] == '\n' then LineDone(t, buf, prev, bs)
    else if t[0] == ' ' then SwitchFrom(t[1..], buf, ' ', bs)
    else SwitchFrom(t[1..], buf + [t[0]], t[0], bs)
  }

  /** The line-end decision of `switch`, `prev` being the line's last
      character. */
  function LineDone(t: string, buf: string, prev: char, bs: seq<PatBinding>): (r: Parsed<Thir>)
    requires |t| > 0 && t[0] == '\n'
    requires NoSpace(buf)
    requires prev == ',' ==> |buf| > 0 && buf[|buf| - 1] == ','
    decreases |t|, 0
    ensures r.Got? ==> |r.rest| < |t| && Spaceless(r.value)
    ensures r.Failed? ==> |r.rest| < |t|
  {
    if prev == '{' then
      var m := ParseMap(t[1..], map[], "", bs);
      if m.Aborted? then Aborted(m.reason)
      else
        var node := Fields(RemoveLastChar(buf), m.value);
        match InsertItem(m.bindings, node)
        case Pushed(bs1) => Got(node, m.rest, bs1)
        case PushPanic(key) => Aborted(MissingField(key))
    else if prev == '[' then
      // a list is never a binding: `insert_item` leaves it alone
      var v := ParseVec(t[1..], [], bs);
      if v.Aborted? then Aborted(v.reason) else Got(List(v.value), v.rest, v.bindings)
    else if prev == '(' then
      var v := ParseVec(t[1..], [], bs);
      if v.Aborted? then Aborted(v.reason) else Got(NamedList(RemoveLastChar(buf), v.value), v.rest, v.bindings)
    else if prev == ',' then
      // a closer and the comma: two characters, so two bytes
      if |buf| == 2 && IsCloser(buf[0]) then Failed(CloseDelimiter, t[1..])
      else Got(Text(CommaText(buf)), t[1..], bs)
    else Aborted(LineEnd(prev))
  }

  /** `parse_vec`: nodes read one after the other until `switch` fails; the
      failure itself is dropped. */
  function ParseVec(t: string, acc: seq<Thir>, bs: seq<PatBinding>): (r: Parsed<seq<Thir>>)
    requires forall i | 0 <= i < |acc| :: Spaceless(acc[i])
    decreases |t|, 3
    ensures !r.Failed?
    ensures r.Got? ==> |r.rest| <= |t| && |r.value| >= |acc| && r.value[..|acc|] == acc
    ensures r.Got? ==> forall i | 0 <= i < |r.value| :: Spaceless(r.value[i])
  {
    match Switch(t, bs)
    case Got(node, rest, bs1) => ParseVec(rest, acc + [node], bs1)
    case Failed(_, rest) => Got(acc, rest, bs)
    case Aborted(p) => Aborted(p)
  }

  /** `parse_map`: key characters accumulate in `name` until a `:`, whose
      value `switch` reads; a `}`, the end of the input or a failing value
      ends the map. */
  function ParseMap(t: string, m: map<string, Thir>, name: string, bs: seq<PatBinding>): (r: Parsed<map<string, Thir>>)
    requires KeyName(name)
    requires forall k | k in m :: KeyName(k) && Spaceless(m[k])
    decreases |t|, 3
    ensures !r.Failed?
    ensures r.Got? ==> |r.rest| <= |t|
    ensures r.Got? ==> forall k | k in r.value :: KeyName(k) && Spaceless(r.value[k])
    ensures r.Got? ==> m.Keys <= r.value.Keys
  {
    if |t| == 0 then Got(m, t, bs)
    else
      var c := t[0];
      if c == '}' then Got(m, t[1..], bs)
      else if c == ':' then
        match Switch(t[1..], bs)
        case Got(node, rest, bs1) => ParseMap(rest, m[name := node], "", bs1)
        case Failed(_, rest) => Got(m, rest, bs)
        case Aborted(p) => Aborted(p)
      else if c == ' ' || c == '\n' || c == ',' then ParseMap(t[1..], m, name, bs)
      else if 'a' <= c <= 'z' || c == '_' then ParseMap(t[1..], m, name + [c], bs)
      else Aborted(UnknownKeyChar(c))
  }

  /** The text after the first line end; all of it is consumed when there
      is none. */
  function AfterFirstLine(s: string): (r: string)
    ensures |r| <= |s|
    decreases |s|
  {
    if |s| == 0 then s else if s[0] == '\n' then s[1..] else AfterFirstLine(s[1..])
  }

  datatype RawInfo = RawInfo(bindings: seq<PatBinding>, thir: Thir)

  datatype Serialized = Serialized(info: RawInfo) | SerializeError(err: DumpError) | SerializePanic(reason: DumpPanic)

  /** `RawInfo::serialize`: the dump's first line is skipped and the rest is
      read as one node. */
  function Serialize(s: string): (r: Serialized)
    ensures r.Serialized? ==> Spaceless(r.info.thir)
  {
    match Switch(AfterFirstLine(s), [])
    case Got(node, _, bs) => Serialized(RawInfo(bs, node))
    case Failed(e, _) => SerializeError(e)
    case Aborted(p) => SerializePanic(p)
  }

  /** A text with its spaces left out. */
  function Unspaced(s: string): (r: string)
    ensures NoSpace(r)
    ensures |r| <= |s|
    ensures NoSpace(s) ==> r == s
  {
    if |s| == 0 then s
    else if s[|s| - 1] == ' ' then Unspaced(s[..|s| - 1])
    else Unspaced(s[..|s| - 1]) + [s[|s| - 1]]
  }

  /** Reading a stretch of a line without its end: the stretch, spaces
      left out, is appended to the buffer and its last character becomes
      `prev`. */
  lemma {:induction false} SwitchChunk(chunk: string, rest: string, buf: string, prev: char, bs: seq<PatBinding>)
    requires |chunk| > 0
    requires forall i | 0 <= i < |chunk| :: chunk[i] != '\n'
    requires NoSpace(buf)
    requires prev == ',' ==> |buf| > 0 && buf[|buf| - 1] == ','
    ensures var b := buf + Unspaced(chunk); var p := chunk[|chunk| - 1];
            (p == ',' ==> |b| > 0 && b[|b| - 1] == ',')
            && SwitchFrom(chunk + rest, buf, prev, bs) == SwitchFrom(rest, b, p, bs)
    decreases |chunk|
  {
    var front, last := chunk[..|chunk| - 1], chunk[|chunk| - 1];
    assert chunk == front + [last];
    assert chunk + rest == front + ([last] + rest);
    var buf1 := buf + Unspaced(front);
    var prev1 := if |front| > 0 then front[|front| - 1] else prev;
    if |front| > 0 {
      SwitchChunk(front, [last] + rest, buf, prev, bs);
    } else {
      assert buf1 == buf;
    }
    assert SwitchFrom(chunk + rest, buf, prev, bs) == SwitchFrom([last] + rest, buf1, prev1, bs);
    assert ([last] + rest)[1..] == rest;
    if last == ' ' {
      assert Unspaced(chunk) == Unspaced(front);
    } else {
      assert Unspaced(chunk) == Unspaced(front) + [last];
      assert buf1 + [last] == buf + Unspaced(chunk);
    }
  }

  /** Input without a line end runs out: `switch` fails at the end. */
  lemma {:induction false} NoLineEnd(t: string, buf: string, prev: char, bs: seq<PatBinding>)
    requires forall i | 0 <= i < |t| :: t[i] != '\n'
    requires NoSpace(buf)
    requires prev == ',' ==> |buf| > 0 && buf[|buf| - 1] == ','
    ensures SwitchFrom(t, buf, prev, bs) == Failed(EndOfDump, "")
  {
    if |t| > 0 {
      SwitchChunk(t, "", buf, prev, bs);
      assert t + "" == t;
    }
  }

  /** The end of a line read into `buf` and ending in a comma. */
  lemma CommaLine(buf: string, rest: string, bs: seq<PatBinding>)
    requires NoSpace(buf) && |buf| > 0 && buf[|buf| - 1] == ','
    ensures SwitchFrom("\n" + rest, buf, ',', bs)
         == if |buf| == 2 && IsCloser(buf[0]) then Failed(CloseDelimiter, rest) else Got(Text(CommaText(buf)), rest, bs)
  {
    assert ("\n" + rest)[1..] == rest;
  }

  /** A whole comma line without spaces. */
  lemma PlainCommaLine(w: string, rest: string, bs: seq<PatBinding>)
    requires NoSpace(w) && forall i | 0 <= i < |w| :: w[i] != '\n'
    ensures Switch(w + ",\n" + rest, bs)
         == if |w| == 1 && IsCloser(w[0]) then Failed(CloseDelimiter, rest) else Got(Text(CommaText(w + ",")), rest, bs)
  {
    hide SwitchFrom, LineDone, ParseMap, ParseVec, Unspaced, CommaText;
    assert w + ",\n" + rest == (w + ",") + ("\n" + rest);
    SwitchChunk(w + ",", "\n" + rest, "", ' ', bs);
    assert NoSpace(w + ",");
    assert "" + (w + ",") == w + ",";
    CommaLine(w + ",", rest, bs);
  }

  /** A line of only a closing delimiter and a comma is the end-of-list
      error, leaving the next line unread. */
  lemma CloserLine(c: char, rest: string, bs: seq<PatBinding>)
    requires IsCloser(c)
    ensures Switch([c] + ",\n" + rest, bs) == Failed(CloseDelimiter, rest)
  {
    PlainCommaLine([c], rest, bs);
  }

  /** A text line reads as that text, its trailing comma dropped. */
  lemma TextLine(q: string, rest: string, bs: seq<PatBinding>)
    requires NoSpace(q) && forall i | 0 <= i < |q| :: q[i] != '\n'
    requires !(|q| == 1 && IsCloser(q[0]))
    requires !(|q| >= 2 && q[0] == '"' && q[|q| - 1] == '"')
    ensures Switch(q + ",\n" + rest, bs) == Got(Text(q), rest, bs)
  {
    hide SwitchFrom, LineDone, ParseMap, ParseVec, Unspaced;
    PlainCommaLine(q, rest, bs);
    assert (q + ",")[..|q|] == q;
  }

  /** A quoted text line reads as the text between the quotes. */
  lemma QuotedLine(q: string, rest: string, bs: seq<PatBinding>)
    requires NoSpace(q) && forall i | 0 <= i < |q| :: q[i] != '\n'
    ensures Switch("\"" + q + "\",\n" + rest, bs) == Got(Text(q), rest, bs)
  {
    hide SwitchFrom, LineDone, ParseMap, ParseVec, Unspaced;
    var w := "\"" + q + "\"";
    assert "\"" + q + "\",\n" + rest == w + ",\n" + rest;
    PlainCommaLine(w, rest, bs);
    assert (w + ",")[..|w|] == w;
    assert w == ['"'] + q + ['"'];
    var r := CommaText(w + ",");
    assert ['"'] + r + ['"'] == ['"'] + q + ['"'];
    assert r == (['"'] + r + ['"'])[1..|r| + 1];
  }

  /** Spaces inside a comma line make no difference to what it reads as. */
  lemma CommaLineSpaces(q: string, rest: string, bs: seq<PatBinding>)
    requires forall i | 0 <= i < |q| :: q[i] != '\n'
    ensures Switch(q + ",\n" + rest, bs) == Switch(Unspaced(q) + ",\n" + rest, bs)
  {
    var u := Unspaced(q);
    assert forall i | 0 <= i < |u| :: u[i] != '\n' by {
      UnspacedChars(q);
      assert '\n' !in q;
    }
    hide SwitchFrom, LineDone, ParseMap, ParseVec;
    assert Unspaced(q + ",") == u + "," by {
      assert (q + ",")[..|q|] == q;
    }
    assert Unspaced(u + ",") == u + "," by {
      assert NoSpace(u + ",");
    }
    hide Unspaced;
    SwitchChunk(q + ",", "\n" + rest, "", ' ', bs);
    SwitchChunk(u + ",", "\n" + rest, "", ' ', bs);
    assert q + ",\n" + rest == (q + ",") + ("\n" + rest);
    assert u + ",\n" + rest == (u + ",") + ("\n" + rest);
  }

  /** Leaving spaces out introduces no character. */
  lemma {:induction false} UnspacedChars(s: string)
    ensures forall c | c in Unspaced(s) :: c in s
  {
    if |s| > 0 {
      UnspacedChars(s[..|s| - 1]);
      assert s == s[..|s| - 1] + [s[|s| - 1]];
    }
  }

  /** Key characters accumulate in the key being read. */
  lemma {:induction false} ParseMapName(k: string, rest: string, m: map<string, Thir>, name: string, bs: seq<PatBinding>)
    requires KeyName(k) && KeyName(name)
    requires forall key | key in m :: KeyName(key) && Spaceless(m[key])
    ensures KeyName(name + k)
    ensures ParseMap(k + rest, m, name, bs) == ParseMap(rest, m, name + k, bs)
    decreases |k|
  {
    if |k| > 0 {
      assert (k + rest)[1..] == k[1..] + rest;
      ParseMapName(k[1..], rest, m, name + [k[0]], bs);
      assert name + [k[0]] + k[1..] == name + k;
    } else {
      assert k + rest == rest;
      assert name + k == name;
    }
  }

  /** The characters a map reads without ending or aborting: key
      characters and the separators it skips. */
  predicate MapTextChar(c: char)
  {
    'a' <= c <= 'z' || c == '_' || c == ' ' || c == '\n' || c == ','
  }

  /** Any character outside `a-z`, `_`, `}`, `:`, space, line end and comma
      met while reading a key aborts the reader with that character. */
  lemma {:induction false} ParseMapUnknownChar(w: string, c: char, rest: string, m: map<string, Thir>, name: string, bs: seq<PatBinding>)
    requires forall i | 0 <= i < |w| :: MapTextChar(w[i])
    requires !MapTextChar(c) && c != '}' && c != ':'
    requires KeyName(name)
    requires forall key | key in m :: KeyName(key) && Spaceless(m[key])
    ensures ParseMap(w + [c] + rest, m, name, bs) == Aborted(UnknownKeyChar(c))
    decreases |w|
  {
    var t := w + [c] + rest;
    if |w| == 0 {
      assert t[0] == c;
    } else {
      assert t[0] == w[0];
      assert t[1..] == w[1..] + [c] + rest;
      if 'a' <= w[0] <= 'z' || w[0] == '_' {
        ParseMapUnknownChar(w[1..], c, rest, m, name + [w[0]], bs);
      } else {
        ParseMapUnknownChar(w[1..], c, rest, m, name, bs);
      }
    }
  }

  /** A map entry `key:value`: the value is read by `switch` and stored
      under the key, and reading goes on with a fresh key. */
  lemma ParseMapEntry(k: string, rest: string, m: map<string, Thir>, bs: seq<PatBinding>)
    requires KeyName(k)
    requires forall key | key in m :: KeyName(key) && Spaceless(m[key])
    ensures var sw := Switch(rest, bs);
            (ParseMap(k + ":" + rest, m, "", bs)
             == if sw.Got? then ParseMap(sw.rest, m[k := sw.value], "", sw.bindings)
                else if sw.Failed? then Got(m, sw.rest, bs)
                else Aborted(sw.reason))
  {
    assert k + ":" + rest == k + (":" + rest);
    ParseMapName(k, ":" + rest, m, "", bs);
    assert "" + k == k;
    assert (":" + rest)[1..] == rest;
  }

  /** Spaces, line ends and commas between entries are skipped. */
  lemma {:induction false} ParseMapSkip(gap: string, rest: string, m: map<string, Thir>, name: string, bs: seq<PatBinding>)
    requires forall i | 0 <= i < |gap| :: gap[i] == ' ' || gap[i] == '\n' || gap[i] == ','
    requires KeyName(name)
    requires forall key | key in m :: KeyName(key) && Spaceless(m[key])
    ensures ParseMap(gap + rest, m, name, bs) == ParseMap(rest, m, name, bs)
    decreases |gap|
  {
    if |gap| > 0 {
      assert (gap + rest)[1..] == gap[1..] + rest;
      ParseMapSkip(gap[1..], rest, m, name, bs);
    } else {
      assert gap + rest == rest;
    }
  }

  /** A bracket list of text lines, ended by its closing line. */
  lemma ListOfTexts(a: string, b: string, rest: string, bs: seq<PatBinding>)
    requires NoSpace(a) && forall i | 0 <= i < |a| :: a[i] != '\n'
    requires !(|a| == 1 && IsCloser(a[0])) && !(|a| >= 2 && a[0] == '"' && a[|a| - 1] == '"')
    requires NoSpace(b) && forall i | 0 <= i < |b| :: b[i] != '\n'
    requires !(|b| == 1 && IsCloser(b[0])) && !(|b| >= 2 && b[0] == '"' && b[|b| - 1] == '"')
    ensures Switch("[\n" + a + ",\n" + b + ",\n],\n" + rest, bs) == Got(List([Text(a), Text(b)]), rest, bs)
  {
    hide SwitchFrom, LineDone, ParseVec;
    var r2 := "],\n" + rest;
    var r1 := b + ",\n" + r2;
    var r0 := a + ",\n" + r1;
    assert "[\n" + a + ",\n" + b + ",\n],\n" + rest == "[" + ("\n" + r0);
    assert ParseVec(r0, [], bs) == Got([Text(a), Text(b)], rest, bs) by {
      TextLine(a, r1, bs);
      TextLine(b, r2, bs);
      assert r2 == [']'] + ",\n" + rest;
      CloserLine(']', rest, bs);
      VecStep(r0, [], bs);
      VecStep(r1, [Text(a)], bs);
      VecStep(r2, [Text(a), Text(b)], bs);
      assert [] + [Text(a)] == [Text(a)];
      assert [Text(a)] + [Text(b)] == [Text(a), Text(b)];
    }
    SwitchChunk("[", "\n" + r0, "", ' ', bs);
    assert "" + Unspaced("[") == "[";
    LineStep("\n" + r0, "[", '[', bs);
    assert ("\n" + r0)[1..] == r0;
    ListLine("\n" + r0, [Text(a), Text(b)], rest, bs);
  }

  /** A line ending in `[` reads a list from the next line on. */
  lemma ListLine(t: string, vals: seq<Thir>, rest: string, bs: seq<PatBinding>)
    requires |t| > 0 && t[0] == '\n' && ParseVec(t[1..], [], bs) == Got(vals, rest, bs)
    ensures LineDone(t, "[", '[', bs) == Got(List(vals), rest, bs)
  {
  }

  /** One unfolding of `parse_vec`. */
  lemma VecStep(t: string, acc: seq<Thir>, bs: seq<PatBinding>)
    requires forall i | 0 <= i < |acc| :: Spaceless(acc[i])
    ensures var sw := Switch(t, bs);
            (ParseVec(t, acc, bs)
             == if sw.Got? then ParseVec(sw.rest, acc + [sw.value], sw.bindings)
                else if sw.Failed? then Got(acc, sw.rest, bs)
                else Aborted(sw.reason))
  {
  }

  /** One unfolding of `switch` at a line end. */
  lemma LineStep(t: string, buf: string, prev: char, bs: seq<PatBinding>)
    requires |t| > 0 && t[0] == '\n'
    requires NoSpace(buf)
    requires prev == ',' ==> |buf| > 0 && buf[|buf| - 1] == ','
    ensures SwitchFrom(t, buf, prev, bs) == LineDone(t, buf, prev, bs)
  {
  }

  /** Leaving out spaces works piecewise. */
  lemma {:induction false} UnspacedAppend(a: string, b: string)
    ensures Unspaced(a + b) == Unspaced(a) + Unspaced(b)
    decreases |b|
  {
    if |b| == 0 {
      assert a + b == a;
    } else {
      var b0 := b[..|b| - 1];
      assert (a + b)[..|a + b| - 1] == a + b0;
      UnspacedAppend(a, b0);
    }
  }

  /** A `}` ends a map. */
  lemma MapClose(rest: string, m: map<string, Thir>, name: string, bs: seq<PatBinding>)
    requires KeyName(name)
    requires forall key | key in m :: KeyName(key) && Spaceless(m[key])
    ensures ParseMap("}" + rest, m, name, bs) == Got(m, rest, bs)
  {
    assert ("}" + rest)[1..] == rest;
  }

  /** A comma line after `: `, as the dump writes a value. */
  lemma ValueLine(q: string, rest: string, bs: seq<PatBinding>)
    requires NoSpace(q) && forall i | 0 <= i < |q| :: q[i] != '\n'
    requires !(|q| == 1 && IsCloser(q[0]))
    requires !(|q| >= 2 && q[0] == '"' && q[|q| - 1] == '"')
    ensures Switch(" " + q + ",\n" + rest, bs) == Got(Text(q), rest, bs)
  {
    LeadingSpace(q);
    hide SwitchFrom, LineDone, ParseMap, ParseVec, Unspaced;
    CommaLineSpaces(" " + q, rest, bs);
    TextLine(q, rest, bs);
  }

  /** A quoted comma line after `: `. */
  lemma QuotedValueLine(q: string, rest: string, bs: seq<PatBinding>)
    requires NoSpace(q) && forall i | 0 <= i < |q| :: q[i] != '\n'
    ensures Switch(" \"" + q + "\",\n" + rest, bs) == Got(Text(q), rest, bs)
  {
    var w := "\"" + q + "\"";
    LeadingSpace(w);
    hide SwitchFrom, LineDone, ParseMap, ParseVec, Unspaced;
    assert " \"" + q + "\",\n" + rest == " " + w + ",\n" + rest;
    CommaLineSpaces(" " + w, rest, bs);
    assert w + ",\n" + rest == "\"" + q + "\",\n" + rest;
    QuotedLine(q, rest, bs);
  }

  /** One leading space is dropped from a text without spaces or line ends. */
  lemma LeadingSpace(q: string)
    requires NoSpace(q) && forall i | 0 <= i < |q| :: q[i] != '\n'
    ensures Unspaced(" " + q) == q
    ensures forall i | 0 <= i < |" " + q| :: (" " + q)[i] != '\n'
  {
    UnspacedAppend(" ", q);
    UnspacedSpace();
    assert "" + q == q;
  }

  /** The entries of a `Binding` map holding only a `name`. */
  lemma BindingEntries(x: string, rest: string, bs: seq<PatBinding>)
    requires NoSpace(x) && forall i | 0 <= i < |x| :: x[i] != '\n'
    ensures ParseMap("name: \"" + x + "\",\n},\n" + rest, map[], "", bs)
         == Got(map["name" := Text(x)], ",\n" + rest, bs)
  {
    var r4 := "},\n" + rest;
    assert "name: \"" + x + "\",\n},\n" + rest == "name" + ":" + (" \"" + x + "\",\n" + r4);
    hide SwitchFrom, LineDone, ParseMap, ParseVec, Unspaced;
    ParseMapEntry("name", " \"" + x + "\",\n" + r4, map[], bs);
    QuotedValueLine(x, r4, bs);
    assert map[]["name" := Text(x)] == map["name" := Text(x)];
    assert r4 == "}" + (",\n" + rest);
    MapClose(",\n" + rest, map["name" := Text(x)], "", bs);
  }

  /** A map header: its name is the line with spaces and the `{` left out. */
  lemma MapHeader(name: string, rest: string, bs: seq<PatBinding>)
    requires NoSpace(name) && forall i | 0 <= i < |name| :: name[i] != '\n'
    ensures var m := ParseMap(rest, map[], "", bs);
            (m.Got? ==> (var node := Fields(name, m.value);
                         var ins := InsertItem(m.bindings, node);
                         Switch(" " + name + " {\n" + rest, bs)
                         == if ins.Pushed? then Got(node, m.rest, ins.bindings) else Aborted(MissingField(ins.key))))
  {
    var chunk := " " + name + " {";
    assert " " + name + " {\n" + rest == chunk + ("\n" + rest);
    HeaderBuffer(name);
    hide SwitchFrom, LineDone, ParseMap, ParseVec, InsertItem, Unspaced;
    SwitchChunk(chunk, "\n" + rest, "", ' ', bs);
    assert ("\n" + rest)[1..] == rest;
    assert RemoveLastChar(name + "{") == name;
    LineStep("\n" + rest, name + "{", '{', bs);
    BraceLine("\n" + rest, name + "{", bs);
  }

  lemma HeaderBuffer(name: string)
    requires NoSpace(name)
    ensures "" + Unspaced(" " + name + " {") == name + "{"
  {
    hide Unspaced;
    UnspacedAppend(" " + name, " {");
    UnspacedAppend(" ", name);
    UnspacedAppend(" ", "{");
    UnspacedSpace();
    assert NoSpace("{");
    assert " " + name + " {" == (" " + name) + (" " + "{");
    assert Unspaced(" " + name) == name by {
      assert Unspaced(name) == name;
      assert "" + name == name;
    }
    assert Unspaced(" " + "{") == "{" by {
      assert Unspaced("{") == "{";
      assert "" + "{" == "{";
    }
    assert " {" == " " + "{";
    assert Unspaced(" " + name + " {") == name + "{";
  }

  /** One unfolding of the line end after a `{`. */
  lemma BraceLine(t: string, buf: string, bs: seq<PatBinding>)
    requires |t| > 0 && t[0] == '\n' && NoSpace(buf)
    ensures var m := ParseMap(t[1..], map[], "", bs);
            (m.Got? ==> (var node := Fields(RemoveLastChar(buf), m.value);
                         var ins := InsertItem(m.bindings, node);
                         LineDone(t, buf, '{', bs)
                         == if ins.Pushed? then Got(node, m.rest, ins.bindings) else Aborted(MissingField(ins.key))))
  {
  }

  /** The `Binding` map holding only a `name`; it is not a binding itself. */
  lemma BindingRead(x: string, rest: string, bs: seq<PatBinding>)
    requires NoSpace(x) && forall i | 0 <= i < |x| :: x[i] != '\n'
    ensures Switch(" Binding {\nname: \"" + x + "\",\n},\n" + rest, bs)
         == Got(Fields("Binding", map["name" := Text(x)]), ",\n" + rest, bs)
  {
    var r3 := "name: \"" + x + "\",\n},\n" + rest;
    assert " Binding {\nname: \"" + x + "\",\n},\n" + rest == " " + "Binding" + " {\n" + r3;
    BindingEntries(x, rest, bs);
    assert NoSpace("Binding");
    MapHeader("Binding", r3, bs);
    assert BindingFields(Fields("Binding", map["name" := Text(x)])).None?;
  }

  lemma UnspacedSpace()
    ensures Unspaced(" ") == ""
  {
    assert " "[..0] == "";
  }

  /** The `kind` entry of a `Pat` map and the map's end. */
  lemma KindEntry(x: string, y: string, rest: string, bs: seq<PatBinding>)
    requires NoSpace(x) && forall i | 0 <= i < |x| :: x[i] != '\n'
    requires NoSpace(y)
    ensures ParseMap("kind: Binding {\nname: \"" + x + "\",\n},\n},\n" + rest, map["ty" := Text(y)], "", bs)
         == Got(map["ty" := Text(y), "kind" := Fields("Binding", map["name" := Text(x)])], ",\n" + rest, bs)
  {
    var binding := Fields("Binding", map["name" := Text(x)]);
    var m := map["ty" := Text(y), "kind" := binding];
    var r3 := " Binding {\nname: \"" + x + "\",\n},\n" + ("},\n" + rest);
    KindFirst(x, rest);
    hide SwitchFrom, LineDone, ParseMap, ParseVec, InsertItem, Unspaced, Switch;
    ParseMapEntry("kind", r3, map["ty" := Text(y)], bs);
    BindingRead(x, "},\n" + rest, bs);
    assert map["ty" := Text(y)]["kind" := binding] == m;
    ParseMapSkip(",\n", "}" + (",\n" + rest), m, "", bs);
    MapClose(",\n" + rest, m, "", bs);
  }

  /** The entries of a `Pat` map: a `ty` line and a `Binding` kind. */
  lemma PatEntries(x: string, y: string, rest: string, bs: seq<PatBinding>)
    requires NoSpace(x) && forall i | 0 <= i < |x| :: x[i] != '\n'
    requires NoSpace(y) && forall i | 0 <= i < |y| :: y[i] != '\n'
    requires !(|y| == 1 && IsCloser(y[0])) && !(|y| >= 2 && y[0] == '"' && y[|y| - 1] == '"')
    ensures ParseMap("ty: " + y + ",\nkind: Binding {\nname: \"" + x + "\",\n},\n},\n" + rest, map[], "", bs)
         == Got(map["ty" := Text(y), "kind" := Fields("Binding", map["name" := Text(x)])], ",\n" + rest, bs)
  {
    var r2 := "kind: Binding {\nname: \"" + x + "\",\n},\n},\n" + rest;
    TyFirst(x, y, rest);
    hide SwitchFrom, LineDone, ParseMap, ParseVec, InsertItem, Unspaced, Switch;
    ParseMapEntry("ty", " " + y + ",\n" + r2, map[], bs);
    ValueLine(y, r2, bs);
    assert map[]["ty" := Text(y)] == map["ty" := Text(y)];
    KindEntry(x, y, rest, bs);
  }

  lemma KindFirst(x: string, rest: string)
    ensures "kind: Binding {\nname: \"" + x + "\",\n},\n},\n" + rest
         == "kind" + ":" + (" Binding {\nname: \"" + x + "\",\n},\n" + ("},\n" + rest))
    ensures ",\n" + ("},\n" + rest) == ",\n" + ("}" + (",\n" + rest))
  {
  }

  lemma TyFirst(x: string, y: string, rest: string)
    ensures "ty: " + y + ",\nkind: Binding {\nname: \"" + x + "\",\n},\n},\n" + rest
         == "ty" + ":" + (" " + y + ",\n" + ("kind: Binding {\nname: \"" + x + "\",\n},\n},\n" + rest))
  {
  }

  /** A `Pat` node of kind `Binding` read from the dump adds one binding:
      the quoted name and the type. */
  lemma PatRead(x: string, y: string, rest: string, bs: seq<PatBinding>)
    requires NoSpace(x) && forall i | 0 <= i < |x| :: x[i] != '\n'
    requires NoSpace(y) && forall i | 0 <= i < |y| :: y[i] != '\n'
    requires !(|y| == 1 && IsCloser(y[0])) && !(|y| >= 2 && y[0] == '"' && y[|y| - 1] == '"')
    ensures Switch(" Pat {\nty: " + y + ",\nkind: Binding {\nname: \"" + x + "\",\n},\n},\n" + rest, bs)
         == Got(Fields("Pat", map["ty" := Text(y), "kind" := Fields("Binding", map["name" := Text(x)])]),
                ",\n" + rest, bs + [PatBinding(x, y)])
  {
    var r1 := "ty: " + y + ",\nkind: Binding {\nname: \"" + x + "\",\n},\n},\n" + rest;
    assert " Pat {\nty: " + y + ",\nkind: Binding {\nname: \"" + x + "\",\n},\n},\n" + rest
        == " " + "Pat" + " {\n" + r1;
    PatEntries(x, y, rest, bs);
    assert NoSpace("Pat");
    MapHeader("Pat", r1, bs);
    var pat := map["ty" := Text(y), "kind" := Fields("Binding", map["name" := Text(x)])];
    var f := BindingFields(Fields("Pat", pat)).value;
    assert f["name"] == Text(x) && f["ty"] == Text(y);
  }

  lemma {:induction false} AfterLine(l: string, rest: string)
    requires forall i | 0 <= i < |l| :: l[i] != '\n'
    ensures AfterFirstLine(l + "\n" + rest) == rest
    decreases |l|
  {
    if |l| > 0 {
      assert (l + "\n" + rest)[1..] == l[1..] + "\n" + rest;
      AfterLine(l[1..], rest);
    } else {
      assert l + "\n" + rest == "\n" + rest;
    }
  }

  lemma {:induction false} NoLineAtAll(s: string)
    requires forall i | 0 <= i < |s| :: s[i] != '\n'
    ensures AfterFirstLine(s) == ""
    decreases |s|
  {
    if |s| > 0 {
      NoLineAtAll(s[1..]);
    }
  }

  /** The dump's first line is never read: any two first lines give the
      same result. */
  lemma SerializeSkipsFirstLine(l1: string, l2: string, rest: string)
    requires forall i | 0 <= i < |l1| :: l1[i] != '\n'
    requires forall i | 0 <= i < |l2| :: l2[i] != '\n'
    ensures Serialize(l1 + "\n" + rest) == Serialize(l2 + "\n" + rest)
  {
    AfterLine(l1, rest);
    AfterLine(l2, rest);
  }

  /** A dump of a single line holds nothing to read: the end-of-input error. */
  lemma SerializeOneLine(s: string)
    requires forall i | 0 <= i < |s| :: s[i] != '\n'
    ensures Serialize(s) == SerializeError(EndOfDump)
  {
    NoLineAtAll(s);
  }

  /** A dump whose node is a `Pat` of kind `Binding` serializes to that
      node and the one binding it holds. */
  lemma SerializePat(head: string, x: string, y: string, rest: string)
    requires forall i | 0 <= i < |head| :: head[i] != '\n'
    requires NoSpace(x) && forall i | 0 <= i < |x| :: x[i] != '\n'
    requires NoSpace(y) && forall i | 0 <= i < |y| :: y[i] != '\n'
    requires !(|y| == 1 && IsCloser(y[0])) && !(|y| >= 2 && y[0] == '"' && y[|y| - 1] == '"')
    ensures Serialize(head + "\n Pat {\nty: " + y + ",\nkind: Binding {\nname: \"" + x + "\",\n},\n},\n" + rest)
         == Serialized(RawInfo([PatBinding(x, y)],
                               Fields("Pat", map["ty" := Text(y), "kind" := Fields("Binding", map["name" := Text(x)])])))
  {
    var body := " Pat {\nty: " + y + ",\nkind: Binding {\nname: \"" + x + "\",\n},\n},\n" + rest;
    assert head + "\n Pat {\nty: " + y + ",\nkind: Binding {\nname: \"" + x + "\",\n},\n},\n" + rest
        == head + "\n" + body;
    AfterLine(head, body);
    PatRead(x, y, rest, []);
    assert [] + [PatBinding(x, y)] == [PatBinding(x, y)];
  }
}
