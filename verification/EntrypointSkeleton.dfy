/** Caller text stays inside string literals: the code of a generated entrypoint does not
    depend on it, exactly when the manifest's names keep quotes in order. */
module EntrypointSkeleton {
  import opened Wrappers
  import opened Numerals
  import opened TypstValues
  import opened TypstDates
  import opened Entrypoint

  // ---- The lexer ----

  /** Where the lexer stands: in code, in a string literal, or after a backslash in one. */
  datatype LexState = InCode | InString | InEscape

  function Step(st: LexState, c: char): LexState {
    match st
    case InCode => if c == '"' then InString else InCode
    case InString => if c == '"' then InCode else if c == '\\' then InEscape else InString
    case InEscape => InString
  }

  function After(st: LexState, s: string): LexState
    decreases |s|
  {
    if s == "" then st else After(Step(st, s[0]), s[1..])
  }

  /** The characters outside string literals; the quotes belong to neither. */
  function CodeOf(st: LexState, s: string): string
    decreases |s|
  {
    if s == "" then ""
    else (if st == InCode && s[0] != '"' then [s[0]] else "") + CodeOf(Step(st, s[0]), s[1..])
  }

  lemma {:induction false} LexConcat(st: LexState, a: string, b: string)
    ensures After(st, a + b) == After(After(st, a), b)
    ensures CodeOf(st, a + b) == CodeOf(st, a) + CodeOf(After(st, a), b)
    decreases |a|
  {
    if a == "" {
      assert a + b == b;
    } else {
      assert (a + b)[1..] == a[1..] + b;
      LexConcat(Step(st, a[0]), a[1..], b);
      var first := if st == InCode && a[0] != '"' then [a[0]] else "";
      ConcatAssociates(first, CodeOf(Step(st, a[0]), a[1..]), CodeOf(After(st, a), b));
    }
  }

  /** What the lexer still has to do from position `i`. */
  function CodeFrom(st: LexState, s: string, i: nat): string
    requires i <= |s|
  {
    CodeOf(st, s[i..])
  }

  lemma CodeFromStep(st: LexState, s: string, i: nat)
    requires i < |s|
    ensures (CodeFrom(st, s, i)
             == (if st == InCode && s[i] != '"' then [s[i]] else "") + CodeFrom(Step(st, s[i]), s, i + 1))
  {
    assert s[i..][1..] == s[i + 1..];
  }

  /** The inner loop: skips to just after the closing quote, honouring escapes. */
  method SkipLiteral(source: string, from: nat) returns (i: nat)
    requires from <= |source|
    ensures from <= i <= |source| && CodeFrom(InCode, source, i) == CodeFrom(InString, source, from)
  {
    i := from;
    while i < |source|
      invariant from <= i <= |source| && CodeFrom(InString, source, i) == CodeFrom(InString, source, from)
    {
      CodeFromStep(InString, source, i);
      var inner := source[i];
      i := i + 1;
      if inner == '\\' {
        if i < |source| {
          CodeFromStep(InEscape, source, i);
          i := i + 1;
        }
      } else if inner == '"' {
        return;
      }
    }
  }

  /** The lexer's outer loop: keeps what is not part of a literal. */
  method CodePositions(source: string) returns (out: string)
    ensures out == CodeOf(InCode, source)
  {
    out := "";
    var i := 0;
    assert source[0..] == source;
    while i < |source|
      invariant i <= |source| && CodeOf(InCode, source) == out + CodeFrom(InCode, source, i)
    {
      CodeFromStep(InCode, source, i);
      var c := source[i];
      if c == '"' {
        i := SkipLiteral(source, i + 1);
      } else {
        ConcatAssociates(out, [c], CodeFrom(InCode, source, i + 1));
        out := out + [c];
        i := i + 1;
      }
    }
  }

  // ---- Text the lexer passes over ----

  /** Text without quotes or backslashes does not move the lexer. */
  predicate Plain(s: string) {
    '"' !in s && '\\' !in s
  }

  lemma {:induction false} LexPlain(st: LexState, s: string)
    requires Plain(s) && st != InEscape
    ensures After(st, s) == st && CodeOf(st, s) == if st == InCode then s else ""
    decreases |s|
  {
    if s != "" {
      assert s[0] in s && Plain(s[1..]);
      LexPlain(st, s[1..]);
      assert [s[0]] + s[1..] == s;
    }
  }

  lemma LexEscape(c: char, tail: string)
    ensures After(InString, ['\\', c] + tail) == After(InString, tail)
    ensures CodeOf(InString, ['\\', c] + tail) == CodeOf(InString, tail)
  {
    var s := ['\\', c] + tail;
    assert s[1..] == [c] + tail && s[1..][1..] == tail;
  }

  lemma BracedHexIsPlain(n: nat)
    ensures Plain("{" + Numeral(n, 16) + "}")
  {
    forall d | d in Numeral(n, 16) ensures d != '"' && d != '\\' { assert IsDigit(d, 16); }
  }

  lemma LexShortEscape(c: char)
    ensures After(InString, ['\\', c]) == InString && CodeOf(InString, ['\\', c]) == ""
  {
    assert ['\\', c] == ['\\', c] + "";
    LexEscape(c, "");
  }

  lemma LexUnicodeEscape(code: nat)
    ensures After(InString, "\\u{" + Numeral(code, 16) + "}") == InString
    ensures CodeOf(InString, "\\u{" + Numeral(code, 16) + "}") == ""
  {
    var tail := "{" + Numeral(code, 16) + "}";
    BracedHexIsPlain(code);
    LexPlain(InString, tail);
    assert "\\u{" + Numeral(code, 16) + "}" == ['\\', 'u'] + tail;
    LexEscape('u', tail);
  }

  lemma LexEscapedChar(c: char)
    ensures After(InString, EscapedChar(c)) == InString && CodeOf(InString, EscapedChar(c)) == ""
  {
    var e := EscapedChar(c);
    if c in {'"', '\\', '\n', '\r', '\t'} {
      assert e == ['\\', e[1]];
      LexShortEscape(e[1]);
    } else if IsControl(c) || c in {'\U{2028}', '\U{2029}', '\U{FEFF}'} {
      LexUnicodeEscape(c as nat);
    } else {
      assert e[1..] == "";
    }
  }

  lemma {:induction false} LexEscaped(s: string)
    ensures After(InString, Escaped(s)) == InString && CodeOf(InString, Escaped(s)) == ""
  {
    if s != "" {
      LexEscapedChar(s[0]);
      LexEscaped(s[1..]);
      LexConcat(InString, EscapedChar(s[0]), Escaped(s[1..]));
    }
  }

  /** A string literal met in code leaves no code behind, whatever it holds. */
  lemma LexStringLiteral(s: string)
    ensures After(InCode, StringLiteral(s)) == InCode && CodeOf(InCode, StringLiteral(s)) == ""
  {
    LexEscaped(s);
    LexConcat(InString, Escaped(s), "\"");
    var inner := Escaped(s) + "\"";
    assert StringLiteral(s) == "\"" + inner && ("\"" + inner)[1..] == inner;
  }

  // ---- One argument ----

  predicate IsTextKind(kind: ArgKind) {
    kind == StrArg || kind == StringsArg
  }

  lemma IntTextIsPlain(i: int)
    ensures Plain(IntText(i))
  {
    var n: int := if i < 0 then -i else i;
    forall c | c in Decimal(n) ensures c != '"' && c != '\\' { assert IsDigit(c, 10); }
  }

  lemma DateLiteralIsPlain(year: int, month: int, day: int)
    ensures Plain(DateLiteral(year, month, day))
  {
    IntTextIsPlain(year);
    IntTextIsPlain(month);
    IntTextIsPlain(day);
  }

  lemma IdentIsPlain(name: string)
    requires IsIdent(name)
    ensures Plain(name)
  {
  }

  lemma FloatTextIsPlain(text: string)
    requires IsFloatText(text)
    ensures Plain(text)
  {
  }

  lemma OtherValuesArePlain(spec: ArgSpec, raw: Json)
    requires !IsTextKind(spec.kind) && Convert(spec, raw).Ok? && ToSource(Convert(spec, raw).value).Ok?
    ensures Plain(ToSource(Convert(spec, raw).value).value)
  {
    match spec.kind
    case IntArg => IntTextIsPlain(raw.integer.value);
    case FloatArg => FloatTextIsPlain(raw.float);
    case BoolArg =>
    case DateArg =>
      var date := ParseDate(raw.text).value;
      DateLiteralIsPlain(date.year, date.month, date.day);
    case IdentArg => IdentIsPlain(spec.choices[raw.text]);
  }

  /** What the code of an array of `n` texts looks like. */
  function Commas(n: nat): string {
    if n == 0 then "" else ", " + Commas(n - 1)
  }

  lemma LexTextItem(text: string, rest: string)
    ensures After(InCode, (StringLiteral(text) + ", ") + rest) == After(InCode, rest)
    ensures CodeOf(InCode, (StringLiteral(text) + ", ") + rest) == ", " + CodeOf(InCode, rest)
  {
    LexStringLiteral(text);
    LexPlain(InCode, ", ");
    LexConcat(InCode, StringLiteral(text), ", ");
    LexConcat(InCode, StringLiteral(text) + ", ", rest);
  }

  function TextsSource(items: seq<Json>): string
    requires AllTexts(items)
  {
    if items == [] then "" else (StringLiteral(items[0].text) + ", ") + TextsSource(items[1..])
  }

  lemma {:induction false} TextsPrint(items: seq<Json>)
    requires AllTexts(items)
    ensures ItemsSource(StrValues(items)) == Ok(TextsSource(items))
  {
    if items != [] {
      TextsPrint(items[1..]);
      assert StrValues(items)[1..] == StrValues(items[1..]);
    }
  }

  lemma {:induction false} LexTexts(items: seq<Json>)
    requires AllTexts(items)
    ensures After(InCode, TextsSource(items)) == InCode
    ensures CodeOf(InCode, TextsSource(items)) == Commas(|items|)
  {
    if items != [] {
      LexTexts(items[1..]);
      LexTextItem(items[0].text, TextsSource(items[1..]));
    }
  }

  /** The value a text kind contributes to the code. */
  function TextShape(raw: Json): string {
    if raw.List? then "(" + Commas(|raw.items|) + ")" else ""
  }

  lemma LexTextValue(spec: ArgSpec, raw: Json)
    requires IsTextKind(spec.kind) && Convert(spec, raw).Ok?
    ensures ToSource(Convert(spec, raw).value).Ok?
    ensures After(InCode, ToSource(Convert(spec, raw).value).value) == InCode
    ensures CodeOf(InCode, ToSource(Convert(spec, raw).value).value) == TextShape(raw)
  {
    if spec.kind == StrArg {
      LexStringLiteral(raw.text);
    } else {
      var inner := TextsSource(raw.items);
      TextsPrint(raw.items);
      LexTexts(raw.items);
      LexPlain(InCode, "(");
      LexPlain(InCode, ")");
      LexConcat(InCode, "(", inner);
      LexConcat(InCode, "(" + inner, ")");
    }
  }

  /** Where the lexer stands after an argument's name, at the start of its value. */
  function AfterName(st: LexState, name: string): LexState {
    After(st, "  " + name + ": ")
  }

  lemma NameEndsOutsideEscape(st: LexState, name: string)
    ensures AfterName(st, name) != InEscape
  {
    LexConcat(st, "  " + name, ": ");
    var before := After(st, "  " + name);
    assert ": "[1..] == " ";
    assert After(before, ": ") == Step(Step(before, ':'), ' ');
  }

  lemma LexLine(st: LexState, name: string, source: string)
    requires After(AfterName(st, name), source) == AfterName(st, name)
    ensures After(st, Line(name, source)) == AfterName(st, name)
    ensures (CodeOf(st, Line(name, source))
             == CodeOf(st, "  " + name + ": ")
                + (CodeOf(AfterName(st, name), source) + CodeOf(AfterName(st, name), ",\n")))
  {
    var at := AfterName(st, name);
    NameEndsOutsideEscape(st, name);
    LexConcat(st, "  " + name + ": ", source + ",\n");
    LexConcat(at, source, ",\n");
    LexPlain(at, ",\n");
  }

  // ---- Data that differ in text only ----

  predicate AlikeRaw(spec: ArgSpec, a: Json, b: Json) {
    || a == b
    || (spec.kind == StrArg && a.Text? && b.Text?)
    || (spec.kind == StringsArg && a.List? && b.List? && |a.items| == |b.items|
        && AllTexts(a.items) && AllTexts(b.items))
  }

  predicate AlikeAt(spec: ArgSpec, a: Json, b: Json) {
    && Given(spec, a) == Given(spec, b)
    && (Given(spec, a) ==> AlikeRaw(spec, Raw(spec, a), Raw(spec, b)))
  }

  /** The same fields are given, and they differ at most in the contents of strings. */
  predicate Alike(args: seq<ArgSpec>, a: Json, b: Json) {
    forall spec | spec in args :: AlikeAt(spec, a, b)
  }

  predicate AlikeArgument(a: Argument, b: Argument) {
    a.name == b.name && (a.value == b.value || (ToSource(a.value).Ok? && ToSource(b.value).Ok?))
  }

  predicate AlikeArguments(a: seq<Argument>, b: seq<Argument>) {
    |a| == |b| && forall i :: 0 <= i < |a| ==> AlikeArgument(a[i], b[i])
  }

  lemma AlikeConvert(spec: ArgSpec, a: Json, b: Json)
    requires AlikeRaw(spec, a, b)
    ensures Convert(spec, a).Err? ==> Convert(spec, b) == Convert(spec, a)
    ensures Convert(spec, a).Ok? ==>
              && Convert(spec, b).Ok?
              && (IsTextKind(spec.kind) || a == b)
              && AlikeArgument(Argument(spec.arg, Convert(spec, a).value), Argument(spec.arg, Convert(spec, b).value))
  {
    if IsTextKind(spec.kind) && Convert(spec, a).Ok? {
      LexTextValue(spec, a);
      LexTextValue(spec, b);
    }
  }

  lemma {:induction false} AlikeDataConvertAlike(args: seq<ArgSpec>, a: Json, b: Json)
    requires Alike(args, a, b)
    ensures Arguments(args, a).Err? ==> Arguments(args, b) == Arguments(args, a)
    ensures Arguments(args, a).Ok? ==>
              Arguments(args, b).Ok? && AlikeArguments(Arguments(args, a).value, Arguments(args, b).value)
  {
    if args != [] {
      AlikeDataConvertAlike(args[1..], a, b);
      assert AlikeAt(args[0], a, b);
      if Given(args[0], a) {
        AlikeConvert(args[0], Raw(args[0], a), Raw(args[0], b));
      }
    }
  }

  lemma {:induction false} AlikeArgumentsPrintAlike(a: seq<Argument>, b: seq<Argument>)
    requires AlikeArguments(a, b)
    ensures Lines(a).Err? ==> Lines(b) == Lines(a)
    ensures Lines(a).Ok? ==> Lines(b).Ok?
  {
    if a != [] {
      assert AlikeArgument(a[0], b[0]);
      AlikeArgumentsPrintAlike(a[1..], b[1..]);
    }
  }

  /** Whether generation succeeds, and how it fails, does not depend on text contents. */
  lemma TextNeverChangesTheOutcome(m: Manifest, a: Json, b: Json)
    requires Alike(m.args, a, b)
    ensures Generated(m, a).Ok? <==> Generated(m, b).Ok?
    ensures Generated(m, a).Err? ==> Generated(m, b) == Generated(m, a)
  {
    AlikeDataConvertAlike(m.args, a, b);
    if Arguments(m.args, a).Ok? {
      AlikeArgumentsPrintAlike(Arguments(m.args, a).value, Arguments(m.args, b).value);
    }
  }

  // ---- When the code is independent of text ----

  /** Whether some data can give this argument: an identifier needs a usable choice. */
  predicate CanBeGiven(spec: ArgSpec) {
    spec.kind == IdentArg ==> exists key | key in spec.choices :: IsIdent(spec.choices[key])
  }

  /** A check of the manifest alone: along every choice of given arguments, each text value
      starts in code. Quotes in names are what can break it. */
  predicate NamesKeepQuotes(st: LexState, args: seq<ArgSpec>)
    decreases args
  {
    args == [] ||
    (&& NamesKeepQuotes(st, args[1..])
     && (CanBeGiven(args[0]) ==>
           && (IsTextKind(args[0].kind) ==> AfterName(st, args[0].arg) == InCode)
           && NamesKeepQuotes(AfterName(st, args[0].arg), args[1..])))
  }

  function LineOf(spec: ArgSpec, data: Json): string
    requires Given(spec, data) && Convert(spec, Raw(spec, data)).Ok?
    requires ToSource(Convert(spec, Raw(spec, data)).value).Ok?
  {
    Line(spec.arg, ToSource(Convert(spec, Raw(spec, data)).value).value)
  }

  predicate Usable(spec: ArgSpec, data: Json) {
    && Given(spec, data)
    && Convert(spec, Raw(spec, data)).Ok?
    && ToSource(Convert(spec, Raw(spec, data)).value).Ok?
  }

  lemma BodySplits(args: seq<ArgSpec>, data: Json)
    requires args != []
    ensures !Given(args[0], data) ==> Body(args, data) == Body(args[1..], data)
    ensures Given(args[0], data) ==> (Body(args, data).Ok? <==> Usable(args[0], data) && Body(args[1..], data).Ok?)
    ensures Given(args[0], data) && Body(args, data).Ok? ==>
              Body(args, data).value == LineOf(args[0], data) + Body(args[1..], data).value
  {
    if Given(args[0], data) && Convert(args[0], Raw(args[0], data)).Ok? && Arguments(args[1..], data).Ok? {
      var all := Arguments(args, data).value;
      assert all[0] == Argument(args[0].arg, Convert(args[0], Raw(args[0], data)).value);
      assert all[1..] == Arguments(args[1..], data).value;
    }
  }

  lemma UsableCanBeGiven(spec: ArgSpec, data: Json)
    requires Usable(spec, data)
    ensures CanBeGiven(spec)
  {
    if spec.kind == IdentArg {
      var key := Raw(spec, data).text;
      assert key in spec.choices && IsIdent(spec.choices[key]);
    }
  }

  lemma AlikeLines(st: LexState, spec: ArgSpec, a: Json, b: Json)
    requires Usable(spec, a) && Usable(spec, b) && AlikeAt(spec, a, b)
    requires IsTextKind(spec.kind) ==> AfterName(st, spec.arg) == InCode
    ensures After(st, LineOf(spec, a)) == After(st, LineOf(spec, b)) == AfterName(st, spec.arg)
    ensures CodeOf(st, LineOf(spec, a)) == CodeOf(st, LineOf(spec, b))
  {
    var x, y := Raw(spec, a), Raw(spec, b);
    if IsTextKind(spec.kind) {
      LexTextValue(spec, x);
      LexTextValue(spec, y);
    } else {
      NameEndsOutsideEscape(st, spec.arg);
      OtherValuesArePlain(spec, x);
      LexPlain(AfterName(st, spec.arg), ToSource(Convert(spec, x).value).value);
      assert x == y;
    }
    LexLine(st, spec.arg, ToSource(Convert(spec, x).value).value);
    LexLine(st, spec.arg, ToSource(Convert(spec, y).value).value);
  }

  lemma {:induction false} AlikeBodies(st: LexState, args: seq<ArgSpec>, a: Json, b: Json)
    requires NamesKeepQuotes(st, args) && Alike(args, a, b) && Body(args, a).Ok? && Body(args, b).Ok?
    ensures After(st, Body(args, a).value) == After(st, Body(args, b).value)
    ensures CodeOf(st, Body(args, a).value) == CodeOf(st, Body(args, b).value)
    decreases args
  {
    if args != [] {
      var spec, rest := args[0], args[1..];
      assert AlikeAt(spec, a, b);
      BodySplits(args, a);
      BodySplits(args, b);
      if Given(spec, a) {
        UsableCanBeGiven(spec, a);
        AlikeLines(st, spec, a, b);
        AlikeBodies(AfterName(st, spec.arg), rest, a, b);
        LexConcat(st, LineOf(spec, a), Body(rest, a).value);
        LexConcat(st, LineOf(spec, b), Body(rest, b).value);
      } else {
        AlikeBodies(st, rest, a, b);
      }
    }
  }

  // ---- How text gets out otherwise ----

  /** Manifest arguments are a map from field names. */
  predicate DistinctFields(args: seq<ArgSpec>) {
    forall i, j :: 0 <= i < j < |args| ==> args[i].field != args[j].field
  }

  predicate AgreeOn(args: seq<ArgSpec>, f: map<string, Json>, g: map<string, Json>) {
    forall spec | spec in args ::
      (spec.field in f <==> spec.field in g) && (spec.field in f ==> f[spec.field] == g[spec.field])
  }

  lemma {:induction false} BodyReadsItsFields(args: seq<ArgSpec>, f: map<string, Json>, g: map<string, Json>)
    requires AgreeOn(args, f, g)
    ensures Body(args, Object(f)) == Body(args, Object(g))
    ensures Arguments(args, Object(f)) == Arguments(args, Object(g))
  {
    if args != [] {
      assert args[0] in args;
      BodyReadsItsFields(args[1..], f, g);
    }
  }

  lemma {:induction false} NothingGiven(args: seq<ArgSpec>, f: map<string, Json>)
    requires forall spec :: spec in args ==> spec.field !in f
    ensures Body(args, Object(f)) == Ok("")
  {
    if args != [] {
      assert args[0] in args;
      NothingGiven(args[1..], f);
      BodySplits(args, Object(f));
    }
  }

  ghost function SampleKey(choices: map<string, string>): string
    requires exists key | key in choices :: IsIdent(choices[key])
  {
    var key :| key in choices && IsIdent(choices[key]);
    key
  }

  /** A value that gives the argument. */
  ghost function Sample(spec: ArgSpec): Json
    requires CanBeGiven(spec)
  {
    match spec.kind
    case StrArg => Text("")
    case IntArg => Number(Some(0), "0.0")
    case FloatArg => Number(Some(0), "0.0")
    case BoolArg => Boolean(true)
    case DateArg => Text(Padded(0, 1) + "-" + (Padded(0, 1) + "-" + Padded(0, 1)))
    case StringsArg => List([])
    case IdentArg => Text(SampleKey(spec.choices))
  }

  lemma SampleIsUsable(spec: ArgSpec)
    requires CanBeGiven(spec)
    ensures Convert(spec, Sample(spec)).Ok? && ToSource(Convert(spec, Sample(spec)).value).Ok?
    ensures !Sample(spec).Null?
  {
    match spec.kind
    case DateArg => DateTextIsParsed(1, 1, 1, 0, 0, 0);
    case StringsArg => LexTextValue(spec, Sample(spec));
    case _ =>
  }

  /** Met inside a string, a literal's quotes close and reopen it: its content is code. */
  lemma LexQuotedInside(text: string)
    requires Plain(text)
    ensures After(InString, "\"" + text + "\"") == InString && CodeOf(InString, "\"" + text + "\"") == text
  {
    LexPlain(InCode, text);
    LexConcat(InCode, text, "\"");
    var tail := text + "\"";
    var s := "\"" + text + "\"";
    assert s == "\"" + tail && s[1..] == tail;
    assert "\""[1..] == "";
  }

  /** Two values of a text kind, told apart by one letter. */
  function Marked(spec: ArgSpec, mark: string): Json
    requires IsTextKind(spec.kind)
  {
    if spec.kind == StrArg then Text(mark) else List([Text(mark)])
  }

  lemma MarkedSource(spec: ArgSpec, mark: string)
    requires IsTextKind(spec.kind) && Escaped(mark) == mark
    ensures (Convert(spec, Marked(spec, mark)) == Ok(if spec.kind == StrArg then Str(mark) else Array([Str(mark)])))
    ensures ToSource(Str(mark)) == Ok("\"" + mark + "\"")
    ensures ToSource(Array([Str(mark)])) == Ok("(" + (("\"" + mark + "\"") + ", )"))
  {
    var items := [Text(mark)];
    assert StrValues(items) == [Str(mark)];
    TextsPrint(items);
    assert TextsSource(items[1..]) == "";
    var literal := "\"" + mark + "\"";
    assert "(" + ((literal + ", ") + "") + ")" == "(" + (literal + ", )");
  }

  lemma LexMarkedArray(mark: string)
    requires Plain(mark)
    ensures After(InString, "(" + (("\"" + mark + "\"") + ", )")) == InString
    ensures CodeOf(InString, "(" + (("\"" + mark + "\"") + ", )")) == mark
  {
    var literal := "\"" + mark + "\"";
    LexQuotedInside(mark);
    LexPlain(InString, "(");
    LexPlain(InString, ", )");
    LexConcat(InString, literal, ", )");
    LexConcat(InString, "(", literal + ", )");
  }

  lemma MarkShows(spec: ArgSpec, mark: string)
    requires IsTextKind(spec.kind) && Escaped(mark) == mark && Plain(mark)
    ensures Convert(spec, Marked(spec, mark)).Ok? && ToSource(Convert(spec, Marked(spec, mark)).value).Ok?
    ensures After(InString, ToSource(Convert(spec, Marked(spec, mark)).value).value) == InString
    ensures CodeOf(InString, ToSource(Convert(spec, Marked(spec, mark)).value).value) == mark
  {
    MarkedSource(spec, mark);
    if spec.kind == StrArg {
      LexQuotedInside(mark);
    } else {
      LexMarkedArray(mark);
    }
  }

  /** The lexer sees more code in the first body than in the second, and ends alike. */
  predicate Leaks(st: LexState, args: seq<ArgSpec>, a: Json, b: Json) {
    && Alike(args, a, b) && Body(args, a).Ok? && Body(args, b).Ok?
    && After(st, Body(args, a).value) == After(st, Body(args, b).value)
    && |CodeOf(st, Body(args, a).value)| > |CodeOf(st, Body(args, b).value)|
  }

  predicate Within(args: seq<ArgSpec>, f: map<string, Json>) {
    forall field | field in f :: exists spec | spec in args :: spec.field == field
  }

  lemma OneLine(st: LexState, args: seq<ArgSpec>, f: map<string, Json>)
    requires args != [] && DistinctFields(args) && f.Keys == {args[0].field} && Usable(args[0], Object(f))
    ensures Body(args, Object(f)) == Ok(LineOf(args[0], Object(f)))
  {
    NothingGiven(args[1..], f);
    BodySplits(args, Object(f));
    assert LineOf(args[0], Object(f)) + "" == LineOf(args[0], Object(f));
  }

  lemma MarkedLine(st: LexState, args: seq<ArgSpec>, mark: string)
    requires args != [] && DistinctFields(args) && IsTextKind(args[0].kind) && AfterName(st, args[0].arg) == InString
    requires Escaped(mark) == mark && Plain(mark)
    ensures Body(args, MarkedData(args[0], mark)).Ok?
    ensures After(st, Body(args, MarkedData(args[0], mark)).value) == InString
    ensures (CodeOf(st, Body(args, MarkedData(args[0], mark)).value)
             == CodeOf(st, "  " + args[0].arg + ": ") + (mark + ""))
  {
    var spec := args[0];
    MarkShows(spec, mark);
    OneLine(st, args, map[spec.field := Marked(spec, mark)]);
    LexLine(st, spec.arg, ToSource(Convert(spec, Marked(spec, mark)).value).value);
    LexPlain(InString, ",\n");
  }

  function MarkedData(spec: ArgSpec, mark: string): Json
    requires IsTextKind(spec.kind)
  {
    Object(map[spec.field := Marked(spec, mark)])
  }

  lemma MarkedAlike(args: seq<ArgSpec>, x: string, y: string)
    requires args != [] && DistinctFields(args) && IsTextKind(args[0].kind)
    ensures Alike(args, MarkedData(args[0], x), MarkedData(args[0], y))
  {
    forall other | other in args ensures AlikeAt(other, MarkedData(args[0], x), MarkedData(args[0], y)) {
      if other.field == args[0].field {
        SameFieldSameSpec(args, other);
      }
    }
  }

  lemma SameFieldSameSpec(args: seq<ArgSpec>, other: ArgSpec)
    requires args != [] && DistinctFields(args) && other in args && other.field == args[0].field
    ensures other == args[0]
  {
    var i :| 0 <= i < |args| && args[i] == other;
  }

  /** A text value that starts inside a string leaks. */
  lemma TextLeaks(st: LexState, args: seq<ArgSpec>) returns (a: map<string, Json>, b: map<string, Json>)
    requires args != [] && DistinctFields(args) && IsTextKind(args[0].kind) && AfterName(st, args[0].arg) != InCode
    ensures Leaks(st, args, Object(a), Object(b)) && Within(args, a) && Within(args, b)
  {
    var spec := args[0];
    a, b := map[spec.field := Marked(spec, "x")], map[spec.field := Marked(spec, "")];
    NameEndsOutsideEscape(st, spec.arg);
    assert Escaped("x") == EscapedChar('x') + Escaped("");
    MarkedLine(st, args, "x");
    MarkedLine(st, args, "");
    MarkedAlike(args, "x", "");
    assert spec in args;
  }

  /** A leak among the later arguments is still there when the first one is left out. */
  lemma LeakWithoutFirst(st: LexState, args: seq<ArgSpec>, a: map<string, Json>, b: map<string, Json>)
    requires args != [] && DistinctFields(args) && Within(args[1..], a) && Within(args[1..], b)
    requires Leaks(st, args[1..], Object(a), Object(b))
    ensures Leaks(st, args, Object(a), Object(b)) && Within(args, a) && Within(args, b)
  {
    BodySplits(args, Object(a));
    BodySplits(args, Object(b));
    forall spec | spec in args ensures AlikeAt(spec, Object(a), Object(b)) {
      assert spec == args[0] || spec in args[1..];
    }
  }

  ghost function WithSample(spec: ArgSpec, f: map<string, Json>): map<string, Json>
    requires CanBeGiven(spec)
  {
    f[spec.field := Sample(spec)]
  }

  lemma BodyAfterSample(args: seq<ArgSpec>, f: map<string, Json>)
    requires args != [] && DistinctFields(args) && CanBeGiven(args[0]) && Body(args[1..], Object(f)).Ok?
    ensures Usable(args[0], Object(WithSample(args[0], f)))
    ensures (Body(args, Object(WithSample(args[0], f)))
             == Ok(LineOf(args[0], Object(WithSample(args[0], f))) + Body(args[1..], Object(f)).value))
  {
    SampleIsUsable(args[0]);
    BodyReadsItsFields(args[1..], f, WithSample(args[0], f));
    BodySplits(args, Object(WithSample(args[0], f)));
  }

  lemma AlikeAfterSample(args: seq<ArgSpec>, a: map<string, Json>, b: map<string, Json>)
    requires args != [] && DistinctFields(args) && CanBeGiven(args[0]) && Alike(args[1..], Object(a), Object(b))
    ensures Alike(args, Object(WithSample(args[0], a)), Object(WithSample(args[0], b)))
  {
    var a', b' := Object(WithSample(args[0], a)), Object(WithSample(args[0], b));
    forall other | other in args ensures AlikeAt(other, a', b') {
      if other.field != args[0].field {
        assert other in args[1..];
        assert AlikeAt(other, Object(a), Object(b));
      }
    }
  }

  lemma WithinAfterSample(args: seq<ArgSpec>, f: map<string, Json>)
    requires args != [] && CanBeGiven(args[0]) && Within(args[1..], f)
    ensures Within(args, WithSample(args[0], f))
  {
    assert args[0] in args;
    forall field | field in WithSample(args[0], f) ensures exists spec | spec in args :: spec.field == field {
      if field in f {
        var spec :| spec in args[1..] && spec.field == field;
        assert spec in args;
      }
    }
  }

  /** ... and when a sample of the first one is given, if the leak counts on that. */
  lemma LeakAfterFirst(st: LexState, args: seq<ArgSpec>, a: map<string, Json>, b: map<string, Json>)
    requires args != [] && DistinctFields(args)
    requires CanBeGiven(args[0]) && (IsTextKind(args[0].kind) ==> AfterName(st, args[0].arg) == InCode)
    requires Leaks(AfterName(st, args[0].arg), args[1..], Object(a), Object(b))
    ensures Leaks(st, args, Object(WithSample(args[0], a)), Object(WithSample(args[0], b)))
  {
    var spec, rest := args[0], args[1..];
    var a', b' := Object(WithSample(spec, a)), Object(WithSample(spec, b));
    BodyAfterSample(args, a);
    BodyAfterSample(args, b);
    AlikeAfterSample(args, a, b);
    assert AlikeAt(spec, a', b');
    AlikeLines(st, spec, a', b');
    LexConcat(st, LineOf(spec, a'), Body(rest, Object(a)).value);
    LexConcat(st, LineOf(spec, b'), Body(rest, Object(b)).value);
  }

  lemma {:induction false} Leak(st: LexState, args: seq<ArgSpec>) returns (a: map<string, Json>, b: map<string, Json>)
    requires DistinctFields(args) && !NamesKeepQuotes(st, args)
    ensures Leaks(st, args, Object(a), Object(b)) && Within(args, a) && Within(args, b)
    decreases args
  {
    if !NamesKeepQuotes(st, args[1..]) {
      a, b := Leak(st, args[1..]);
      LeakWithoutFirst(st, args, a, b);
    } else if IsTextKind(args[0].kind) && AfterName(st, args[0].arg) != InCode {
      a, b := TextLeaks(st, args);
    } else {
      a, b := Leak(AfterName(st, args[0].arg), args[1..]);
      LeakAfterFirst(st, args, a, b);
      WithinAfterSample(args, a);
      WithinAfterSample(args, b);
      a, b := WithSample(args[0], a), WithSample(args[0], b);
    }
  }

  // ---- The whole entrypoint ----

  /** Data that differ in text only generate the same code outside string literals. */
  ghost predicate TextStaysOutOfCode(m: Manifest) {
    forall a: Json, b: Json ::
      Alike(m.args, a, b) && Generated(m, a).Ok? && Generated(m, b).Ok? ==>
        CodeOf(InCode, Generated(m, a).value) == CodeOf(InCode, Generated(m, b).value)
  }

  function HeaderState(m: Manifest): LexState {
    After(InCode, Header(m))
  }

  lemma LexGenerated(m: Manifest, data: Json)
    requires Body(m.args, data).Ok?
    ensures (CodeOf(InCode, Generated(m, data).value)
             == CodeOf(InCode, Header(m))
                + (CodeOf(HeaderState(m), Body(m.args, data).value)
                   + CodeOf(After(HeaderState(m), Body(m.args, data).value), Footer(m))))
  {
    var body := Body(m.args, data).value;
    ConcatAssociates(Header(m), body, Footer(m));
    LexConcat(InCode, Header(m), body + Footer(m));
    LexConcat(HeaderState(m), body, Footer(m));
  }

  /** Caller text never reaches code exactly when the manifest's names keep quotes in
      order, starting from what its header leaves open. */
  lemma TextStaysOutOfCodeExactly(m: Manifest)
    requires DistinctFields(m.args)
    ensures TextStaysOutOfCode(m) <==> NamesKeepQuotes(HeaderState(m), m.args)
  {
    if NamesKeepQuotes(HeaderState(m), m.args) {
      forall a: Json, b: Json | Alike(m.args, a, b) && Generated(m, a).Ok? && Generated(m, b).Ok?
        ensures CodeOf(InCode, Generated(m, a).value) == CodeOf(InCode, Generated(m, b).value)
      {
        AlikeBodies(HeaderState(m), m.args, a, b);
        LexGenerated(m, a);
        LexGenerated(m, b);
      }
    } else {
      var a, b := Leak(HeaderState(m), m.args);
      LexGenerated(m, Object(a));
      LexGenerated(m, Object(b));
      assert Generated(m, Object(a)).Ok? && Generated(m, Object(b)).Ok?;
    }
  }

  lemma {:induction false} LexWithoutQuote(s: string)
    requires '"' !in s
    ensures After(InCode, s) == InCode
  {
    if s != "" {
      assert s[0] in s;
      LexWithoutQuote(s[1..]);
    }
  }

  lemma StaysInCode(a: string, b: string)
    requires After(InCode, a) == InCode
    ensures After(InCode, a + b) == After(InCode, b)
  {
    LexConcat(InCode, a, b);
  }

  lemma LexImport(entrypoint: string)
    ensures After(InCode, Import(entrypoint)) == InCode
  {
    LexWithoutQuote("#import ");
    LexWithoutQuote(": *\n");
    LexStringLiteral(entrypoint);
    StaysInCode("#import ", StringLiteral(entrypoint));
    StaysInCode("#import " + StringLiteral(entrypoint), ": *\n");
  }

  lemma LexHeader(m: Manifest)
    ensures HeaderState(m) == After(InCode, Call(m))
  {
    LexWithoutQuote(BANNER);
    LexImport(m.entrypoint);
    StaysInCode(BANNER, Import(m.entrypoint));
    StaysInCode(BANNER + Import(m.entrypoint), Call(m));
  }

  /** Names without quotes, identifiers among them, are always in order. */
  lemma {:induction false} PlainNamesKeepQuotes(args: seq<ArgSpec>)
    requires forall spec :: spec in args ==> '"' !in spec.arg
    ensures NamesKeepQuotes(InCode, args)
  {
    if args != [] {
      assert args[0] in args;
      LexWithoutQuote("  " + args[0].arg + ": ");
      PlainNamesKeepQuotes(args[1..]);
    }
  }

  lemma QuoteFreeManifestIsSafe(m: Manifest)
    requires DistinctFields(m.args) && (forall spec :: spec in m.args ==> '"' !in spec.arg)
    requires m.wrapperFn.Some? ==> '"' !in m.wrapperFn.value
    ensures TextStaysOutOfCode(m)
  {
    LexHeader(m);
    LexWithoutQuote(Call(m));
    PlainNamesKeepQuotes(m.args);
    TextStaysOutOfCodeExactly(m);
  }

  /** The loader does not check argument names, so this manifest is accepted. */
  const QUOTED_NAME := Manifest(Data, "a.typ", None, [ArgSpec("t", "\"", StrArg, map[])])

  lemma LexLoneQuote()
    ensures AfterName(InCode, "\"") == InString
  {
    LexWithoutQuote("  ");
    LexPlain(InString, ": ");
    LexConcat(InCode, "  " + "\"", ": ");
    StaysInCode("  ", "\"");
    assert "\""[1..] == "";
  }

  lemma LoneTextArgument(st: LexState, spec: ArgSpec)
    requires IsTextKind(spec.kind) && AfterName(st, spec.arg) != InCode
    ensures !NamesKeepQuotes(st, [spec])
  {
  }

  lemma RenderHeader(m: Manifest)
    requires m.kind == Data && m.wrapperFn == None
    ensures HeaderState(m) == InCode
  {
    LexHeader(m);
    LexWithoutQuote("#render(\n");
    assert Call(m) == "#render(\n";
  }

  lemma QuotedNameLeaks()
    ensures !TextStaysOutOfCode(QUOTED_NAME)
  {
    RenderHeader(QUOTED_NAME);
    LexLoneQuote();
    LoneTextArgument(InCode, QUOTED_NAME.args[0]);
    TextStaysOutOfCodeExactly(QUOTED_NAME);
  }
}
