/** The generated entrypoint read back as a whole, and compared with the caller's JSON. */
module EntrypointReading {
  import opened Wrappers
  import opened Numerals
  import opened Texts
  import opened TypstValues
  import opened TypstDates
  import opened TypstReader
  import opened Entrypoint
  import opened EntrypointMeaning

  // ---- Reading the file ----

  /** What a generated entrypoint does: import the template's bindings, call a function on
      arguments, as a show rule or on its own, and perhaps include a body. */
  datatype Script = Script(
    entrypoint: string, shows: bool, function_: string, arguments: seq<Argument>, body: Option<string>)

  const OPENING := "// Generated by typst-mcp. Do not edit.\n#import \""

  function After(s: string, prefix: string): Option<string> {
    if Begins(s, prefix) then Some(s[|prefix|..]) else None
  }

  /** An include of a file, and nothing after it. */
  function ReadInclude(s: string): Option<string> {
    match After(s, "#include \"")
    case None => None
    case Some(t) =>
      match ReadString(t)
      case Some((path, rest)) => if rest == "\n" then Some(path) else None
      case None => None
  }

  /** A call by its name, up to the end of the file. */
  function ReadCall(entrypoint: string, shows: bool, s: string): Option<Script> {
    var n := Span(s, IdentClass);
    if n == 0 || !IsIdentStart(s[0]) then None
    else
      match After(s[n..], if shows then ".with(\n" else "(\n")
      case None => None
      case Some(t) =>
        match ReadArguments(t)
        case None => None
        case Some((arguments, rest)) =>
          if shows then
            (match ReadInclude(rest)
             case None => None
             case Some(body) => Some(Script(entrypoint, true, s[..n], arguments, Some(body))))
          else if rest == "" then Some(Script(entrypoint, false, s[..n], arguments, None)) else None
  }

  function ReadScript(s: string): Option<Script> {
    match After(s, OPENING)
    case None => None
    case Some(t) =>
      match ReadString(t)
      case None => None
      case Some((entrypoint, rest)) =>
        match After(rest, ": *\n#")
        case None => None
        case Some(call) =>
          match After(call, "show: ")
          case Some(shown) => ReadCall(entrypoint, true, shown)
          case None => ReadCall(entrypoint, false, call)
  }

  // ---- What the data says ----

  /** A value that stands for a piece of JSON, by the type that was declared for it. */
  ghost predicate StandsFor(spec: ArgSpec, raw: Json, v: TypstValue) {
    match spec.kind
    case StrArg => raw.Text? && v == Str(raw.text)
    case BoolArg => raw.Boolean? && v == Bool(raw.b)
    case IntArg => raw.Number? && raw.integer.Some? && v == Int(raw.integer.value)
    case FloatArg => raw.Number? && v == Float(raw.float, true)
    case DateArg => raw.Text? && exists a, b, c :: IsDateText(raw.text, a, b, c, v)
    case StringsArg =>
      && raw.List? && v.Array? && |v.items| == |raw.items|
      && forall i :: 0 <= i < |raw.items| ==> raw.items[i].Text? && v.items[i] == Str(raw.items[i].text)
    case IdentArg => raw.Text? && raw.text in spec.choices && v == Word(spec.choices[raw.text])
  }

  /** Three dash-free numbers, and the date they make. */
  ghost predicate IsDateText(text: string, a: string, b: string, c: string, v: TypstValue) {
    && text == a + "-" + (b + "-" + c) && DateParts(a, b, c) && v.Date?
    && ParseUnsigned(a, I32_MAX) == Some(v.year)
    && ParseUnsigned(b, U8_MAX) == Some(v.month)
    && ParseUnsigned(c, U8_MAX) == Some(v.day)
  }

  /** The declared fields that the data gives, in the manifest's order. */
  function GivenSpecs(args: seq<ArgSpec>, data: Json): seq<ArgSpec> {
    if args == [] then []
    else (if Given(args[0], data) then [args[0]] else []) + GivenSpecs(args[1..], data)
  }

  lemma {:induction false} GivenSpecsExactly(args: seq<ArgSpec>, data: Json, spec: ArgSpec)
    ensures spec in GivenSpecs(args, data) <==>
              spec in args && data.Object? && spec.field in data.fields && data.fields[spec.field] != Null
  {
    if args != [] {
      GivenSpecsExactly(args[1..], data, spec);
      assert args == [args[0]] + args[1..];
    }
  }

  lemma DateStandsFor(text: string, v: TypstValue)
    requires ParseDate(text) == Some(v)
    ensures exists a, b, c :: IsDateText(text, a, b, c, v)
  {
    ParsedDateIsExact(text, v);
    var a, b, c :| text == a + "-" + (b + "-" + c) && DateParts(a, b, c);
    SplitDate(a, b, c);
    assert IsDateText(text, a, b, c, v);
  }

  lemma SplitDate(a: string, b: string, c: string)
    requires Lacks(a, '-') && Lacks(b, '-') && Lacks(c, '-')
    ensures Split(a + "-" + (b + "-" + c), '-') == [a, b, c]
  {
    SplitFirst(a, b + "-" + c, '-');
    SplitFirst(b, c, '-');
    SplitFirst(c, "", '-');
  }

  lemma StringsAreCanonical(items: seq<TypstValue>)
    requires forall x :: x in items ==> x.Str?
    ensures CanonicalItems(items) == items
  {
    if items != [] {
      assert items == [items[0]] + items[1..];
      StringsAreCanonical(items[1..]);
    }
  }

  /** Conversion and printing together: what is read back stands for the data. */
  lemma ConvertedStandsFor(spec: ArgSpec, raw: Json)
    requires Convert(spec, raw).Ok?
    ensures StandsFor(spec, raw, Canonical(Convert(spec, raw).value))
  {
    match spec.kind
    case DateArg => DateStandsFor(raw.text, Convert(spec, raw).value);
    case StringsArg => StringsAreCanonical(StrValues(raw.items));
    case _ =>
  }

  /** Arguments that say, in order, what these fields of the data say. */
  ghost predicate SayTheData(arguments: seq<Argument>, specs: seq<ArgSpec>, data: Json) {
    && |arguments| == |specs|
    && forall k :: 0 <= k < |specs| ==>
         && arguments[k].name == specs[k].arg
         && data.Object? && specs[k].field in data.fields
         && StandsFor(specs[k], data.fields[specs[k].field], arguments[k].value)
  }

  lemma SayOneMore(arguments: seq<Argument>, specs: seq<ArgSpec>, data: Json, a: Argument, spec: ArgSpec)
    requires SayTheData(arguments, specs, data) && a.name == spec.arg && data.Object? && spec.field in data.fields
    requires StandsFor(spec, data.fields[spec.field], a.value)
    ensures SayTheData([a] + arguments, [spec] + specs, data)
  {
  }

  lemma {:induction false} ArgumentsSayTheData(args: seq<ArgSpec>, data: Json)
    requires Arguments(args, data).Ok?
    ensures SayTheData(Meant(Arguments(args, data).value), GivenSpecs(args, data), data)
  {
    if args != [] {
      ArgumentsStep(args, data);
      ArgumentsSayTheData(args[1..], data);
      if Given(args[0], data) {
        var raw := Raw(args[0], data);
        var v, rest := Convert(args[0], raw).value, Arguments(args[1..], data).value;
        ConvertedStandsFor(args[0], raw);
        MeantOneMore(Argument(args[0].arg, v), rest);
        SayOneMore(Meant(rest), GivenSpecs(args[1..], data), data, Argument(args[0].arg, Canonical(v)), args[0]);
      } else {
        assert [] + GivenSpecs(args[1..], data) == GivenSpecs(args[1..], data);
      }
    }
  }

  lemma MeantOneMore(a: Argument, rest: seq<Argument>)
    ensures Meant([a] + rest) == [Argument(a.name, Canonical(a.value))] + Meant(rest)
  {
    assert ([a] + rest)[1..] == rest;
  }

  // ---- Reading it back ----

  /** The function a template is called by. */
  function FunctionOf(m: Manifest): string {
    m.wrapperFn.UnwrapOr(if m.kind == Wrapper then "" else "render")
  }

  lemma AfterPrefix(prefix: string, rest: string)
    ensures After(prefix + rest, prefix) == Some(rest)
  {
    assert (prefix + rest)[|prefix|..] == rest;
  }

  lemma JoinQuoted(word: string, quote: string, text: string, end: string)
    ensures word + (quote + text + quote) + end == (word + quote) + (text + quote + end)
  {
  }

  lemma ReadsInclude(path: string)
    ensures ReadInclude("#include " + StringLiteral(path) + "\n") == Some(path)
  {
    var tail := Escaped(path) + "\"" + "\n";
    assert "#include " + StringLiteral(path) + "\n" == "#include \"" + tail by {
      JoinQuoted("#include ", "\"", Escaped(path), "\n");
      assert "#include " + "\"" == "#include \"";
    }
    AfterPrefix("#include \"", tail);
    ReadEscaped(path, "\n");
  }

  lemma ReadsCall(entrypoint: string, shows: bool, name: string, open: string, text: string)
    requires IsIdent(name) && open == if shows then ".with(\n" else "(\n"
    ensures ReadCall(entrypoint, shows, name + (open + text))
         == match ReadArguments(text)
            case None => None
            case Some((arguments, rest)) =>
              if shows then
                (match ReadInclude(rest)
                 case None => None
                 case Some(body) => Some(Script(entrypoint, true, name, arguments, Some(body))))
              else if rest == "" then Some(Script(entrypoint, false, name, arguments, None)) else None
  {
    SpanExact(name, open + text, IdentClass);
    AfterPrefix(open, text);
    assert (name + (open + text))[0] == name[0];
  }

  lemma ReadsEntrypoint(entrypoint: string, call: string)
    ensures ReadScript(OPENING + (Escaped(entrypoint) + "\"" + (": *\n#" + call)))
         == match After(call, "show: ")
            case Some(shown) => ReadCall(entrypoint, true, shown)
            case None => ReadCall(entrypoint, false, call)
  {
    AfterPrefix(OPENING, Escaped(entrypoint) + "\"" + (": *\n#" + call));
    ReadEscaped(entrypoint, ": *\n#" + call);
    AfterPrefix(": *\n#", call);
  }

  /** The generated text by its parts. */
  lemma GeneratedParts(m: Manifest, source: string) returns (lines: string)
    requires Header(m) <= source
    ensures lines == source[|Header(m)|..]
    ensures source
         == OPENING + (Escaped(m.entrypoint) + "\"" + (": *\n#" + (
              if m.kind == Wrapper then "show: " + (FunctionOf(m) + (".with(\n" + lines))
              else FunctionOf(m) + ("(\n" + lines))))
  {
    lines := source[|Header(m)|..];
    assert source == Header(m) + lines;
    var call := if m.kind == Wrapper then "show: " + (FunctionOf(m) + (".with(\n" + lines))
                else FunctionOf(m) + ("(\n" + lines);
    CallParts(m, lines, call);
    HeaderParts(m, lines, call);
  }

  lemma OpenJoins(a: string, b: string, name: string, open: string, lines: string)
    ensures ((a + b) + name + open) + lines == a + (b + (name + (open + lines)))
  {
  }

  lemma CallParts(m: Manifest, lines: string, call: string)
    requires call == if m.kind == Wrapper then "show: " + (FunctionOf(m) + (".with(\n" + lines))
                     else FunctionOf(m) + ("(\n" + lines)
    ensures Call(m) + lines == "#" + call
  {
    if m.kind == Wrapper {
      OpenJoins("#", "show: ", FunctionOf(m), ".with(\n", lines);
      assert "#" + "show: " == "#show: ";
    } else {
      OpenJoins("#", "", FunctionOf(m), "(\n", lines);
      assert "#" + "" == "#" && "" + (FunctionOf(m) + ("(\n" + lines)) == FunctionOf(m) + ("(\n" + lines);
    }
  }

  lemma HeaderParts(m: Manifest, lines: string, call: string)
    requires Call(m) + lines == "#" + call
    ensures Header(m) + lines == OPENING + (Escaped(m.entrypoint) + "\"" + (": *\n#" + call))
  {
    JoinHeader(BANNER, "#import ", Escaped(m.entrypoint), Call(m), lines, call);
    assert BANNER + "#import \"" == OPENING;
  }

  lemma JoinHeader(banner: string, word: string, name: string, open: string, lines: string, call: string)
    requires open + lines == "#" + call
    ensures banner + (word + ("\"" + name + "\"") + ": *\n") + open + lines
         == (banner + (word + "\"")) + (name + "\"" + (": *\n#" + call))
  {
    var s := banner + (word + ("\"" + name + "\"") + ": *\n");
    assert s + open + lines == s + (open + lines) == s + ("#" + call);
    assert s == (banner + (word + "\"")) + (name + "\"" + ": *\n");
    assert ": *\n#" + call == ": *\n" + ("#" + call);
  }

  /** No call text that starts with an identifier is a show rule. */
  lemma NotShown(name: string, rest: string)
    requires IsIdent(name)
    ensures After(name + ("(\n" + rest), "show: ").None?
  {
    var s, i := name + ("(\n" + rest), if |name| > 4 then 4 else |name|;
    assert s[i] == if |name| > 4 then name[4] else '(';
    if |name| > 4 { assert name[4] in name; }
    assert "show: "[i] != s[i];
  }

  lemma ReadsWrapper(m: Manifest, data: Json)
    requires Generated(m, data).Ok? && m.kind == Wrapper && IsIdent(FunctionOf(m)) && NamesAreIdents(m.args, data)
    ensures ReadScript(Generated(m, data).value)
         == Some(Script(m.entrypoint, true, FunctionOf(m), Meant(Arguments(m.args, data).value), Some("__body.typ")))
  {
    GeneratedBody(m, data);
    var lines := GeneratedParts(m, Generated(m, data).value);
    var shown := FunctionOf(m) + (".with(\n" + lines);
    CallPassesTheData(m, data);
    ReadsEntrypoint(m.entrypoint, "show: " + shown);
    AfterPrefix("show: ", shown);
    ReadsCall(m.entrypoint, true, FunctionOf(m), ".with(\n", lines);
    ReadsInclude(GENERATED_BODY);
    assert Footer(m)[2..] == "#include " + StringLiteral(GENERATED_BODY) + "\n";
  }

  lemma ReadsData(m: Manifest, data: Json)
    requires Generated(m, data).Ok? && m.kind == Data && IsIdent(FunctionOf(m)) && NamesAreIdents(m.args, data)
    ensures ReadScript(Generated(m, data).value)
         == Some(Script(m.entrypoint, false, FunctionOf(m), Meant(Arguments(m.args, data).value), None))
  {
    GeneratedBody(m, data);
    var lines := GeneratedParts(m, Generated(m, data).value);
    CallPassesTheData(m, data);
    ReadsEntrypoint(m.entrypoint, FunctionOf(m) + ("(\n" + lines));
    NotShown(FunctionOf(m), lines);
    ReadsCall(m.entrypoint, false, FunctionOf(m), "(\n", lines);
    assert Footer(m)[2..] == "";
  }

  lemma CalledNamesAreIdents(entrypoint: string, shows: bool, s: string)
    requires ReadCall(entrypoint, shows, s).Some?
    ensures IsIdent(ReadCall(entrypoint, shows, s).value.function_)
    ensures forall a :: a in ReadCall(entrypoint, shows, s).value.arguments ==> IsIdent(a.name)
  {
    var n := Span(s, IdentClass);
    forall c | c in s[..n] ensures IsIdentChar(c) {
      var i :| 0 <= i < n && s[i] == c;
      SpanIsInClass(s, IdentClass, i);
    }
    ReadNamesAreIdents(After(s[n..], if shows then ".with(\n" else "(\n").value);
  }

  lemma ScriptNamesAreIdents(s: string)
    requires ReadScript(s).Some?
    ensures IsIdent(ReadScript(s).value.function_)
    ensures forall a :: a in ReadScript(s).value.arguments ==> IsIdent(a.name)
  {
    var call := After(ReadString(After(s, OPENING).value).value.1, ": *\n#").value;
    var entrypoint := ReadString(After(s, OPENING).value).value.0;
    match After(call, "show: ")
    case Some(shown) => CalledNamesAreIdents(entrypoint, true, shown);
    case None => CalledNamesAreIdents(entrypoint, false, call);
  }

  /** The script that the manifest and the data mean. */
  function MeantScript(m: Manifest, data: Json): Script
    requires Arguments(m.args, data).Ok?
  {
    Script(m.entrypoint, m.kind == Wrapper, FunctionOf(m), Meant(Arguments(m.args, data).value),
           if m.kind == Wrapper then Some("__body.typ") else None)
  }

  /** The file reads back exactly when the function and the names given are identifiers. The
      loader checks the function of a wrapper only. */
  lemma ReadsExactly(m: Manifest, data: Json)
    requires Generated(m, data).Ok?
    ensures ReadScript(Generated(m, data).value) == Some(MeantScript(m, data))
       <==> IsIdent(FunctionOf(m)) && NamesAreIdents(m.args, data)
  {
    if IsIdent(FunctionOf(m)) && NamesAreIdents(m.args, data) {
      if m.kind == Wrapper { ReadsWrapper(m, data); } else { ReadsData(m, data); }
    } else if ReadScript(Generated(m, data).value) == Some(MeantScript(m, data)) {
      ScriptNamesAreIdents(Generated(m, data).value);
      NamesInTheCall(m.args, data);
      forall a | a in Arguments(m.args, data).value ensures IsIdent(a.name) {
        MeantNames(Arguments(m.args, data).value, a.name);
      }
    }
  }

  /** The promise of the generated entrypoint, on its text and the caller's JSON alone. The
      file reads back as an import of the template's entrypoint and a call of its function, as
      a show rule around the body for a wrapper, and the arguments of the call say, name by
      name and in order, what the given fields say: each string, number, truth value, date
      and list of strings itself, and for a choice the author's identifier. */
  lemma EntrypointSaysTheData(m: Manifest, data: Json) returns (script: Script)
    requires Generated(m, data).Ok? && IsIdent(FunctionOf(m)) && NamesAreIdents(m.args, data)
    ensures ReadScript(Generated(m, data).value) == Some(script)
    ensures script.entrypoint == m.entrypoint
    ensures script.function_ == FunctionOf(m)
    ensures script.shows <==> m.kind == Wrapper
    ensures script.body == if m.kind == Wrapper then Some("__body.typ") else None
    ensures SayTheData(script.arguments, GivenSpecs(m.args, data), data)
  {
    ReadsExactly(m, data);
    script := MeantScript(m, data);
    ArgumentsSayTheData(m.args, data);
  }
}
