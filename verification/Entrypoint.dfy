/** The generated entrypoint: caller data to Typst arguments to source text, as
    `Template::generate_main` of `src/templates.rs` does it. */
module Entrypoint {
  import opened Wrappers
  import opened TypstValues
  import opened TypstDates

  type FloatText = s: string | IsFloatText(s) witness "0.0"

  /** A number carries its integer value, when it is one, and its text as a float. */
  datatype Json =
    | Null
    | Boolean(b: bool)
    | Number(integer: Option<int>, float: FloatText)
    | Text(text: string)
    | List(items: seq<Json>)
    | Object(fields: map<string, Json>)

  datatype ArgKind = StrArg | IntArg | FloatArg | BoolArg | DateArg | StringsArg | IdentArg

  /** One manifest argument: the data field it is taken from, the Typst name it is passed
      under, and for identifiers the choices the template author allows. */
  datatype ArgSpec = ArgSpec(field: string, arg: string, kind: ArgKind, choices: map<string, string>)

  datatype TemplateKind = Wrapper | Data

  datatype Manifest = Manifest(
    kind: TemplateKind, entrypoint: string, wrapperFn: Option<string>, args: seq<ArgSpec>)

  datatype Complaint =
    | NotAString | NotAnInteger | NotANumber | NotABool | NotADate | NotAnArray
    | ElementNotAString(index: nat)
    | NotAllowed(key: string)

  datatype Problem = BadArg(field: string, complaint: Complaint) | BadValue(error: ValueError)

  // ---- What is computed ----

  function AllTexts(items: seq<Json>): bool {
    forall i :: 0 <= i < |items| ==> items[i].Text?
  }

  function FirstNonText(items: seq<Json>): (i: nat)
    ensures i <= |items| && AllTexts(items[..i]) && (i < |items| ==> !items[i].Text?)
  {
    if items == [] || !items[0].Text? then 0 else 1 + FirstNonText(items[1..])
  }

  function StrValues(items: seq<Json>): (values: seq<TypstValue>)
    requires AllTexts(items)
    ensures |values| == |items|
  {
    seq(|items|, i requires 0 <= i < |items| => Str(items[i].text))
  }

  /** `convert`: one JSON value by its declared type. */
  function Convert(spec: ArgSpec, raw: Json): Result<TypstValue, Problem> {
    match spec.kind
    case StrArg => if raw.Text? then Ok(Str(raw.text)) else Err(BadArg(spec.field, NotAString))
    case IntArg =>
      if raw.Number? && raw.integer.Some? then Ok(Int(raw.integer.value)) else Err(BadArg(spec.field, NotAnInteger))
    case FloatArg => if raw.Number? then Ok(Float(raw.float, true)) else Err(BadArg(spec.field, NotANumber))
    case BoolArg => if raw.Boolean? then Ok(Bool(raw.b)) else Err(BadArg(spec.field, NotABool))
    case DateArg =>
      if raw.Text? && ParseDate(raw.text).Some? then Ok(ParseDate(raw.text).value)
      else Err(BadArg(spec.field, NotADate))
    case StringsArg =>
      if !raw.List? then Err(BadArg(spec.field, NotAnArray))
      else if AllTexts(raw.items) then Ok(Array(StrValues(raw.items)))
      else Err(BadArg(spec.field, ElementNotAString(FirstNonText(raw.items))))
    case IdentArg =>
      if !raw.Text? then Err(BadArg(spec.field, NotAString))
      else if raw.text in spec.choices then Ok(Ident(spec.choices[raw.text]))
      else Err(BadArg(spec.field, NotAllowed(raw.text)))
  }

  /** A field counts as given when it is there and not null. */
  predicate Given(spec: ArgSpec, data: Json) {
    data.Object? && spec.field in data.fields && !data.fields[spec.field].Null?
  }

  function Raw(spec: ArgSpec, data: Json): Json
    requires Given(spec, data)
  {
    data.fields[spec.field]
  }

  datatype Argument = Argument(name: string, value: TypstValue)

  /** `arguments`: the given fields in manifest order; the first failure wins. */
  function Arguments(args: seq<ArgSpec>, data: Json): Result<seq<Argument>, Problem> {
    if args == [] then Ok([])
    else if !Given(args[0], data) then Arguments(args[1..], data)
    else
      match Convert(args[0], Raw(args[0], data))
      case Err(e) => Err(e)
      case Ok(value) =>
        match Arguments(args[1..], data)
        case Err(e) => Err(e)
        case Ok(rest) => Ok([Argument(args[0].arg, value)] + rest)
  }

  function Line(name: string, source: string): string {
    "  " + name + ": " + (source + ",\n")
  }

  function Lines(arguments: seq<Argument>): Result<string, Problem> {
    if arguments == [] then Ok("")
    else
      match ToSource(arguments[0].value)
      case Err(e) => Err(BadValue(e))
      case Ok(source) =>
        match Lines(arguments[1..])
        case Err(e) => Err(e)
        case Ok(rest) => Ok(Line(arguments[0].name, source) + rest)
  }

  function Body(args: seq<ArgSpec>, data: Json): Result<string, Problem> {
    match Arguments(args, data)
    case Err(e) => Err(e)
    case Ok(arguments) => Lines(arguments)
  }

  const BANNER := "// Generated by typst-mcp. Do not edit.\n"
  const GENERATED_BODY := "__body.typ"

  function Import(entrypoint: string): string {
    "#import " + StringLiteral(entrypoint) + ": *\n"
  }

  function Call(m: Manifest): string {
    match m.kind
    case Wrapper => "#show: " + m.wrapperFn.UnwrapOr("") + ".with(\n"
    case Data => "#" + m.wrapperFn.UnwrapOr("render") + "(\n"
  }

  function Header(m: Manifest): string {
    BANNER + Import(m.entrypoint) + Call(m)
  }

  function Footer(m: Manifest): string {
    match m.kind
    case Wrapper => ")\n" + ("#include " + StringLiteral(GENERATED_BODY) + "\n")
    case Data => ")\n"
  }

  /** `generate_main`. */
  function Generated(m: Manifest, data: Json): Result<string, Problem> {
    match Body(m.args, data)
    case Err(e) => Err(e)
    case Ok(body) => Ok(Header(m) + body + Footer(m))
  }

  // ---- How it is computed ----

  lemma FirstNonTextIs(items: seq<Json>, i: nat)
    requires i < |items| && AllTexts(items[..i]) && !items[i].Text?
    ensures FirstNonText(items) == i
  {
    var first := FirstNonText(items);
    assert forall j :: 0 <= j < i ==> items[j] == items[..i][j];
    assert forall j :: 0 <= j < first ==> items[j] == items[..first][j];
  }

  method ConvertArg(spec: ArgSpec, raw: Json) returns (r: Result<TypstValue, Problem>)
    ensures r == Convert(spec, raw)
  {
    if spec.kind != StringsArg {
      return Convert(spec, raw);
    }
    if !raw.List? {
      return Err(BadArg(spec.field, NotAnArray));
    }
    var values := [];
    for i := 0 to |raw.items|
      invariant AllTexts(raw.items[..i]) && values == StrValues(raw.items[..i])
    {
      if !raw.items[i].Text? {
        FirstNonTextIs(raw.items, i);
        return Err(BadArg(spec.field, ElementNotAString(i)));
      }
      assert raw.items[..i + 1] == raw.items[..i] + [raw.items[i]];
      values := values + [Str(raw.items[i].text)];
    }
    assert raw.items[..|raw.items|] == raw.items;
    r := Ok(Array(values));
  }

  /** `whole` is `part` put before whatever `rest` turns out to be. */
  ghost predicate Continues<T>(whole: Result<seq<T>, Problem>, part: seq<T>, rest: Result<seq<T>, Problem>) {
    match rest
    case Err(e) => whole == Err(e)
    case Ok(more) => whole == Ok(part + more)
  }

  lemma ContinuesEnds<T>(whole: Result<seq<T>, Problem>, part: seq<T>)
    ensures Continues(whole, [], whole)
    ensures Continues(whole, part, Ok([])) ==> whole == Ok(part)
  {
    if whole.Ok? { assert [] + whole.value == whole.value; }
    assert part + [] == part;
  }

  method CollectArguments(args: seq<ArgSpec>, data: Json) returns (r: Result<seq<Argument>, Problem>)
    ensures r == Arguments(args, data)
  {
    var out: seq<Argument> := [];
    assert args[0..] == args;
    ContinuesEnds(Arguments(args, data), []);
    for i := 0 to |args|
      invariant Continues(Arguments(args, data), out, Arguments(args[i..], data))
    {
      assert args[i..][1..] == args[i + 1..];
      if Given(args[i], data) {
        var value := ConvertArg(args[i], Raw(args[i], data));
        if value.Err? {
          return Err(value.error);
        }
        assert forall more: seq<Argument> :: out + ([Argument(args[i].arg, value.value)] + more)
                                             == (out + [Argument(args[i].arg, value.value)]) + more;
        out := out + [Argument(args[i].arg, value.value)];
      }
    }
    ContinuesEnds(Arguments(args, data), out);
    r := Ok(out);
  }

  method WriteArgument(argument: Argument, out: string) returns (r: Result<(), Problem>, after: string)
    ensures match ToSource(argument.value)
            case Ok(source) => r == Ok(()) && after == out + Line(argument.name, source)
            case Err(e) => r == Err(BadValue(e))
  {
    after := out + "  ";
    after := after + argument.name;
    after := after + ": ";
    var source, text := Write(argument.value, "");
    if source.Err? {
      return Err(BadValue(source.error)), after;
    }
    assert text == ToSource(argument.value).value;
    after := after + text;
    after := after + ",\n";
    r := Ok(());
  }

  method WriteArguments(arguments: seq<Argument>, out: string) returns (r: Result<(), Problem>, after: string)
    ensures match Lines(arguments)
            case Ok(text) => r == Ok(()) && after == out + text
            case Err(e) => r == Err(e)
  {
    after := out;
    ghost var text := "";
    assert arguments[0..] == arguments;
    ContinuesEnds(Lines(arguments), "");
    for i := 0 to |arguments|
      invariant after == out + text && Continues(Lines(arguments), text, Lines(arguments[i..]))
    {
      assert arguments[i..][1..] == arguments[i + 1..];
      r, after := WriteArgument(arguments[i], after);
      if r.Err? {
        return;
      }
      ghost var line := Line(arguments[i].name, ToSource(arguments[i].value).value);
      assert forall more: string :: text + (line + more) == (text + line) + more;
      ConcatAssociates(out, text, line);
      text := text + line;
    }
    ContinuesEnds(Lines(arguments), text);
    r := Ok(());
  }

  method GenerateMain(m: Manifest, data: Json) returns (r: Result<string, Problem>)
    ensures r == Generated(m, data)
  {
    var out := BANNER;
    out := out + Import(m.entrypoint);
    var arguments: Result<seq<Argument>, Problem>;
    var written: Result<(), Problem>;
    if m.kind == Wrapper {
      var wrapper := m.wrapperFn.UnwrapOr("");
      out := out + ("#show: " + wrapper + ".with(\n");
    } else {
      var wrapper := m.wrapperFn.UnwrapOr("render");
      out := out + ("#" + wrapper + "(\n");
    }
    assert out == Header(m);
    arguments := CollectArguments(m.args, data);
    if arguments.Err? {
      return Err(arguments.error);
    }
    written, out := WriteArguments(arguments.value, out);
    if written.Err? {
      return Err(written.error);
    }
    ghost var body := Header(m) + Lines(arguments.value).value;
    if m.kind == Wrapper {
      ConcatAssociates(body, ")\n", "#include " + StringLiteral(GENERATED_BODY) + "\n");
      out := out + ")\n";
      out := out + ("#include " + StringLiteral(GENERATED_BODY) + "\n");
    } else {
      out := out + ")\n";
    }
    r := Ok(out);
  }
}
