/** What the generated entrypoint says: reading its call back gives the caller's data. */
module EntrypointMeaning {
  import opened Wrappers
  import opened TypstValues
  import opened TypstDates
  import opened TypstReader
  import opened Entrypoint

  /** The argument lines of a call, up to its closing parenthesis. */
  function ReadArguments(s: string): (r: Parsed<seq<Argument>>)
    decreases |s|
  {
    if Begins(s, ")\n") then Some(([], s[2..]))
    else if !Begins(s, "  ") || !OpensDict(s[2..]) then None
    else
      var n := Span(s[2..], IdentClass);
      match Read(s[2..][n + 2..])
      case None => None
      case Some((value, rest)) =>
        if !Begins(rest, ",\n") then None
        else
          match ReadArguments(rest[2..])
          case None => None
          case Some((arguments, end)) => Some(([Argument(s[2..][..n], value)] + arguments, end))
  }

  function Meant(arguments: seq<Argument>): seq<Argument> {
    if arguments == [] then []
    else [Argument(arguments[0].name, Canonical(arguments[0].value))] + Meant(arguments[1..])
  }

  ghost predicate ReadableArgument(a: Argument) {
    IsIdent(a.name) && ToSource(a.value).Ok? && FloatsPrinted(a.value)
  }

  lemma ReadLine(a: Argument, more: string)
    requires ReadableArgument(a)
    ensures (ReadArguments(Line(a.name, ToSource(a.value).value) + more)
             == (match ReadArguments(more)
                 case None => None
                 case Some((arguments, end)) =>
                   Some(([Argument(a.name, Canonical(a.value))] + arguments, end))))
  {
    var source := ToSource(a.value).value;
    var tail := source + (",\n" + more);
    var s := Line(a.name, source) + more;
    LineSplits(a.name, source, more);
    var t := a.name + ": " + tail;
    assert s == "  " + t && s[0] == ' ' && s[2..] == t && Begins(s, "  ");
    FieldOpensDict(a.name, tail);
    ReadBack(a.value, ",\n" + more);
    assert Read(t[|a.name| + 2..]) == Some((Canonical(a.value), ",\n" + more));
    assert (",\n" + more)[2..] == more && Begins(",\n" + more, ",\n");
  }

  lemma LineSplits(name: string, source: string, more: string)
    ensures Line(name, source) + more == "  " + (name + ": " + (source + (",\n" + more)))
  {
    assert Line(name, source) + more == "  " + name + ": " + (source + (",\n" + more));
  }

  lemma {:induction false} ReadLines(arguments: seq<Argument>, rest: string)
    requires forall a :: a in arguments ==> ReadableArgument(a)
    ensures Lines(arguments).Ok?
    ensures ReadArguments(Lines(arguments).value + (")\n" + rest)) == Some((Meant(arguments), rest))
  {
    if arguments == [] {
      assert "" + (")\n" + rest) == ")\n" + rest && (")\n" + rest)[2..] == rest;
    } else {
      var a := arguments[0];
      assert a in arguments;
      ReadLines(arguments[1..], rest);
      var line, more := Line(a.name, ToSource(a.value).value), Lines(arguments[1..]).value;
      ConcatAssociates(line, more, ")\n" + rest);
      ReadLine(a, more + (")\n" + rest));
    }
  }

  lemma ConvertedIsReadable(spec: ArgSpec, raw: Json)
    requires Convert(spec, raw).Ok?
    ensures FloatsPrinted(Convert(spec, raw).value)
  {
    if spec.kind == DateArg {
      ParsedDateIsExact(raw.text, Convert(spec, raw).value);
    }
  }

  /** Every field the data gives goes under a name that is an identifier. The loader does not
      check it of any name. */
  predicate NamesAreIdents(args: seq<ArgSpec>, data: Json) {
    forall spec | spec in args :: Given(spec, data) ==> IsIdent(spec.arg)
  }

  lemma {:induction false} ArgumentsPrint(args: seq<ArgSpec>, data: Json)
    requires Arguments(args, data).Ok? && Lines(Arguments(args, data).value).Ok?
    ensures forall a :: a in Arguments(args, data).value ==> ToSource(a.value).Ok? && FloatsPrinted(a.value)
  {
    if args != [] {
      var all := Arguments(args, data).value;
      if Given(args[0], data) {
        ConvertedIsReadable(args[0], Raw(args[0], data));
        assert all[1..] == Arguments(args[1..], data).value;
        assert all == [all[0]] + all[1..];
      }
      ArgumentsPrint(args[1..], data);
    }
  }

  /** The names of a call are those of the given fields. */
  lemma {:induction false} ArgumentNames(args: seq<ArgSpec>, data: Json, name: string)
    requires Arguments(args, data).Ok?
    ensures (exists a :: a in Arguments(args, data).value && a.name == name)
       <==> (exists spec :: spec in args && Given(spec, data) && spec.arg == name)
  {
    if args != [] {
      var all, rest := Arguments(args, data).value, Arguments(args[1..], data).value;
      ArgumentNames(args[1..], data, name);
      assert args == [args[0]] + args[1..];
      if Given(args[0], data) {
        assert all == [all[0]] + rest && all[0].name == args[0].arg;
        if args[0].arg == name { assert all[0] in all; }
      }
    }
  }

  lemma NamesInTheCall(args: seq<ArgSpec>, data: Json)
    requires Arguments(args, data).Ok?
    ensures NamesAreIdents(args, data) <==> forall a :: a in Arguments(args, data).value ==> IsIdent(a.name)
  {
    var all := Arguments(args, data).value;
    if NamesAreIdents(args, data) {
      forall a | a in all ensures IsIdent(a.name) {
        ArgumentNames(args, data, a.name);
      }
    } else {
      var spec :| spec in args && Given(spec, data) && !IsIdent(spec.arg);
      ArgumentNames(args, data, spec.arg);
    }
  }

  lemma {:induction false} SpanIsInClass(s: string, k: Class, i: nat)
    requires i < Span(s, k)
    ensures InClass(s[i], k)
  {
    if i > 0 { SpanIsInClass(s[1..], k, i - 1); }
  }

  lemma OpenedNameIsIdent(s: string)
    requires OpensDict(s)
    ensures IsIdent(s[..Span(s, IdentClass)])
  {
    var n := Span(s, IdentClass);
    forall c | c in s[..n] ensures IsIdentChar(c) {
      var i :| 0 <= i < n && s[i] == c;
      SpanIsInClass(s, IdentClass, i);
    }
  }

  /** The reader only ever finds identifiers for names. */
  lemma {:induction false} ReadNamesAreIdents(s: string)
    requires ReadArguments(s).Some?
    ensures forall a :: a in ReadArguments(s).value.0 ==> IsIdent(a.name)
    decreases |s|
  {
    if !Begins(s, ")\n") {
      OpenedNameIsIdent(s[2..]);
      var n := Span(s[2..], IdentClass);
      var rest := Read(s[2..][n + 2..]).value.1;
      ReadNamesAreIdents(rest[2..]);
    }
  }

  lemma {:induction false} MeantNames(arguments: seq<Argument>, name: string)
    ensures (exists a :: a in Meant(arguments) && a.name == name) <==> exists a :: a in arguments && a.name == name
  {
    if arguments != [] {
      var meant := Meant(arguments);
      MeantNames(arguments[1..], name);
      assert arguments == [arguments[0]] + arguments[1..];
      assert meant == [meant[0]] + Meant(arguments[1..]);
      if arguments[0].name == name { assert arguments[0] in arguments && meant[0] in meant; }
    }
  }

  lemma GeneratedBody(m: Manifest, data: Json)
    requires Generated(m, data).Ok?
    ensures Arguments(m.args, data).Ok? && Lines(Arguments(m.args, data).value).Ok?
    ensures Header(m) <= Generated(m, data).value
    ensures Generated(m, data).value[|Header(m)|..]
         == Lines(Arguments(m.args, data).value).value + (")\n" + Footer(m)[2..])
  {
    var body := Lines(Arguments(m.args, data).value).value;
    assert Footer(m) == ")\n" + Footer(m)[2..];
    ConcatAssociates(Header(m), body, Footer(m));
    assert (Header(m) + (body + Footer(m)))[|Header(m)|..] == body + Footer(m);
  }

  /** The call that is generated passes exactly the given fields, under the manifest's names,
      with the caller's values, exactly when these names are identifiers, and whatever the
      values are. */
  lemma CallPassesTheData(m: Manifest, data: Json)
    requires Generated(m, data).Ok?
    ensures Header(m) <= Generated(m, data).value
    ensures ReadArguments(Generated(m, data).value[|Header(m)|..])
            == Some((Meant(Arguments(m.args, data).value), Footer(m)[2..]))
       <==> NamesAreIdents(m.args, data)
  {
    var arguments := Arguments(m.args, data).value;
    GeneratedBody(m, data);
    ArgumentsPrint(m.args, data);
    NamesInTheCall(m.args, data);
    var text := Generated(m, data).value[|Header(m)|..];
    if NamesAreIdents(m.args, data) {
      ReadLines(arguments, Footer(m)[2..]);
    } else {
      var a :| a in arguments && !IsIdent(a.name);
      MeantNames(arguments, a.name);
      if ReadArguments(text) == Some((Meant(arguments), Footer(m)[2..])) {
        ReadNamesAreIdents(text);
      }
    }
  }

  // ---- Which data is accepted ----

  /** What a declared type takes. A choice is one of the author's, and must be an identifier. */
  predicate Suits(spec: ArgSpec, raw: Json) {
    match spec.kind
    case StrArg => raw.Text?
    case IntArg => raw.Number? && raw.integer.Some?
    case FloatArg => raw.Number?
    case BoolArg => raw.Boolean?
    case DateArg => raw.Text? && ParseDate(raw.text).Some?
    case StringsArg => raw.List? && AllTexts(raw.items)
    case IdentArg => raw.Text? && raw.text in spec.choices && IsIdent(spec.choices[raw.text])
  }

  lemma SuitsExactly(spec: ArgSpec, raw: Json)
    ensures Convert(spec, raw).Ok? && ToSource(Convert(spec, raw).value).Ok? <==> Suits(spec, raw)
  {
    if Convert(spec, raw).Ok? {
      var v := Convert(spec, raw).value;
      PrintableExactly(v);
      if spec.kind == DateArg { ParsedDateIsExact(raw.text, v); }
    }
  }

  predicate DataSuits(args: seq<ArgSpec>, data: Json) {
    forall spec | spec in args :: Given(spec, data) ==> Suits(spec, Raw(spec, data))
  }

  lemma BodyOfFirst(args: seq<ArgSpec>, data: Json)
    requires args != []
    ensures Body(args, data).Ok? <==>
              (Given(args[0], data) ==> && Convert(args[0], Raw(args[0], data)).Ok?
                                        && ToSource(Convert(args[0], Raw(args[0], data)).value).Ok?)
              && Body(args[1..], data).Ok?
  {
    if Given(args[0], data) && Convert(args[0], Raw(args[0], data)).Ok? && Arguments(args[1..], data).Ok? {
      var all := Arguments(args, data).value;
      assert all[0] == Argument(args[0].arg, Convert(args[0], Raw(args[0], data)).value);
      assert all[1..] == Arguments(args[1..], data).value;
    }
  }

  lemma {:induction false} BodyExactly(args: seq<ArgSpec>, data: Json)
    ensures Body(args, data).Ok? <==> DataSuits(args, data)
  {
    if args != [] {
      BodyOfFirst(args, data);
      BodyExactly(args[1..], data);
      if Given(args[0], data) { SuitsExactly(args[0], Raw(args[0], data)); }
      assert args == [args[0]] + args[1..];
    }
  }

  /** A source is generated exactly when every field that the data gives suits its type. */
  lemma GeneratedExactly(m: Manifest, data: Json)
    ensures Generated(m, data).Ok? <==> DataSuits(m.args, data)
  {
    BodyExactly(m.args, data);
  }

  /** Only what the template author wrote can read back as another value. */
  lemma MeantIsSaid(spec: ArgSpec, raw: Json)
    requires Convert(spec, raw).Ok?
    ensures Canonical(Convert(spec, raw).value) == Convert(spec, raw).value
            <==> !(spec.kind == IdentArg && spec.choices[raw.text] in RESERVED_WORDS)
  {
    var v := Convert(spec, raw).value;
    CanonicalIsSame(v);
    if spec.kind == DateArg {
      ParsedDateIsExact(raw.text, v);
    }
  }

  lemma {:induction false} MeantPrintsAlike(arguments: seq<Argument>)
    ensures Lines(Meant(arguments)) == Lines(arguments)
  {
    if arguments != [] {
      CanonicalPrintsAlike(arguments[0].value);
      MeantPrintsAlike(arguments[1..]);
      assert Meant(arguments)[1..] == Meant(arguments[1..]);
    }
  }

  predicate ColonSpaceAt(s: string, i: nat) {
    i + 1 < |s| && s[i] == ':' && s[i + 1] == ' '
  }

  /** No colon and space inside: the first ones on its line then end the name. */
  ghost predicate OneName(name: string) {
    forall i: nat :: !ColonSpaceAt(name, i)
  }

  lemma ColonSpaceInFront(name: string, rest: string, k: nat)
    ensures k + 1 < |name| ==> (ColonSpaceAt(name + rest, k) <==> ColonSpaceAt(name, k))
    ensures k + 1 == |name| && ColonSpaceAt(name + rest, k) ==> rest[0] == ' '
  {
  }

  lemma ColonSpaceIsLater(name: string, rest: string, k: nat)
    requires OneName(name) && ColonSpaceAt(name + (": " + rest), k)
    ensures k >= |name|
  {
    ColonSpaceInFront(name, ": " + rest, k);
  }

  /** Names that cannot be taken for one another: the same, or both over at their colon. */
  ghost predicate NeverMistaken(a: string, b: string) {
    a == b || (OneName(a) && OneName(b))
  }

  lemma NameEnds(a: string, x: string, b: string, y: string)
    requires a + ": " + x == b + ": " + y && NeverMistaken(a, b)
    ensures a == b && x == y
  {
    var s := a + ": " + x;
    assert s == b + ": " + y == a + (": " + x) == b + (": " + y);
    if a != b {
      assert ColonSpaceAt(s, |a|) && ColonSpaceAt(s, |b|);
      ColonSpaceIsLater(b, y, |a|);
      ColonSpaceIsLater(a, x, |b|);
    }
    assert a == s[..|a|] && b == s[..|b|] && x == s[|a| + 2..] && y == s[|b| + 2..];
  }

  ghost predicate Prints(a: Argument) {
    ToSource(a.value).Ok? && FloatsPrinted(a.value)
  }

  lemma LineDetermines(a: Argument, x: string, b: Argument, y: string)
    requires Prints(a) && Prints(b) && NeverMistaken(a.name, b.name)
    requires Line(a.name, ToSource(a.value).value) + x == Line(b.name, ToSource(b.value).value) + y
    ensures a.name == b.name && Canonical(a.value) == Canonical(b.value) && x == y
  {
    var u, v := ToSource(a.value).value, ToSource(b.value).value;
    LineSplits(a.name, u, x);
    LineSplits(b.name, v, y);
    var s, t := a.name + ": " + (u + (",\n" + x)), b.name + ": " + (v + (",\n" + y));
    assert s == ("  " + s)[2..] && t == ("  " + t)[2..];
    NameEnds(a.name, u + (",\n" + x), b.name, v + (",\n" + y));
    ReadBack(a.value, ",\n" + x);
    ReadBack(b.value, ",\n" + y);
    assert x == (",\n" + x)[2..] && y == (",\n" + y)[2..];
  }

  /** Names that cannot be mistaken wherever both lists have one. */
  ghost predicate Apart(a: seq<string>, b: seq<string>) {
    forall i :: 0 <= i < |a| && i < |b| ==> NeverMistaken(a[i], b[i])
  }

  function Names(arguments: seq<Argument>): (names: seq<string>)
    ensures |names| == |arguments| && forall i :: 0 <= i < |names| ==> names[i] == arguments[i].name
  {
    seq(|arguments|, i requires 0 <= i < |arguments| => arguments[i].name)
  }

  lemma {:induction false} LinesDetermine(a: seq<Argument>, b: seq<Argument>, end: string)
    requires (forall x :: x in a ==> Prints(x)) && (forall x :: x in b ==> Prints(x)) && Apart(Names(a), Names(b))
    requires Lines(a).Ok? && Lines(b).Ok? && Lines(a).value + (")\n" + end) == Lines(b).value + (")\n" + end)
    ensures Meant(a) == Meant(b)
  {
    var s, t := Lines(a).value + (")\n" + end), Lines(b).value + (")\n" + end);
    if a == [] || b == [] {
      assert s[0] == if a == [] then ')' else ' ';
      assert t[0] == if b == [] then ')' else ' ';
    } else {
      var x, y := Lines(a[1..]).value, Lines(b[1..]).value;
      assert a[0] in a && b[0] in b && NeverMistaken(Names(a)[0], Names(b)[0]);
      ConcatAssociates(Line(a[0].name, ToSource(a[0].value).value), x, ")\n" + end);
      ConcatAssociates(Line(b[0].name, ToSource(b[0].value).value), y, ")\n" + end);
      LineDetermines(a[0], x + (")\n" + end), b[0], y + (")\n" + end));
      RestIsApart(a, b);
      LinesDetermine(a[1..], b[1..], end);
    }
  }

  lemma RestIsApart(a: seq<Argument>, b: seq<Argument>)
    requires a != [] && b != [] && Apart(Names(a), Names(b))
    ensures Apart(Names(a[1..]), Names(b[1..]))
  {
    forall i | 0 <= i < |a| - 1 && i < |b| - 1 ensures NeverMistaken(Names(a[1..])[i], Names(b[1..])[i]) {
      assert NeverMistaken(Names(a)[i + 1], Names(b)[i + 1]);
    }
  }

  /** The names of the fields the data gives, in order. */
  function GivenNames(args: seq<ArgSpec>, data: Json): seq<string> {
    if args == [] then []
    else (if Given(args[0], data) then [args[0].arg] else []) + GivenNames(args[1..], data)
  }

  lemma {:induction false} GivenNamesAreNames(args: seq<ArgSpec>, data: Json)
    requires Arguments(args, data).Ok?
    ensures Names(Arguments(args, data).value) == GivenNames(args, data)
  {
    if args != [] {
      ArgumentsStep(args, data);
      GivenNamesAreNames(args[1..], data);
    }
  }

  /** Requests that pass the same arguments generate the same source, whatever the names. The
      other way round it holds of any two requests whose names, place by place, are the same
      or hold no colon and space. */
  lemma SourceDeterminesArguments(m: Manifest, a: Json, b: Json)
    requires Generated(m, a).Ok? && Generated(m, b).Ok?
    ensures Meant(Arguments(m.args, a).value) == Meant(Arguments(m.args, b).value) ==>
              Generated(m, a) == Generated(m, b)
    ensures Apart(GivenNames(m.args, a), GivenNames(m.args, b)) ==>
              (Generated(m, a) == Generated(m, b) <==>
               Meant(Arguments(m.args, a).value) == Meant(Arguments(m.args, b).value))
  {
    var x, y := Arguments(m.args, a).value, Arguments(m.args, b).value;
    GeneratedBody(m, a);
    GeneratedBody(m, b);
    MeantPrintsAlike(x);
    MeantPrintsAlike(y);
    if Apart(GivenNames(m.args, a), GivenNames(m.args, b)) && Generated(m, a) == Generated(m, b) {
      ArgumentsPrint(m.args, a);
      ArgumentsPrint(m.args, b);
      GivenNamesAreNames(m.args, a);
      GivenNamesAreNames(m.args, b);
      LinesDetermine(x, y, Footer(m)[2..]);
    }
  }

  lemma {:induction false} SameFieldsSameNames(args: seq<ArgSpec>, a: Json, b: Json)
    requires forall spec :: spec in args ==> Given(spec, a) == Given(spec, b)
    ensures GivenNames(args, a) == GivenNames(args, b)
  {
    if args != [] {
      assert args[0] in args;
      SameFieldsSameNames(args[1..], a, b);
    }
  }

  lemma {:induction false} GivenNamesAreGiven(args: seq<ArgSpec>, data: Json, name: string)
    requires name in GivenNames(args, data)
    ensures exists spec :: spec in args && Given(spec, data) && spec.arg == name
  {
    if Given(args[0], data) && args[0].arg == name {
      assert args[0] in args;
    } else {
      GivenNamesAreGiven(args[1..], data, name);
    }
  }

  /** Every field the data gives goes under a name without a colon and a space. */
  ghost predicate NamesAreOne(args: seq<ArgSpec>, data: Json) {
    forall spec | spec in args :: Given(spec, data) ==> OneName(spec.arg)
  }

  /** So under every manifest for requests that give the same fields, and for all requests
      when no given name holds a colon and a space. */
  lemma NamesApart(args: seq<ArgSpec>, a: Json, b: Json)
    requires (forall spec :: spec in args ==> Given(spec, a) == Given(spec, b))
          || (NamesAreOne(args, a) && NamesAreOne(args, b))
    ensures Apart(GivenNames(args, a), GivenNames(args, b))
  {
    if NamesAreOne(args, a) && NamesAreOne(args, b) {
      forall i | 0 <= i < |GivenNames(args, a)| && i < |GivenNames(args, b)|
        ensures NeverMistaken(GivenNames(args, a)[i], GivenNames(args, b)[i])
      {
        GivenNamesAreGiven(args, a, GivenNames(args, a)[i]);
        GivenNamesAreGiven(args, b, GivenNames(args, b)[i]);
      }
    } else {
      SameFieldsSameNames(args, a, b);
    }
  }

  /** Identifiers hold no colon at all. */
  lemma IdentsAreOneNames(args: seq<ArgSpec>, data: Json)
    requires NamesAreIdents(args, data)
    ensures NamesAreOne(args, data)
  {
    forall spec, i: nat | spec in args && Given(spec, data) ensures !ColonSpaceAt(spec.arg, i) {
      if i < |spec.arg| { assert spec.arg[i] in spec.arg; }
    }
  }

  /** A name that is itself the middle of a call. */
  function Swallowing(p: string, source: string, q: string): string {
    p + ": " + (source + ",\n") + "  " + q
  }

  lemma SwallowedLine(p: string, u: string, q: string, v: string)
    ensures Line(p, u) + Line(q, v) == Line(Swallowing(p, u, q), v)
  {
  }

  /** With a colon and a space in a name it fails: data giving two integers and data giving
      one generate the same source. */
  lemma SwallowedNameConfuses(m: Manifest, f: string, g: string, h: string, p: string, q: string, i: int, j: int,
                              float: FloatText)
    requires f != g && g != h && f != h
    requires m.args == [ArgSpec(f, p, IntArg, map[]), ArgSpec(g, q, IntArg, map[]),
                        ArgSpec(h, Swallowing(p, ToSource(Int(i)).value, q), IntArg, map[])]
    ensures var two, one := Object(map[f := Number(Some(i), float), g := Number(Some(j), float)]),
                            Object(map[h := Number(Some(j), float)]);
            && Generated(m, two).Ok? && Generated(m, two) == Generated(m, one)
            && |Meant(Arguments(m.args, two).value)| == 2 && |Meant(Arguments(m.args, one).value)| == 1
  {
    var two, one := Object(map[f := Number(Some(i), float), g := Number(Some(j), float)]),
                    Object(map[h := Number(Some(j), float)]);
    var r := Swallowing(p, ToSource(Int(i)).value, q);
    ThreeArguments(m.args, two);
    ThreeArguments(m.args, one);
    var x, y, z := Argument(p, Int(i)), Argument(q, Int(j)), Argument(r, Int(j));
    assert [x] + ([y] + []) == [x, y] && [z] + [] == [z];
    assert Arguments(m.args, two) == Ok([x, y]) && Arguments(m.args, one) == Ok([z]);
    TwoLines(x, y);
    OneLine(z);
    SwallowedLine(p, ToSource(Int(i)).value, q, ToSource(Int(j)).value);
  }

  function ArgumentsFrom(spec: ArgSpec, data: Json, rest: Result<seq<Argument>, Problem>)
    : Result<seq<Argument>, Problem>
  {
    if !Given(spec, data) then rest
    else
      match Convert(spec, Raw(spec, data))
      case Err(e) => Err(e)
      case Ok(value) =>
        match rest
        case Err(e) => Err(e)
        case Ok(more) => Ok([Argument(spec.arg, value)] + more)
  }

  lemma ArgumentsStep(args: seq<ArgSpec>, data: Json)
    requires args != []
    ensures Arguments(args, data) == ArgumentsFrom(args[0], data, Arguments(args[1..], data))
  {
  }

  /** The arguments of three fields, one by one. */
  lemma ThreeArguments(args: seq<ArgSpec>, data: Json)
    requires |args| == 3
    ensures (Arguments(args, data)
             == ArgumentsFrom(args[0], data, ArgumentsFrom(args[1], data, ArgumentsFrom(args[2], data, Ok([])))))
  {
    ArgumentsStep(args, data);
    ArgumentsStep(args[1..], data);
    ArgumentsStep(args[2..], data);
    assert args[1..][1..] == args[2..] && args[2..][1..] == [];
  }

  lemma OneLine(a: Argument)
    requires ToSource(a.value).Ok?
    ensures Lines([a]) == Ok(Line(a.name, ToSource(a.value).value)) && |Meant([a])| == 1
  {
    var line := Line(a.name, ToSource(a.value).value);
    assert [a][1..] == [] && Lines([]) == Ok("") && line + "" == line;
    assert Meant([]) == [];
  }

  lemma TwoLines(a: Argument, b: Argument)
    requires ToSource(a.value).Ok? && ToSource(b.value).Ok?
    ensures Lines([a, b]) == Ok(Line(a.name, ToSource(a.value).value) + Line(b.name, ToSource(b.value).value))
    ensures |Meant([a, b])| == 2
  {
    OneLine(b);
    assert [a, b][1..] == [b];
  }

  /** Conversion is faithful: values that convert alike were alike, up to how a number or a
      date is written and which allowed key names a choice. */
  lemma ConversionIsFaithful(spec: ArgSpec, a: Json, b: Json)
    requires Convert(spec, a).Ok? && Convert(spec, b).Ok?
    ensures (Convert(spec, a) == Convert(spec, b) <==>
             (match spec.kind
              case StrArg => a == b
              case BoolArg => a == b
              case StringsArg => a == b
              case IntArg => a.Number? && b.Number? && a.integer == b.integer
              case FloatArg => a.Number? && b.Number? && a.float == b.float
              case DateArg => a.Text? && b.Text? && ParseDate(a.text) == ParseDate(b.text)
              case IdentArg =>
                && a.Text? && b.Text? && a.text in spec.choices && b.text in spec.choices
                && spec.choices[a.text] == spec.choices[b.text]))
  {
    if spec.kind == StringsArg && Convert(spec, a) == Convert(spec, b) {
      SameTexts(a.items, b.items);
    }
  }

  lemma SameTexts(a: seq<Json>, b: seq<Json>)
    requires AllTexts(a) && AllTexts(b) && StrValues(a) == StrValues(b)
    ensures a == b
  {
    assert |StrValues(a)| == |a| && |StrValues(b)| == |b|;
    forall i | 0 <= i < |a| ensures a[i] == b[i] {
      assert StrValues(a)[i] == StrValues(b)[i];
    }
  }
}
