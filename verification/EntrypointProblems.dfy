/** Which problem caller data is refused for when an entrypoint is generated: `convert` and
    `generate_main` of `src/templates.rs`. */
module EntrypointProblems {
  import opened Wrappers
  import opened TypstValues
  import opened TypstDates
  import opened TypstReader
  import opened Entrypoint
  import opened EntrypointMeaning

  /** Three dash-free numbers in range. */
  ghost predicate NamesADate(text: string) {
    exists a: string, b: string, c: string :: text == a + "-" + (b + "-" + c) && DateParts(a, b, c)
  }

  /** What a declared type has against a value. */
  ghost predicate Objects(spec: ArgSpec, raw: Json, c: Complaint) {
    match c
    case NotAString => (spec.kind == StrArg || spec.kind == IdentArg) && !raw.Text?
    case NotAnInteger => spec.kind == IntArg && !(raw.Number? && raw.integer.Some?)
    case NotANumber => spec.kind == FloatArg && !raw.Number?
    case NotABool => spec.kind == BoolArg && !raw.Boolean?
    case NotADate => spec.kind == DateArg && !(raw.Text? && NamesADate(raw.text))
    case NotAnArray => spec.kind == StringsArg && !raw.List?
    case ElementNotAString(i) =>
      && spec.kind == StringsArg && raw.List?
      && i < |raw.items| && !raw.items[i].Text? && forall j :: 0 <= j < i ==> raw.items[j].Text?
    case NotAllowed(key) => spec.kind == IdentArg && raw == Text(key) && key !in spec.choices
  }

  lemma FirstNonTextExactly(items: seq<Json>, i: nat)
    ensures (!AllTexts(items) && FirstNonText(items) == i) <==>
              i < |items| && !items[i].Text? && forall j :: 0 <= j < i ==> items[j].Text?
  {
    var first := FirstNonText(items);
    assert forall j :: 0 <= j < first ==> items[j] == items[..first][j];
    if i < |items| && !items[i].Text? && forall j :: 0 <= j < i ==> items[j].Text? {
      FirstNonTextIs(items, i);
    }
  }

  lemma DateObjects(spec: ArgSpec, raw: Json, p: Problem)
    requires spec.kind == DateArg
    ensures Convert(spec, raw) == Err(p) <==> p.BadArg? && p.field == spec.field && Objects(spec, raw, p.complaint)
  {
    if raw.Text? { ParsedDateIsExact(raw.text, ParseDate(raw.text).UnwrapOr(Nothing)); }
  }

  lemma StringsObject(spec: ArgSpec, raw: Json, p: Problem)
    requires spec.kind == StringsArg
    ensures Convert(spec, raw) == Err(p) <==> p.BadArg? && p.field == spec.field && Objects(spec, raw, p.complaint)
  {
    if raw.List? {
      FirstNonTextExactly(raw.items, FirstNonText(raw.items));
      if p.BadArg? && p.complaint.ElementNotAString? { FirstNonTextExactly(raw.items, p.complaint.index); }
    }
  }

  lemma ObjectsExactly(spec: ArgSpec, raw: Json, p: Problem)
    ensures Convert(spec, raw) == Err(p) <==> p.BadArg? && p.field == spec.field && Objects(spec, raw, p.complaint)
  {
    match spec.kind
    case DateArg => DateObjects(spec, raw, p);
    case StringsArg => StringsObject(spec, raw, p);
    case _ =>
  }

  /** A field that is not given, or that its type has nothing against. */
  ghost predicate IsFine(spec: ArgSpec, data: Json) {
    Given(spec, data) ==> forall c :: !Objects(spec, Raw(spec, data), c)
  }

  lemma FineExactly(spec: ArgSpec, data: Json)
    requires Given(spec, data)
    ensures IsFine(spec, data) <==> Convert(spec, Raw(spec, data)).Ok?
  {
    var outcome := Convert(spec, Raw(spec, data));
    if outcome.Err? { ObjectsExactly(spec, Raw(spec, data), outcome.error); }
    forall c | Objects(spec, Raw(spec, data), c) ensures outcome.Err? {
      ObjectsExactly(spec, Raw(spec, data), BadArg(spec.field, c));
    }
  }

  ghost predicate Refuses(spec: ArgSpec, data: Json, p: Problem) {
    Given(spec, data) && p.BadArg? && p.field == spec.field && Objects(spec, Raw(spec, data), p.complaint)
  }

  /** The first field, in manifest order, that its type objects to; and why. */
  ghost predicate IsBadArgument(args: seq<ArgSpec>, data: Json, p: Problem) {
    exists spec :: IsFirstBad(args, (s: ArgSpec) => IsFine(s, data), spec) && Refuses(spec, data, p)
  }

  lemma BadArgumentStep(args: seq<ArgSpec>, data: Json, p: Problem)
    requires args != []
    ensures IsBadArgument(args, data, p) <==>
              if IsFine(args[0], data) then IsBadArgument(args[1..], data, p) else Refuses(args[0], data, p)
  {
    var fine := (s: ArgSpec) => IsFine(s, data);
    forall spec ensures IsFirstBad(args, fine, spec) <==>
                        if fine(args[0]) then IsFirstBad(args[1..], fine, spec) else spec == args[0]
    {
      FirstBadStep(args, fine, spec);
    }
  }

  lemma {:induction false} ArgumentsFail(args: seq<ArgSpec>, data: Json, p: Problem)
    ensures Arguments(args, data) == Err(p) <==> IsBadArgument(args, data, p)
  {
    if args != [] {
      BadArgumentStep(args, data, p);
      ArgumentsFail(args[1..], data, p);
      if Given(args[0], data) {
        FineExactly(args[0], data);
        ObjectsExactly(args[0], Raw(args[0], data), p);
      }
    }
  }

  /** A choice the template's author maps to a name that is no identifier. */
  ghost predicate Misnames(spec: ArgSpec, data: Json, name: string) {
    && Given(spec, data) && spec.kind == IdentArg && Raw(spec, data).Text? && Raw(spec, data).text in spec.choices
    && name == spec.choices[Raw(spec, data).text] && !IsIdent(name)
  }

  ghost predicate IsBadChoice(args: seq<ArgSpec>, data: Json, p: Problem) {
    exists spec, name ::
      && IsFirstBad(args, (s: ArgSpec) => forall n :: !Misnames(s, data, n), spec)
      && Misnames(spec, data, name) && p == BadValue(BadIdent(name))
  }

  lemma BadChoiceStep(args: seq<ArgSpec>, data: Json, p: Problem)
    requires args != []
    ensures IsBadChoice(args, data, p) <==>
              if forall n :: !Misnames(args[0], data, n) then IsBadChoice(args[1..], data, p)
              else p.BadValue? && p.error.BadIdent? && Misnames(args[0], data, p.error.name)
  {
    var fine := (s: ArgSpec) => forall n :: !Misnames(s, data, n);
    forall spec ensures IsFirstBad(args, fine, spec) <==>
                        if fine(args[0]) then IsFirstBad(args[1..], fine, spec) else spec == args[0]
    {
      FirstBadStep(args, fine, spec);
    }
  }

  /** Of what a conversion yields only an identifier can fail to print. */
  lemma PrintFails(spec: ArgSpec, data: Json, e: ValueError)
    requires Given(spec, data) && Convert(spec, Raw(spec, data)).Ok?
    ensures ToSource(Convert(spec, Raw(spec, data)).value) == Err(e)
       <==> e.BadIdent? && Misnames(spec, data, e.name)
  {
    var raw := Raw(spec, data);
    SuitsExactly(spec, raw);
    var v := Convert(spec, raw).value;
    PrintableExactly(v);
  }

  lemma LinesOfFirst(a: Argument, rest: seq<Argument>, p: Problem)
    ensures Lines([a] + rest) == Err(p) <==>
              if ToSource(a.value).Err? then p == BadValue(ToSource(a.value).error) else Lines(rest) == Err(p)
  {
    assert ([a] + rest)[1..] == rest;
  }

  lemma {:induction false} LinesFail(args: seq<ArgSpec>, data: Json, p: Problem)
    requires Arguments(args, data).Ok?
    ensures Lines(Arguments(args, data).value) == Err(p) <==> IsBadChoice(args, data, p)
  {
    if args != [] {
      BadChoiceStep(args, data, p);
      LinesFail(args[1..], data, p);
      if Given(args[0], data) {
        var v := Convert(args[0], Raw(args[0], data)).value;
        LinesOfFirst(Argument(args[0].arg, v), Arguments(args[1..], data).value, p);
        if ToSource(v).Err? { PrintFails(args[0], data, ToSource(v).error); }
        forall n ensures ToSource(v) == Err(BadIdent(n)) <==> Misnames(args[0], data, n) {
          PrintFails(args[0], data, BadIdent(n));
        }
      }
    }
  }

  /** The first field in manifest order that its declared type objects to, and why; when there
      is none, the first choice that is no identifier. */
  ghost predicate IsDataProblem(args: seq<ArgSpec>, data: Json, p: Problem) {
    if forall spec :: spec in args ==> IsFine(spec, data) then IsBadChoice(args, data, p)
    else IsBadArgument(args, data, p)
  }

  /** No source is generated exactly for the first problem of the data. */
  lemma DataProblemExactly(m: Manifest, data: Json, p: Problem)
    ensures Generated(m, data) == Err(p) <==> IsDataProblem(m.args, data, p)
  {
    ArgumentsFail(m.args, data, p);
    AllFineExactly(m.args, data);
    if Arguments(m.args, data).Ok? { LinesFail(m.args, data, p); }
  }

  lemma {:induction false} AllFineExactly(args: seq<ArgSpec>, data: Json)
    ensures Arguments(args, data).Ok? <==> forall spec :: spec in args ==> IsFine(spec, data)
  {
    if args != [] {
      assert args == [args[0]] + args[1..];
      AllFineExactly(args[1..], data);
      if Given(args[0], data) { FineExactly(args[0], data); }
    }
  }
}
