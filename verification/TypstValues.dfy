/** Caller data as Typst literals: the printer of `src/typst_value.rs`.

    The functions say what is printed; the methods append it to a buffer in loops, the
    way the source does, and are proved to print exactly that. */
module TypstValues {
  import opened Wrappers
  import opened Numerals

  /** Floats are carried as the text Rust prints for them. */
  datatype TypstValue =
    | Nothing
    | Bool(b: bool)
    | Int(i: int)
    | Float(text: string, finite: bool)
    | Str(s: string)
    | Ident(name: string)
    | Array(items: seq<TypstValue>)
    | Dict(fields: seq<Field>)
    | Date(year: int, month: int, day: int)

  datatype Field = Field(key: string, value: TypstValue)

  datatype ValueError =
    | NonFinite(text: string)
    | BadIdent(name: string)
    | BadKey(key: string)
    | BadDate(year: int, month: int, day: int)

  type Source = Result<string, ValueError>

  predicate IsNumberChar(c: char) {
    '0' <= c <= '9' || c in {'-', '+', '.', 'e'}
  }

  predicate IsNumberStart(c: char) {
    '0' <= c <= '9' || c == '-'
  }

  /** The text Rust prints for a finite float: a number with a point or an exponent. */
  predicate IsFloatText(text: string) {
    && text != "" && IsNumberStart(text[0])
    && (forall c :: c in text ==> IsNumberChar(c))
    && ('.' in text || 'e' in text)
  }

  predicate IsLetter(c: char) {
    'a' <= c <= 'z' || 'A' <= c <= 'Z'
  }

  predicate IsIdentChar(c: char) {
    IsLetter(c) || '0' <= c <= '9' || c == '_' || c == '-'
  }

  predicate IsIdentStart(c: char) {
    IsLetter(c) || c == '_'
  }

  predicate IsIdent(name: string) {
    name != "" && IsIdentStart(name[0]) && forall c :: c in name ==> IsIdentChar(c)
  }

  /** `char::is_control`: the C0 and C1 controls and DEL. */
  predicate IsControl(c: char) {
    c < ' ' || '\U{7F}' <= c <= '\U{9F}'
  }

  function EscapedChar(c: char): string {
    if c == '"' then "\\\""
    else if c == '\\' then "\\\\"
    else if c == '\n' then "\\n"
    else if c == '\r' then "\\r"
    else if c == '\t' then "\\t"
    else if IsControl(c) || c in {'\U{2028}', '\U{2029}', '\U{FEFF}'} then "\\u{" + Numeral(c as nat, 16) + "}"
    else [c]
  }

  function Escaped(s: string): string {
    if s == "" then "" else EscapedChar(s[0]) + Escaped(s[1..])
  }

  function StringLiteral(s: string): string {
    "\"" + Escaped(s) + "\""
  }

  predicate InDateRange(month: int, day: int) {
    1 <= month <= 12 && 1 <= day <= 31
  }

  function DateLiteral(year: int, month: int, day: int): string {
    "datetime(year: " + IntText(year) + ", month: " + IntText(month) + ", day: " + IntText(day) + ")"
  }

  /** `to_source`. */
  function ToSource(v: TypstValue): Source
    decreases v, 1
  {
    match v
    case Nothing => Ok("none")
    case Bool(b) => Ok(if b then "true" else "false")
    case Int(i) => Ok(IntText(i))
    case Float(text, finite) => if finite then Ok(text) else Err(NonFinite(text))
    case Str(s) => Ok(StringLiteral(s))
    case Ident(name) => if IsIdent(name) then Ok(name) else Err(BadIdent(name))
    case Array(items) =>
      (match ItemsSource(items)
       case Err(e) => Err(e)
       case Ok(text) => Ok("(" + text + ")"))
    case Dict(fields) =>
      if fields == [] then Ok("(:)")
      else
        (match FieldsSource(fields)
         case Err(e) => Err(e)
         case Ok(text) => Ok("(" + text + ")"))
    case Date(year, month, day) =>
      if InDateRange(month, day) then Ok(DateLiteral(year, month, day)) else Err(BadDate(year, month, day))
  }

  /** The source of a sequence: the first error wins. */
  function Then(a: Source, b: Source): Source {
    match a
    case Err(e) => a
    case Ok(x) =>
      match b
      case Err(e) => b
      case Ok(y) => Ok(x + y)
  }

  /** Every item is followed by a comma, also the last: `(x)` would not be an array. */
  function ItemsSource(items: seq<TypstValue>): Source
    decreases items, 0
  {
    if items == [] then Ok("")
    else Then(Then(ToSource(items[0]), Ok(", ")), ItemsSource(items[1..]))
  }

  function FieldsSource(fields: seq<Field>): Source
    decreases fields, 0
  {
    if fields == [] then Ok("")
    else if !IsIdent(fields[0].key) then Err(BadKey(fields[0].key))
    else Then(Then(Ok(fields[0].key + ": "), Then(ToSource(fields[0].value), Ok(", "))), FieldsSource(fields[1..]))
  }

  // ---- The printer's loops ----

  lemma {:induction false} EscapedAppend(s: string, c: char)
    ensures Escaped(s + [c]) == Escaped(s) + EscapedChar(c)
  {
    if s == "" {
      assert s + [c] == [c];
    } else {
      assert (s + [c])[1..] == s[1..] + [c];
      EscapedAppend(s[1..], c);
    }
  }

  lemma ConcatAssociates(a: string, b: string, c: string)
    ensures (a + b) + c == a + (b + c)
  {
  }

  function OpenLiteral(s: string): string {
    "\"" + Escaped(s)
  }

  lemma OpenLiteralStep(value: string, i: nat)
    requires i < |value|
    ensures OpenLiteral(value[..i + 1]) == OpenLiteral(value[..i]) + EscapedChar(value[i])
  {
    assert value[..i + 1] == value[..i] + [value[i]];
    EscapedAppend(value[..i], value[i]);
    ConcatAssociates("\"", Escaped(value[..i]), EscapedChar(value[i]));
  }

  method WriteString(value: string, out: string) returns (after: string)
    ensures after == out + StringLiteral(value)
  {
    after := out + "\"";
    for i := 0 to |value|
      invariant after == out + OpenLiteral(value[..i])
    {
      OpenLiteralStep(value, i);
      ConcatAssociates(out, OpenLiteral(value[..i]), EscapedChar(value[i]));
      after := after + EscapedChar(value[i]);
    }
    assert value[..|value|] == value;
    ConcatAssociates(out, OpenLiteral(value), "\"");
    after := after + "\"";
  }

  function ItemSource(v: TypstValue): Source {
    Then(ToSource(v), Ok(", "))
  }

  function FieldSource(f: Field): Source {
    if !IsIdent(f.key) then Err(BadKey(f.key)) else Then(Ok(f.key + ": "), ItemSource(f.value))
  }

  lemma ThenAssociates(a: Source, b: Source, c: Source)
    ensures Then(Then(a, b), c) == Then(a, Then(b, c))
    ensures Then(a, Ok("")) == a && Then(Ok(""), a) == a
  {
    if a.Ok? && b.Ok? && c.Ok? { assert (a.value + b.value) + c.value == a.value + (b.value + c.value); }
    if a.Ok? { assert a.value + "" == a.value && "" + a.value == a.value; }
  }

  lemma {:induction false} ItemsAppend(items: seq<TypstValue>, v: TypstValue)
    ensures ItemsSource(items + [v]) == Then(ItemsSource(items), ItemSource(v))
  {
    if items == [] {
      assert items + [v] == [v];
      ThenAssociates(ItemSource(v), Ok(""), Ok(""));
    } else {
      assert (items + [v])[1..] == items[1..] + [v];
      ItemsAppend(items[1..], v);
      ThenAssociates(ItemSource(items[0]), ItemsSource(items[1..]), ItemSource(v));
    }
  }

  lemma {:induction false} FieldsAppend(fields: seq<Field>, f: Field)
    ensures FieldsSource(fields + [f]) == Then(FieldsSource(fields), FieldSource(f))
  {
    if fields == [] {
      assert fields + [f] == [f];
      ThenAssociates(FieldSource(f), Ok(""), Ok(""));
    } else {
      assert (fields + [f])[1..] == fields[1..] + [f];
      FieldsAppend(fields[1..], f);
      ThenAssociates(FieldSource(fields[0]), FieldsSource(fields[1..]), FieldSource(f));
    }
  }

  lemma {:induction false} ItemsErrorStays(items: seq<TypstValue>, i: nat)
    requires i <= |items| && ItemsSource(items[..i]).Err?
    ensures ItemsSource(items) == ItemsSource(items[..i])
    decreases |items| - i
  {
    if i == |items| {
      assert items[..i] == items;
    } else {
      assert items[..i + 1] == items[..i] + [items[i]];
      ItemsAppend(items[..i], items[i]);
      ItemsErrorStays(items, i + 1);
    }
  }

  lemma {:induction false} FieldsErrorStays(fields: seq<Field>, i: nat)
    requires i <= |fields| && FieldsSource(fields[..i]).Err?
    ensures FieldsSource(fields) == FieldsSource(fields[..i])
    decreases |fields| - i
  {
    if i == |fields| {
      assert fields[..i] == fields;
    } else {
      assert fields[..i + 1] == fields[..i] + [fields[i]];
      FieldsAppend(fields[..i], fields[i]);
      FieldsErrorStays(fields, i + 1);
    }
  }

  /** `write`: appends the literal, or reports the first value that has none. */
  method Write(v: TypstValue, out: string) returns (result: Result<(), ValueError>, after: string)
    ensures match ToSource(v)
            case Ok(text) => result == Ok(()) && after == out + text
            case Err(e) => result == Err(e)
    decreases v, 1
  {
    result, after := Ok(()), out;
    match v {
      case Nothing => after := out + "none";
      case Bool(b) => after := out + if b then "true" else "false";
      case Int(i) => after := out + IntText(i);
      case Float(text, finite) =>
        if !finite {
          return Err(NonFinite(text)), out;
        }
        after := out + text;
      case Str(s) => after := WriteString(s, out);
      case Ident(name) =>
        if !IsIdent(name) {
          return Err(BadIdent(name)), out;
        }
        after := out + name;
      case Array(items) => result, after := WriteItems(items, out);
      case Dict(fields) =>
        if fields == [] {
          return Ok(()), out + "(:)";
        }
        result, after := WriteFields(fields, out);
      case Date(year, month, day) =>
        if !InDateRange(month, day) {
          return Err(BadDate(year, month, day)), out;
        }
        after := out + DateLiteral(year, month, day);
    }
  }

  /** The array loop: every item is followed by a comma, also the last. */
  method WriteItems(items: seq<TypstValue>, out: string) returns (result: Result<(), ValueError>, after: string)
    ensures match ItemsSource(items)
            case Ok(text) => result == Ok(()) && after == out + ("(" + text + ")")
            case Err(e) => result == Err(e)
    decreases items, 0
  {
    ghost var open := out + "(";
    result, after := Ok(()), out + "(";
    for i := 0 to |items|
      invariant ItemsSource(items[..i]).Ok? && after == open + ItemsSource(items[..i]).value
    {
      ItemsAppend(items[..i], items[i]);
      assert items[..i + 1] == items[..i] + [items[i]];
      result, after := WriteItem(items[i], after);
      if result.Err? {
        ItemsErrorStays(items, i + 1);
        return;
      }
      ConcatAssociates(open, ItemsSource(items[..i]).value, ItemSource(items[i]).value);
    }
    assert items[..|items|] == items;
    CloseParenthesis(out, ItemsSource(items).value);
    result, after := Ok(()), after + ")";
  }

  lemma CloseParenthesis(out: string, text: string)
    ensures (out + "(" + text) + ")" == out + ("(" + text + ")")
  {
  }

  method WriteItem(v: TypstValue, out: string) returns (result: Result<(), ValueError>, after: string)
    ensures match ItemSource(v)
            case Ok(text) => result == Ok(()) && after == out + text
            case Err(e) => result == Err(e)
    decreases v, 2
  {
    result, after := Write(v, out);
    if result.Ok? {
      ConcatAssociates(out, ToSource(v).value, ", ");
      after := after + ", ";
    }
  }

  method WriteField(f: Field, out: string) returns (result: Result<(), ValueError>, after: string)
    ensures match FieldSource(f)
            case Ok(text) => result == Ok(()) && after == out + text
            case Err(e) => result == Err(e)
    decreases f, 0
  {
    if !IsIdent(f.key) {
      return Err(BadKey(f.key)), out;
    }
    result, after := WriteItem(f.value, out + (f.key + ": "));
    if result.Ok? {
      ConcatAssociates(out, f.key + ": ", ItemSource(f.value).value);
    }
  }

  method WriteFields(fields: seq<Field>, out: string) returns (result: Result<(), ValueError>, after: string)
    ensures match FieldsSource(fields)
            case Ok(text) => result == Ok(()) && after == out + ("(" + text + ")")
            case Err(e) => result == Err(e)
    decreases fields, 0
  {
    ghost var open := out + "(";
    result, after := Ok(()), out + "(";
    for i := 0 to |fields|
      invariant FieldsSource(fields[..i]).Ok? && after == open + FieldsSource(fields[..i]).value
    {
      FieldsAppend(fields[..i], fields[i]);
      assert fields[..i + 1] == fields[..i] + [fields[i]];
      result, after := WriteField(fields[i], after);
      if result.Err? {
        FieldsErrorStays(fields, i + 1);
        return;
      }
      ConcatAssociates(open, FieldsSource(fields[..i]).value, FieldSource(fields[i]).value);
    }
    assert fields[..|fields|] == fields;
    CloseParenthesis(out, FieldsSource(fields).value);
    result, after := Ok(()), after + ")";
  }
}
