/** A reader for the literal grammar, and the proof that it undoes the printer. */
module TypstReader {
  import opened Wrappers
  import opened Numerals
  import opened TypstValues

  predicate IsHexDigit(c: char) {
    IsDigit(c, 16)
  }

  datatype Class = IdentClass | NumberClass | HexClass

  predicate InClass(c: char, k: Class) {
    match k
    case IdentClass => IsIdentChar(c)
    case NumberClass => IsNumberChar(c)
    case HexClass => IsHexDigit(c)
  }

  /** Length of the longest prefix made of one class of characters. */
  function Span(s: string, k: Class): (n: nat)
    ensures n <= |s|
  {
    if s == "" || !InClass(s[0], k) then 0 else 1 + Span(s[1..], k)
  }

  type Parsed<T> = Option<(T, string)>

  predicate Begins(s: string, prefix: string) {
    prefix <= s
  }

  /** The characters after an opening quote, up to and including the closing one. */
  function ReadString(s: string): (r: Parsed<string>)
    ensures r.Some? ==> |r.value.1| < |s|
    decreases |s|
  {
    if s == "" then None
    else if s[0] == '"' then Some(("", s[1..]))
    else if s[0] != '\\' then Prepend(s[0], ReadString(s[1..]))
    else if |s| < 2 then None
    else if s[1] in {'"', '\\'} then Prepend(s[1], ReadString(s[2..]))
    else if s[1] == 'n' then Prepend('\n', ReadString(s[2..]))
    else if s[1] == 'r' then Prepend('\r', ReadString(s[2..]))
    else if s[1] == 't' then Prepend('\t', ReadString(s[2..]))
    else if Begins(s, "\\u{") then
      var n := Span(s[3..], HexClass);
      var code := Value(s[3..3 + n], 16);
      if n == 0 || |s| <= 3 + n || s[3 + n] != '}' || !IsScalar(code) then None
      else Prepend(code as char, ReadString(s[4 + n..]))
    else None
  }

  predicate IsScalar(code: nat) {
    code < 0xD800 || 0xE000 <= code < 0x11_0000
  }

  function Prepend(c: char, r: Parsed<string>): Parsed<string> {
    match r
    case None => None
    case Some((text, rest)) => Some(([c] + text, rest))
  }

  function ReadInt(token: string): Option<int> {
    var digits := if Begins(token, "-") then token[1..] else token;
    if digits == "" || !(forall c | c in digits :: IsDigit(c, 10)) then None
    else
      var size: int := Value(digits, 10);
      Some(if Begins(token, "-") then -size else size)
  }

  function ReadNumber(s: string): (r: Parsed<TypstValue>)
    requires s != "" && IsNumberStart(s[0])
    ensures r.Some? ==> |r.value.1| < |s|
  {
    var n := Span(s, NumberClass);
    var token := s[..n];
    if '.' in token || 'e' in token then Some((Float(token, true), s[n..]))
    else
      match ReadInt(token)
      case None => None
      case Some(i) => Some((Int(i), s[n..]))
  }

  /** A signed integer and the text expected after it. */
  function ReadIntThen(s: string, after: string): (r: Parsed<int>)
    ensures r.Some? ==> |r.value.1| <= |s|
  {
    var n := Span(s, NumberClass);
    match ReadInt(s[..n])
    case None => None
    case Some(i) => if Begins(s[n..], after) then Some((i, s[n + |after|..])) else None
  }

  /** The arguments of a date constructor. */
  function ReadDate(s: string): (r: Parsed<TypstValue>)
    ensures r.Some? ==> |r.value.1| <= |s|
  {
    match ReadIntThen(s, ", month: ")
    case None => None
    case Some((year, s1)) =>
      match ReadIntThen(s1, ", day: ")
      case None => None
      case Some((month, s2)) =>
        match ReadIntThen(s2, ")")
        case None => None
        case Some((day, s3)) => Some((Date(year, month, day), s3))
  }

  function Word(name: string): TypstValue {
    if name == "none" then Nothing
    else if name == "true" then Bool(true)
    else if name == "false" then Bool(false)
    else Ident(name)
  }

  const DATE_OPEN := "(year: "

  /** Whether a parenthesis opens a dictionary: an identifier, a colon and a space. */
  predicate OpensDict(s: string) {
    s != "" && IsIdentStart(s[0]) && Begins(s[Span(s, IdentClass)..], ": ")
  }

  /** One literal from the front of `s`. */
  function Read(s: string): (r: Parsed<TypstValue>)
    ensures r.Some? ==> |r.value.1| < |s|
    decreases |s|, 1
  {
    if s == "" then None
    else if s[0] == '"' then
      (match ReadString(s[1..])
       case None => None
       case Some((text, rest)) => Some((Str(text), rest)))
    else if s[0] == '(' then
      if Begins(s, "(:)") then Some((Dict([]), s[3..]))
      else if OpensDict(s[1..]) then
        (match ReadFields(s[1..])
         case None => None
         case Some((fields, rest)) => Some((Dict(fields), rest)))
      else
        (match ReadItems(s[1..])
         case None => None
         case Some((items, rest)) => Some((Array(items), rest)))
    else if IsNumberStart(s[0]) then ReadNumber(s)
    else if IsIdentStart(s[0]) then
      var n := Span(s, IdentClass);
      if s[..n] == "datetime" && Begins(s[n..], DATE_OPEN) then ReadDate(s[n + |DATE_OPEN|..])
      else Some((Word(s[..n]), s[n..]))
    else None
  }

  function ReadItems(s: string): (r: Parsed<seq<TypstValue>>)
    ensures r.Some? ==> |r.value.1| < |s|
    decreases |s|, 2
  {
    if Begins(s, ")") then Some(([], s[1..]))
    else
      match Read(s)
      case None => None
      case Some((item, rest)) =>
        if !Begins(rest, ", ") then None
        else
          match ReadItems(rest[2..])
          case None => None
          case Some((items, end)) => Some(([item] + items, end))
  }

  function ReadFields(s: string): (r: Parsed<seq<Field>>)
    ensures r.Some? ==> |r.value.1| < |s|
    decreases |s|, 2
  {
    if Begins(s, ")") then Some(([], s[1..]))
    else if !OpensDict(s) then None
    else
      var n := Span(s, IdentClass);
      match Read(s[n + 2..])
      case None => None
      case Some((value, rest)) =>
        if !Begins(rest, ", ") then None
        else
          match ReadFields(rest[2..])
          case None => None
          case Some((fields, end)) => Some(([Field(s[..n], value)] + fields, end))
  }

  // ---- Tokens ----

  /** Where a number or a word ends. */
  predicate Delimited(rest: string) {
    rest == "" || !(IsIdentChar(rest[0]) || IsNumberChar(rest[0]) || rest[0] == '(')
  }

  lemma {:induction false} SpanExact(a: string, rest: string, k: Class)
    requires forall c :: c in a ==> InClass(c, k)
    requires rest == "" || !InClass(rest[0], k)
    ensures Span(a + rest, k) == |a|
    ensures (a + rest)[..|a|] == a && (a + rest)[|a|..] == rest
  {
    if a == "" {
      assert a + rest == rest;
    } else {
      assert a[0] in a && (a + rest)[1..] == a[1..] + rest;
      SpanExact(a[1..], rest, k);
    }
  }

  lemma IntTextIsNumber(i: int)
    ensures forall c :: c in IntText(i) ==> IsNumberChar(c) && c != '.' && c != 'e'
    ensures IsNumberStart(IntText(i)[0])
    ensures ReadInt(IntText(i)) == Some(i)
  {
    var n: nat := if i < 0 then -i else i;
    var digits := Decimal(n);
    ValueOfNumeral(n, 10);
    assert AllDigits(digits, 10);
    forall c | c in digits ensures '0' <= c <= '9' {
      assert IsDigit(c, 10);
    }
    assert digits[0] in digits;
    if i < 0 {
      assert IntText(i)[1..] == digits;
      forall c | c in IntText(i) ensures c == '-' || c in digits {
        assert IntText(i) == ['-'] + digits;
      }
    } else {
      assert IntText(i)[0] in digits;
    }
  }

  lemma ReadIntThenExact(i: int, after: string, rest: string)
    requires after != "" && !IsNumberChar(after[0])
    ensures ReadIntThen(IntText(i) + after + rest, after) == Some((i, rest))
  {
    IntTextIsNumber(i);
    assert IntText(i) + after + rest == IntText(i) + (after + rest);
    SpanExact(IntText(i), after + rest, NumberClass);
    var s := IntText(i) + after + rest;
    assert s[|IntText(i)| + |after|..] == rest;
    assert Begins(after + rest, after);
  }

  function DateTail(year: int, month: int, day: int, rest: string): string {
    IntText(year) + ", month: " + DayTail(month, day, rest)
  }

  function DayTail(month: int, day: int, rest: string): string {
    IntText(month) + ", day: " + LastTail(day, rest)
  }

  function LastTail(day: int, rest: string): string {
    IntText(day) + ")" + rest
  }

  lemma ReadDateTail(year: int, month: int, day: int, rest: string)
    ensures ReadDate(DateTail(year, month, day, rest)) == Some((Date(year, month, day), rest))
  {
    ReadIntThenExact(year, ", month: ", DayTail(month, day, rest));
    ReadIntThenExact(month, ", day: ", LastTail(day, rest));
    ReadIntThenExact(day, ")", rest);
  }

  lemma DateLiteralSplits(year: int, month: int, day: int, rest: string)
    ensures DateLiteral(year, month, day) + rest == "datetime" + (DATE_OPEN + DateTail(year, month, day, rest))
  {
    var y, m, d := IntText(year), IntText(month), IntText(day);
    assert "datetime(year: " == "datetime" + DATE_OPEN;
    DateTextSplits("datetime", DATE_OPEN, y, m, d, rest);
  }

  lemma DateTextSplits(word: string, open: string, y: string, m: string, d: string, rest: string)
    ensures ((word + open) + y + ", month: " + m + ", day: " + d + ")") + rest
         == word + (open + (y + ", month: " + (m + ", day: " + (d + ")" + rest))))
  {
    assert ((word + open) + y + ", month: " + m + ", day: " + d + ")") + rest
        == (word + open) + (y + ", month: " + (m + ", day: " + (d + ")" + rest)));
  }

  lemma ReadDateOpened(tail: string)
    ensures Read("datetime" + (DATE_OPEN + tail)) == ReadDate(tail)
  {
    var s := "datetime" + (DATE_OPEN + tail);
    SpanExact("datetime", DATE_OPEN + tail, IdentClass);
    assert s[0] == 'd';
    assert s[8 + |DATE_OPEN|..] == tail;
  }

  lemma ReadDateExact(year: int, month: int, day: int, rest: string)
    ensures Read(DateLiteral(year, month, day) + rest) == Some((Date(year, month, day), rest))
  {
    DateLiteralSplits(year, month, day, rest);
    ReadDateTail(year, month, day, rest);
    ReadDateOpened(DateTail(year, month, day, rest));
  }

  lemma ReadNumberExact(text: string, rest: string)
    requires text != "" && IsNumberStart(text[0]) && (forall c :: c in text ==> IsNumberChar(c)) && Delimited(rest)
    ensures Read(text + rest) == if '.' in text || 'e' in text then Some((Float(text, true), rest))
                                 else match ReadInt(text) case None => None case Some(i) => Some((Int(i), rest))
  {
    SpanExact(text, rest, NumberClass);
  }

  lemma ReadWordExact(name: string, rest: string)
    requires IsIdent(name) && Delimited(rest)
    ensures Read(name + rest) == Some((Word(name), rest))
  {
    SpanExact(name, rest, IdentClass);
    assert (name + rest)[0] == name[0];
  }

  // ---- Strings ----

  lemma ReadEscapedHex(c: char, more: string)
    ensures ReadString("\\u{" + Numeral(c as nat, 16) + "}" + more) == Prepend(c, ReadString(more))
  {
    var hex := Numeral(c as nat, 16);
    ValueOfNumeral(c as nat, 16);
    ReadHexEscape(hex, c, more);
    assert "\\u{" + hex + "}" + more == "\\u{" + (hex + ("}" + more));
  }

  lemma ReadHexEscape(hex: string, c: char, more: string)
    requires hex != "" && AllDigits(hex, 16) && Value(hex, 16) == c as nat
    ensures ReadString("\\u{" + (hex + ("}" + more))) == Prepend(c, ReadString(more))
  {
    var tail := hex + ("}" + more);
    var s := "\\u{" + tail;
    SpanExact(hex, "}" + more, HexClass);
    assert s[3..] == tail && Begins(s, "\\u{");
    assert s[3..3 + |hex|] == tail[..|hex|];
    assert s[3 + |hex|] == '}' && s[4 + |hex|..] == ("}" + more)[1..];
    assert ("}" + more)[1..] == more;
    assert IsScalar(c as nat);
  }

  lemma ReadEscapedChar(c: char, more: string)
    ensures ReadString(EscapedChar(c) + more) == Prepend(c, ReadString(more))
  {
    var s := EscapedChar(c) + more;
    if c in {'"', '\\', '\n', '\r', '\t'} {
      assert s[2..] == more;
    } else if IsControl(c) || c in {'\U{2028}', '\U{2029}', '\U{FEFF}'} {
      ReadEscapedHex(c, more);
    } else {
      assert s[1..] == more;
    }
  }

  /** A string literal is read back whatever follows its closing quote. */
  lemma {:induction false} ReadEscaped(text: string, rest: string)
    ensures ReadString(Escaped(text) + "\"" + rest) == Some((text, rest))
  {
    var tail := "\"" + rest;
    if text == "" {
      assert Escaped(text) + "\"" + rest == tail && tail[1..] == rest;
    } else {
      var more := Escaped(text[1..]) + "\"" + rest;
      assert Escaped(text) + "\"" + rest == EscapedChar(text[0]) + more;
      ReadEscapedChar(text[0], more);
      ReadEscaped(text[1..], rest);
      assert [text[0]] + text[1..] == text;
    }
  }

  lemma ReadStringLiteral(text: string, rest: string)
    ensures Read(StringLiteral(text) + rest) == Some((Str(text), rest))
  {
    ReadEscaped(text, rest);
    assert (StringLiteral(text) + rest)[1..] == Escaped(text) + "\"" + rest;
  }

  // ---- Values ----

  /** What a printed value means to a reader: an identifier spelled like one of the three
      reserved words is that word. */
  function Canonical(v: TypstValue): TypstValue
    decreases v, 1
  {
    match v
    case Ident(name) => Word(name)
    case Array(items) => Array(CanonicalItems(items))
    case Dict(fields) => Dict(CanonicalFields(fields))
    case _ => v
  }

  function CanonicalItems(items: seq<TypstValue>): seq<TypstValue>
    decreases items, 0
  {
    if items == [] then [] else [Canonical(items[0])] + CanonicalItems(items[1..])
  }

  function CanonicalFields(fields: seq<Field>): seq<Field>
    decreases fields, 0
  {
    if fields == [] then []
    else [Field(fields[0].key, Canonical(fields[0].value))] + CanonicalFields(fields[1..])
  }

  /** The floats of a value are printed the way Rust prints finite ones. */
  ghost predicate FloatsPrinted(v: TypstValue)
    decreases v
  {
    match v
    case Float(text, finite) => finite ==> IsFloatText(text)
    case Array(items) => forall x :: x in items ==> FloatsPrinted(x)
    case Dict(fields) => forall f :: f in fields ==> FloatsPrinted(f.value)
    case _ => true
  }

  /** Literals without a closing character of their own. */
  predicate IsOpen(v: TypstValue) {
    v.Nothing? || v.Bool? || v.Int? || v.Float? || v.Ident?
  }

  predicate StartsLiteral(c: char) {
    IsIdentStart(c) || IsNumberStart(c) || c == '"' || c == '('
  }

  lemma LiteralStart(v: TypstValue)
    requires ToSource(v).Ok? && FloatsPrinted(v)
    ensures ToSource(v).value != "" && StartsLiteral(ToSource(v).value[0])
  {
    if v.Int? { IntTextIsNumber(v.i); }
  }

  /** A word opens a dictionary only when a colon and a space follow it. */
  lemma WordOpensNoDict(name: string, more: string)
    requires IsIdent(name) && more != "" && !IsIdentChar(more[0]) && more[0] != ':'
    ensures !OpensDict(name + more)
  {
    SpanExact(name, more, IdentClass);
  }

  /** No array item looks like a dictionary field. */
  lemma ItemOpensNoDict(v: TypstValue, more: string)
    requires ToSource(v).Ok? && FloatsPrinted(v)
    ensures !OpensDict(ToSource(v).value + (", " + more))
  {
    var text := ToSource(v).value;
    LiteralStart(v);
    match v
    case Nothing => WordOpensNoDict("none", ", " + more);
    case Bool(b) => WordOpensNoDict(text, ", " + more);
    case Ident(name) => WordOpensNoDict(name, ", " + more);
    case Date(year, month, day) =>
      DateLiteralSplits(year, month, day, ", " + more);
      WordOpensNoDict("datetime", DATE_OPEN + DateTail(year, month, day, ", " + more));
    case Int(i) => IntTextIsNumber(i);
    case _ =>
  }

  lemma ReadBack(v: TypstValue, rest: string)
    requires ToSource(v).Ok? && FloatsPrinted(v) && (IsOpen(v) ==> Delimited(rest))
    ensures Read(ToSource(v).value + rest) == Some((Canonical(v), rest))
    decreases v, 1
  {
    match v
    case Nothing => ReadWordExact("none", rest);
    case Bool(b) => ReadWordExact(if b then "true" else "false", rest);
    case Int(i) => IntTextIsNumber(i); ReadNumberExact(IntText(i), rest);
    case Float(text, finite) => ReadNumberExact(text, rest);
    case Str(text) => ReadStringLiteral(text, rest);
    case Ident(name) => ReadWordExact(name, rest);
    case Array(items) => ReadBackArray(items, rest);
    case Dict(fields) => ReadBackDict(fields, rest);
    case Date(year, month, day) => ReadDateExact(year, month, day, rest);
  }

  lemma ReadBackArray(items: seq<TypstValue>, rest: string)
    requires ItemsSource(items).Ok? && forall x :: x in items ==> FloatsPrinted(x)
    ensures Read("(" + ItemsSource(items).value + ")" + rest) == Some((Array(CanonicalItems(items)), rest))
    decreases items, 1
  {
    var inner := ItemsSource(items).value + ")" + rest;
    var s := "(" + ItemsSource(items).value + ")" + rest;
    assert s[1..] == inner;
    ReadBackItems(items, rest);
    if items == [] {
      assert inner[0] == ')';
    } else {
      LiteralStart(items[0]);
      assert inner[0] == ToSource(items[0]).value[0];
    }
    assert !Begins(s, "(:)") by { assert s[1] == inner[0] && inner[0] != ':'; }
  }

  lemma ReadBackItems(items: seq<TypstValue>, rest: string)
    requires ItemsSource(items).Ok? && forall x :: x in items ==> FloatsPrinted(x)
    ensures ReadItems(ItemsSource(items).value + ")" + rest) == Some((CanonicalItems(items), rest))
    ensures !OpensDict(ItemsSource(items).value + ")" + rest)
    decreases items, 0
  {
    var s := ItemsSource(items).value + ")" + rest;
    if items == [] {
      assert s[1..] == rest;
    } else {
      var first, others := ToSource(items[0]).value, ItemsSource(items[1..]).value;
      var more := others + ")" + rest;
      assert s == first + (", " + more);
      ReadBack(items[0], ", " + more);
      ItemOpensNoDict(items[0], more);
      LiteralStart(items[0]);
      assert s[0] == first[0] && !Begins(s, ")");
      assert (", " + more)[2..] == more;
      ReadBackItems(items[1..], rest);
    }
  }

  lemma ReadBackDict(fields: seq<Field>, rest: string)
    requires ToSource(Dict(fields)).Ok? && forall f :: f in fields ==> FloatsPrinted(f.value)
    ensures Read(ToSource(Dict(fields)).value + rest) == Some((Dict(CanonicalFields(fields)), rest))
    decreases fields, 1
  {
    var s := ToSource(Dict(fields)).value + rest;
    if fields == [] {
      assert s[3..] == rest;
    } else {
      var inner := FieldsSource(fields).value + ")" + rest;
      assert s[1..] == inner;
      ReadBackFields(fields, rest);
      assert !Begins(s, "(:)") by { assert s[1] == inner[0] && IsIdentStart(inner[0]); }
    }
  }

  lemma FieldOpensDict(key: string, more: string)
    requires IsIdent(key)
    ensures OpensDict(key + ": " + more) && Span(key + ": " + more, IdentClass) == |key|
    ensures (key + ": " + more)[..|key|] == key && (key + ": " + more)[|key| + 2..] == more
  {
    var s := key + ": " + more;
    assert s == key + (": " + more) && s[0] == key[0];
    SpanExact(key, ": " + more, IdentClass);
  }

  lemma FieldsSplit(fields: seq<Field>, rest: string)
    requires fields != [] && FieldsSource(fields).Ok?
    ensures (FieldsSource(fields).value + ")" + rest
             == fields[0].key + ": "
                + (ToSource(fields[0].value).value + (", " + (FieldsSource(fields[1..]).value + ")" + rest))))
  {
    var key, value, more := fields[0].key, ToSource(fields[0].value).value, FieldsSource(fields[1..]).value;
    FirstField(fields);
    FieldTextSplits(key, value, more, ")", rest);
  }

  lemma FirstField(fields: seq<Field>)
    requires fields != [] && FieldsSource(fields).Ok?
    ensures IsIdent(fields[0].key) && ToSource(fields[0].value).Ok? && FieldsSource(fields[1..]).Ok?
    ensures (FieldsSource(fields).value
             == (fields[0].key + ": " + (ToSource(fields[0].value).value + ", ")) + FieldsSource(fields[1..]).value)
  {
  }

  lemma FieldTextSplits(key: string, value: string, more: string, close: string, rest: string)
    ensures ((key + ": " + (value + ", ")) + more) + close + rest
         == key + ": " + (value + (", " + (more + close + rest)))
  {
    assert (value + ", ") + (more + close + rest) == value + (", " + (more + close + rest));
  }

  lemma ReadBackFields(fields: seq<Field>, rest: string)
    requires FieldsSource(fields).Ok? && forall f :: f in fields ==> FloatsPrinted(f.value)
    ensures ReadFields(FieldsSource(fields).value + ")" + rest) == Some((CanonicalFields(fields), rest))
    ensures fields != [] ==> OpensDict(FieldsSource(fields).value + ")" + rest)
    decreases fields, 0
  {
    var s := FieldsSource(fields).value + ")" + rest;
    if fields == [] {
      assert s[1..] == rest;
    } else {
      var key, value := fields[0].key, ToSource(fields[0].value).value;
      var more := FieldsSource(fields[1..]).value + ")" + rest;
      FieldsSplit(fields, rest);
      FieldOpensDict(key, value + (", " + more));
      assert fields[0] in fields;
      ReadBack(fields[0].value, ", " + more);
      assert (", " + more)[2..] == more;
      ReadBackFields(fields[1..], rest);
    }
  }

  // ---- What printing preserves ----

  const RESERVED_WORDS := {"none", "true", "false"}

  /** No identifier anywhere in the value is spelled like one of the three other words. */
  ghost predicate NoReservedWord(v: TypstValue)
    decreases v
  {
    match v
    case Ident(name) => name !in RESERVED_WORDS
    case Array(items) => forall x :: x in items ==> NoReservedWord(x)
    case Dict(fields) => forall f :: f in fields ==> NoReservedWord(f.value)
    case _ => true
  }

  lemma {:induction false} CanonicalIsSame(v: TypstValue)
    ensures Canonical(v) == v <==> NoReservedWord(v)
    decreases v, 1
  {
    match v
    case Array(items) => CanonicalItemsAreSame(items);
    case Dict(fields) => CanonicalFieldsAreSame(fields);
    case _ =>
  }

  lemma {:induction false} CanonicalItemsAreSame(items: seq<TypstValue>)
    ensures CanonicalItems(items) == items <==> forall x :: x in items ==> NoReservedWord(x)
    decreases items, 0
  {
    if items != [] {
      CanonicalIsSame(items[0]);
      CanonicalItemsAreSame(items[1..]);
      assert items == [items[0]] + items[1..];
      assert CanonicalItems(items)[1..] == CanonicalItems(items[1..]);
    }
  }

  lemma {:induction false} CanonicalFieldsAreSame(fields: seq<Field>)
    ensures CanonicalFields(fields) == fields <==> forall f :: f in fields ==> NoReservedWord(f.value)
    decreases fields, 0
  {
    if fields != [] {
      CanonicalIsSame(fields[0].value);
      CanonicalFieldsAreSame(fields[1..]);
      assert fields == [fields[0]] + fields[1..];
      assert CanonicalFields(fields)[1..] == CanonicalFields(fields[1..]);
    }
  }

  /** The literal round trip. Whatever prints is read back, with exactly the text after it
      left over; the value read is the value printed unless it holds a reserved word. */
  lemma LiteralRoundTrip(v: TypstValue, rest: string)
    requires ToSource(v).Ok? && FloatsPrinted(v) && (IsOpen(v) ==> Delimited(rest))
    ensures Read(ToSource(v).value + rest) == Some((v, rest)) <==> NoReservedWord(v)
    ensures Read(ToSource(v).value + rest) == Some((Canonical(v), rest))
  {
    ReadBack(v, rest);
    CanonicalIsSame(v);
  }

  lemma {:induction false} CanonicalPrintsAlike(v: TypstValue)
    ensures ToSource(Canonical(v)) == ToSource(v)
    decreases v, 1
  {
    match v
    case Array(items) => CanonicalItemsPrintAlike(items);
    case Dict(fields) => CanonicalFieldsPrintAlike(fields);
    case _ =>
  }

  lemma {:induction false} CanonicalItemsPrintAlike(items: seq<TypstValue>)
    ensures ItemsSource(CanonicalItems(items)) == ItemsSource(items)
    decreases items, 0
  {
    if items != [] {
      CanonicalPrintsAlike(items[0]);
      CanonicalItemsPrintAlike(items[1..]);
      assert CanonicalItems(items)[1..] == CanonicalItems(items[1..]);
    }
  }

  lemma {:induction false} CanonicalFieldsPrintAlike(fields: seq<Field>)
    ensures FieldsSource(CanonicalFields(fields)) == FieldsSource(fields)
    decreases fields, 0
  {
    if fields != [] {
      CanonicalPrintsAlike(fields[0].value);
      CanonicalFieldsPrintAlike(fields[1..]);
      assert CanonicalFields(fields)[1..] == CanonicalFields(fields[1..]);
    }
  }

  /** Two values print the same text exactly when they differ at most in reserved words. */
  lemma PrintingIsInjective(v: TypstValue, w: TypstValue)
    requires ToSource(v).Ok? && ToSource(w).Ok? && FloatsPrinted(v) && FloatsPrinted(w)
    ensures ToSource(v) == ToSource(w) <==> Canonical(v) == Canonical(w)
    ensures NoReservedWord(v) && NoReservedWord(w) ==> (ToSource(v) == ToSource(w) <==> v == w)
  {
    ReadBack(v, "");
    ReadBack(w, "");
    CanonicalPrintsAlike(v);
    CanonicalPrintsAlike(w);
    CanonicalIsSame(v);
    CanonicalIsSame(w);
    assert ToSource(v).value + "" == ToSource(v).value && ToSource(w).value + "" == ToSource(w).value;
  }

  // ---- What can be printed ----

  /** Every leaf has a literal and every key is an identifier. */
  ghost predicate Printable(v: TypstValue)
    decreases v
  {
    match v
    case Float(text, finite) => finite
    case Ident(name) => IsIdent(name)
    case Array(items) => forall x :: x in items ==> Printable(x)
    case Dict(fields) => forall f :: f in fields ==> IsIdent(f.key) && Printable(f.value)
    case Date(year, month, day) => InDateRange(month, day)
    case _ => true
  }

  lemma {:induction false} PrintableExactly(v: TypstValue)
    ensures ToSource(v).Ok? <==> Printable(v)
    decreases v, 1
  {
    match v
    case Array(items) => ItemsPrintableExactly(items);
    case Dict(fields) => FieldsPrintableExactly(fields);
    case _ =>
  }

  lemma {:induction false} ItemsPrintableExactly(items: seq<TypstValue>)
    ensures ItemsSource(items).Ok? <==> forall x :: x in items ==> Printable(x)
    decreases items, 0
  {
    if items != [] {
      PrintableExactly(items[0]);
      ItemsPrintableExactly(items[1..]);
      assert items == [items[0]] + items[1..];
    }
  }

  lemma {:induction false} FieldsPrintableExactly(fields: seq<Field>)
    ensures FieldsSource(fields).Ok? <==> forall f :: f in fields ==> IsIdent(f.key) && Printable(f.value)
    decreases fields, 0
  {
    if fields != [] {
      PrintableExactly(fields[0].value);
      FieldsPrintableExactly(fields[1..]);
      assert fields == [fields[0]] + fields[1..];
    }
  }

  /** Everything about a value that has no literal, in the order it is met. */
  function Troubles(v: TypstValue): seq<ValueError>
    decreases v, 1
  {
    match v
    case Float(text, finite) => if finite then [] else [NonFinite(text)]
    case Ident(name) => if IsIdent(name) then [] else [BadIdent(name)]
    case Array(items) => TroublesOf(items)
    case Dict(fields) => TroublesIn(fields)
    case Date(year, month, day) => if InDateRange(month, day) then [] else [BadDate(year, month, day)]
    case _ => []
  }

  function TroublesOf(items: seq<TypstValue>): seq<ValueError>
    decreases items, 0
  {
    if items == [] then [] else Troubles(items[0]) + TroublesOf(items[1..])
  }

  function TroublesIn(fields: seq<Field>): seq<ValueError>
    decreases fields, 0
  {
    if fields == [] then []
    else
      (if IsIdent(fields[0].key) then [] else [BadKey(fields[0].key)])
      + Troubles(fields[0].value) + TroublesIn(fields[1..])
  }

  /** The outcome reports the first of these, or succeeds when there are none. */
  predicate ReportsFirst(outcome: Source, troubles: seq<ValueError>) {
    if troubles == [] then outcome.Ok? else outcome == Err(troubles[0])
  }

  lemma ThenReportsFirst(a: Source, b: Source, first: seq<ValueError>, second: seq<ValueError>)
    requires ReportsFirst(a, first) && ReportsFirst(b, second)
    ensures ReportsFirst(Then(a, b), first + second)
  {
    if first == [] { assert first + second == second; }
  }

  /** A value that cannot be printed is refused for the first thing in it that has no literal. */
  lemma {:induction false} FirstTroubleIsReported(v: TypstValue)
    ensures ReportsFirst(ToSource(v), Troubles(v))
    decreases v, 1
  {
    match v
    case Array(items) => FirstTroubleOfItems(items);
    case Dict(fields) => FirstTroubleOfFields(fields);
    case _ =>
  }

  lemma {:induction false} FirstTroubleOfItems(items: seq<TypstValue>)
    ensures ReportsFirst(ItemsSource(items), TroublesOf(items))
    decreases items, 0
  {
    if items != [] {
      FirstTroubleIsReported(items[0]);
      FirstTroubleOfItems(items[1..]);
      ThenReportsFirst(ToSource(items[0]), Ok(", "), Troubles(items[0]), []);
      assert Troubles(items[0]) + [] == Troubles(items[0]);
      ThenReportsFirst(Then(ToSource(items[0]), Ok(", ")), ItemsSource(items[1..]),
                       Troubles(items[0]), TroublesOf(items[1..]));
    }
  }

  lemma FieldReportsFirst(key: string, value: Source, rest: Source, first: seq<ValueError>, second: seq<ValueError>)
    requires ReportsFirst(value, first) && ReportsFirst(rest, second)
    ensures ReportsFirst(Then(Then(Ok(key), Then(value, Ok(", "))), rest), first + second)
  {
    ThenReportsFirst(value, rest, first, second);
  }

  lemma {:induction false} FirstTroubleOfFields(fields: seq<Field>)
    ensures ReportsFirst(FieldsSource(fields), TroublesIn(fields))
    decreases fields, 0
  {
    if fields != [] {
      FirstTroubleIsReported(fields[0].value);
      FirstTroubleOfFields(fields[1..]);
      var first, second := Troubles(fields[0].value), TroublesIn(fields[1..]);
      FieldReportsFirst(fields[0].key + ": ", ToSource(fields[0].value), FieldsSource(fields[1..]), first, second);
      assert [] + first == first;
    }
  }

  // ---- What a literal shows ----

  /** C0 and C1 controls, DEL, the separators of lines and paragraphs, the byte order mark. */
  predicate IsHidden(c: char) {
    c < '\U{20}' || '\U{7F}' <= c <= '\U{9F}' || c == '\U{2028}' || c == '\U{2029}' || c == '\U{FEFF}'
  }

  lemma DigitsShow(hex: string)
    requires AllDigits(hex, 16)
    ensures forall x :: x in "\\u{" + hex + "}" ==> !IsHidden(x)
  {
    forall x | x in "\\u{" + hex + "}" ensures !IsHidden(x) {
      if x in hex { assert IsDigit(x, 16); }
    }
  }

  lemma EscapeShows(c: char)
    ensures forall x :: x in EscapedChar(c) ==> !IsHidden(x)
    ensures EscapedChar(c) == [c] <==> !IsHidden(c) && c != '"' && c != '\\'
  {
    DigitsShow(Numeral(c as nat, 16));
  }

  /** Hidden characters, quotes and backslashes are escaped, and nothing else is: a text without
      them is its own literal. In particular no literal holds a line break or a control. */
  lemma {:induction false} LiteralShowsExactly(s: string)
    ensures forall x :: x in Escaped(s) ==> !IsHidden(x)
    ensures |Escaped(s)| >= |s|
    ensures Escaped(s) == s <==> forall c :: c in s ==> !IsHidden(c) && c != '"' && c != '\\'
  {
    if s != "" {
      EscapeShows(s[0]);
      LiteralShowsExactly(s[1..]);
      assert s == [s[0]] + s[1..] && s[0] in s;
      assert |EscapedChar(s[0])| >= 1;
      if Escaped(s) == s {
        assert EscapedChar(s[0]) == Escaped(s)[..|EscapedChar(s[0])|];
        assert |EscapedChar(s[0])| == 1 && Escaped(s)[1..] == Escaped(s[1..]);
      }
    }
  }

  /** The comment on the source's function claims more: that every other format character is
      escaped. A zero-width space and a right-to-left override are written as they are. */
  lemma FormatCharactersPass()
    ensures StringLiteral(['\U{200B}']) == ['"', '\U{200B}', '"']
    ensures StringLiteral(['\U{202E}']) == ['"', '\U{202E}', '"']
  {
    LiteralShowsExactly(['\U{200B}']);
    LiteralShowsExactly(['\U{202E}']);
  }
}
