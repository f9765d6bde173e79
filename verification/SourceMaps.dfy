/** Positions in a generated body and in the body the caller wrote: `SourceMap` and the
    import prelude of `src/templates.rs`. */
module SourceMaps {
  import opened Wrappers
  import opened Numerals
  import opened TypstValues
  import opened Entrypoint

  // ---- Lines ----

  /** The characters Typst ends a line at; a carriage return and line feed end one. */
  predicate IsNewline(c: char) {
    c in {'\n', '\r', '\U{B}', '\U{C}', '\U{85}', '\U{2028}', '\U{2029}'}
  }

  function Newlines(s: string): nat {
    if s == "" then 0
    else if |s| >= 2 && s[0] == '\r' && s[1] == '\n' then 1 + Newlines(s[2..])
    else (if IsNewline(s[0]) then 1 else 0) + Newlines(s[1..])
  }

  /** The line a position is on, counting from one. */
  function LineAt(s: string, position: nat): nat
    requires position <= |s|
  {
    1 + Newlines(s[..position])
  }

  lemma {:induction false} NewlinesConcat(a: string, b: string)
    requires a == "" || a[|a| - 1] != '\r'
    ensures Newlines(a + b) == Newlines(a) + Newlines(b)
    decreases |a|
  {
    var s := a + b;
    if a == "" {
      assert s == b;
    } else if |a| >= 2 && a[0] == '\r' && a[1] == '\n' {
      assert s[2..] == a[2..] + b;
      NewlinesConcat(a[2..], b);
    } else {
      assert s[1..] == a[1..] + b;
      NewlinesConcat(a[1..], b);
    }
  }

  predicate OneLine(s: string) {
    forall c :: c in s ==> !IsNewline(c)
  }

  lemma {:induction false} OneLineHasNone(s: string)
    requires OneLine(s)
    ensures Newlines(s) == 0
  {
    if s != "" {
      assert s[0] in s && OneLine(s[1..]);
      OneLineHasNone(s[1..]);
    }
  }

  // ---- The prelude ----

  lemma EscapedCharIsOneLine(c: char)
    ensures OneLine(EscapedChar(c))
  {
    if IsControl(c) || c in {'\U{2028}', '\U{2029}', '\U{FEFF}'} {
      var hex := Numeral(c as nat, 16);
      forall d | d in hex ensures !IsNewline(d) { assert IsDigit(d, 16); }
    }
  }

  lemma {:induction false} EscapedIsOneLine(s: string)
    ensures OneLine(Escaped(s))
  {
    if s != "" {
      EscapedCharIsOneLine(s[0]);
      EscapedIsOneLine(s[1..]);
    }
  }

  /** `str::lines().count()`: lines as Rust counts them, by line feeds only. */
  function RustLines(s: string): nat {
    if s == "" then 0
    else if '\n' !in s then 1
    else if s[0] == '\n' then 1 + RustLines(s[1..])
    else RustLines(s[1..])
  }

  lemma {:induction false} RustLinesOfLine(line: string)
    requires OneLine(line)
    ensures RustLines(line + "\n") == 1
  {
    var s := line + "\n";
    assert s[|line|] == '\n';
    if line == "" {
      assert s[1..] == "";
    } else {
      assert line[0] in line && s[1..] == line[1..] + "\n";
      RustLinesOfLine(line[1..]);
    }
  }

  /** Whatever the entrypoint is called, the prelude is one line, to Typst and to Rust. */
  lemma PreludeIsOneLine(entrypoint: string)
    ensures Newlines(Import(entrypoint)) == 1 && RustLines(Import(entrypoint)) == 1
    ensures Import(entrypoint)[|Import(entrypoint)| - 1] == '\n'
  {
    var line := "#import " + StringLiteral(entrypoint) + ": *";
    EscapedIsOneLine(entrypoint);
    assert OneLine(line);
    assert Import(entrypoint) == line + "\n";
    OneLineHasNone(line);
    NewlinesConcat(line, "\n");
    RustLinesOfLine(line);
  }

  // ---- The map ----

  datatype Diagnostic = Diagnostic(file: Option<string>, line: Option<nat>, message: string)

  datatype Entry = Entry(display: string, offset: nat)

  function Shifted(line: nat, offset: nat): nat {
    if line <= offset + 1 then 1 else line - offset
  }

  /** One diagnostic under a table of generated files. */
  function Mapped(entries: map<string, Entry>, d: Diagnostic): Diagnostic {
    if d.file.None? || d.file.value !in entries then d
    else
      var entry := entries[d.file.value];
      Diagnostic(Some(entry.display), if d.line.Some? then Some(Shifted(d.line.value, entry.offset)) else None,
                 d.message)
  }

  function MappedAll(entries: map<string, Entry>, ds: seq<Diagnostic>): seq<Diagnostic> {
    seq(|ds|, i requires 0 <= i < |ds| => Mapped(entries, ds[i]))
  }

  class SourceMap {
    var entries: map<string, Entry>

    constructor ()
      ensures entries == map[]
    {
      entries := map[];
    }

    method Insert(generated: string, display: string, preludeLines: nat)
      modifies this
      ensures entries == old(entries)[generated := Entry(display, preludeLines)]
    {
      entries := entries[generated := Entry(display, preludeLines)];
    }

    /** Rewrites diagnostics in place. */
    method Apply(ds: array<Diagnostic>)
      modifies ds
      ensures ds[..] == MappedAll(entries, old(ds[..]))
    {
      for i := 0 to ds.Length
        invariant forall j :: 0 <= j < i ==> ds[j] == Mapped(entries, old(ds[j]))
        invariant forall j :: i <= j < ds.Length ==> ds[j] == old(ds[j])
      {
        var d := ds[i];
        if d.file.Some? && d.file.value in entries {
          var entry := entries[d.file.value];
          var line: Option<nat> := None;
          if d.line.Some? {
            var saturated := if d.line.value >= entry.offset then d.line.value - entry.offset else 0;
            line := Some(if saturated >= 1 then saturated else 1);
          }
          ds[i] := Diagnostic(Some(entry.display), line, d.message);
        }
      }
    }
  }

  const BODY_DISPLAY_NAME := "body.typ"

  /** The file a body is compiled as, and the table that goes with it. */
  function GeneratedBody(entrypoint: string, body: string): string {
    Import(entrypoint) + body
  }

  function BodyEntries(entrypoint: string): map<string, Entry> {
    map[GENERATED_BODY := Entry(BODY_DISPLAY_NAME, RustLines(Import(entrypoint)))]
  }

  /** The part of `assemble_with_overrides` that mounts a body. */
  method MountBody(entrypoint: string, body: string, sources: SourceMap) returns (text: string)
    modifies sources
    ensures text == GeneratedBody(entrypoint, body)
    ensures old(sources.entries) == map[] ==> sources.entries == BodyEntries(entrypoint)
  {
    var prelude := Import(entrypoint);
    text := prelude + body;
    sources.Insert(GENERATED_BODY, BODY_DISPLAY_NAME, RustLines(prelude));
  }

  lemma BodyIsOneLineDown(entrypoint: string, body: string, position: nat)
    requires position <= |body|
    ensures |Import(entrypoint)| + position <= |GeneratedBody(entrypoint, body)|
    ensures (LineAt(GeneratedBody(entrypoint, body), |Import(entrypoint)| + position) == LineAt(body, position) + 1)
  {
    var prelude := Import(entrypoint);
    PreludeIsOneLine(entrypoint);
    assert (prelude + body)[..|prelude| + position] == prelude + body[..position];
    NewlinesConcat(prelude, body[..position]);
  }

  lemma BodyShift(entrypoint: string, line: nat, message: string)
    ensures (Mapped(BodyEntries(entrypoint), Diagnostic(Some(GENERATED_BODY), Some(line), message))
             == Diagnostic(Some(BODY_DISPLAY_NAME), Some(Shifted(line, 1)), message))
  {
    PreludeIsOneLine(entrypoint);
  }

  /** Every position of the caller's body is reported on the caller's line, and a position
      in the prelude on line one. */
  lemma PositionsAreRestored(entrypoint: string, body: string, position: nat, message: string)
    requires position <= |body|
    ensures |Import(entrypoint)| + position <= |GeneratedBody(entrypoint, body)|
    ensures (Mapped(BodyEntries(entrypoint),
                    Diagnostic(Some(GENERATED_BODY),
                               Some(LineAt(GeneratedBody(entrypoint, body), |Import(entrypoint)| + position)), message))
             == Diagnostic(Some(BODY_DISPLAY_NAME), Some(LineAt(body, position)), message))
  {
    BodyIsOneLineDown(entrypoint, body, position);
    BodyShift(entrypoint, LineAt(body, position) + 1, message);
  }

  lemma PreludeIsLineOne(entrypoint: string, body: string, position: nat, message: string)
    requires position < |Import(entrypoint)|
    ensures |Import(entrypoint)| <= |GeneratedBody(entrypoint, body)|
    ensures (Mapped(BodyEntries(entrypoint),
                    Diagnostic(Some(GENERATED_BODY), Some(LineAt(GeneratedBody(entrypoint, body), position)), message))
             == Diagnostic(Some(BODY_DISPLAY_NAME), Some(1), message))
  {
    StartHasNoNewline(entrypoint, body, position);
  }

  lemma StartHasNoNewline(entrypoint: string, body: string, position: nat)
    requires position < |Import(entrypoint)|
    ensures position <= |GeneratedBody(entrypoint, body)| && Newlines(GeneratedBody(entrypoint, body)[..position]) == 0
  {
    var line := "#import " + StringLiteral(entrypoint) + ": *";
    EscapedIsOneLine(entrypoint);
    PreludeIsOneLine(entrypoint);
    var before := GeneratedBody(entrypoint, body)[..position];
    assert before == line[..position];
    assert forall c :: c in before ==> c in line;
    OneLineHasNone(before);
  }

  /** No mapped diagnostic is on line zero; no other is touched. */
  lemma NeverLineZero(entries: map<string, Entry>, d: Diagnostic)
    ensures (if d.file.Some? && d.file.value in entries
             then Mapped(entries, d).line.Some? ==> Mapped(entries, d).line.value >= 1
             else Mapped(entries, d) == d)
  {
  }

  ghost predicate Idempotent(entries: map<string, Entry>) {
    forall d :: Mapped(entries, Mapped(entries, d)) == Mapped(entries, d)
  }

  /** Mapping twice is mapping once exactly when every displayed name is either no
      generated file or one that stands for itself. */
  lemma IdempotentExactly(entries: map<string, Entry>)
    ensures Idempotent(entries) <==>
              forall g | g in entries ::
                entries[g].display in entries ==> entries[entries[g].display] == Entry(entries[g].display, 0)
  {
    if Idempotent(entries) {
      forall g | g in entries && entries[g].display in entries
        ensures entries[entries[g].display] == Entry(entries[g].display, 0)
      {
        var again := entries[entries[g].display];
        var d := Diagnostic(Some(g), Some(entries[g].offset + again.offset + 2), "");
        assert Mapped(entries, d) == Diagnostic(Some(entries[g].display), Some(again.offset + 2), "");
        assert Mapped(entries, Mapped(entries, d)) == Diagnostic(Some(again.display), Some(2), "");
      }
    }
  }

  lemma BodyMapIsIdempotent(entrypoint: string)
    ensures Idempotent(BodyEntries(entrypoint))
  {
    assert BODY_DISPLAY_NAME != GENERATED_BODY by {
      assert BODY_DISPLAY_NAME[0] == 'b' && GENERATED_BODY[0] == '_';
    }
    IdempotentExactly(BodyEntries(entrypoint));
  }
}
