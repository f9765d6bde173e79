/** Virtual paths: `normalise_path` of `src/bundle.rs`. */
module Paths {
  import opened Wrappers
  import opened Texts

  const MAX_PATH_BYTES: nat := 255

  datatype PathError =
    | Empty | TooLong | Absolute | Traversal | DotSegment | EmptySegment
    | BadChar(c: char)
    | PaddedSegment(segment: string)

  predicate IsAllowed(c: char) {
    IsAlphanumeric(c) || c in {'.', '-', '_', ' ', '/'}
  }

  predicate IsPadded(s: string) {
    s != "" && (s[0] == ' ' || s[|s| - 1] == ' ' || s[|s| - 1] == '.')
  }

  predicate IsSegment(s: string) {
    s != "" && s != "." && s != ".." && !IsPadded(s)
  }

  function SegmentError(s: string): PathError
    requires !IsSegment(s)
  {
    if s == "" then EmptySegment
    else if s == "." then DotSegment
    else if s == ".." then Traversal
    else PaddedSegment(s)
  }

  function FirstBadChar(s: string): Option<char> {
    if s == "" then None
    else if !IsAllowed(s[0]) then Some(s[0])
    else FirstBadChar(s[1..])
  }

  function FirstBadSegment(parts: seq<string>): Option<PathError> {
    if parts == [] then None
    else if !IsSegment(parts[0]) then Some(SegmentError(parts[0]))
    else FirstBadSegment(parts[1..])
  }

  function Normalised(raw: string): Result<string, PathError> {
    if raw == "" then Err(Empty)
    else if ByteLength(raw) > MAX_PATH_BYTES then Err(TooLong)
    else if raw[0] == '/' then Err(Absolute)
    else
      match FirstBadChar(raw)
      case Some(c) => Err(BadChar(c))
      case None =>
        match FirstBadSegment(Split(raw, '/'))
        case Some(e) => Err(e)
        case None => Ok(Join(Split(raw, '/'), '/'))
  }

  /** `normalise_path`: validates segment by segment, then joins what it pushed. */
  method NormalisePath(raw: string) returns (r: Result<string, PathError>)
    ensures r == Normalised(raw)
  {
    if raw == "" {
      return Err(Empty);
    }
    if ByteLength(raw) > MAX_PATH_BYTES {
      return Err(TooLong);
    }
    if raw[0] == '/' {
      return Err(Absolute);
    }
    var bad := FirstBadChar(raw);
    if bad.Some? {
      return Err(BadChar(bad.value));
    }
    var parts := Split(raw, '/');
    var segments: seq<string> := [];
    assert parts[0..] == parts;
    for i := 0 to |parts|
      invariant segments == parts[..i] && FirstBadSegment(parts) == FirstBadSegment(parts[i..])
    {
      assert parts[i..][1..] == parts[i + 1..];
      if !IsSegment(parts[i]) {
        return Err(SegmentError(parts[i]));
      }
      segments := segments + [parts[i]];
    }
    assert segments == parts;
    r := Ok(Join(segments, '/'));
  }

  /** What is accepted: short, of allowed characters, and every segment a plain name. */
  predicate IsPath(raw: string) {
    && ByteLength(raw) <= MAX_PATH_BYTES
    && (forall c | c in raw :: IsAllowed(c))
    && (forall s | s in Split(raw, '/') :: IsSegment(s))
  }

  lemma {:induction false} BadCharExactly(s: string)
    ensures FirstBadChar(s).None? <==> forall c | c in s :: IsAllowed(c)
  {
    if s != "" {
      assert s == [s[0]] + s[1..];
      BadCharExactly(s[1..]);
    }
  }

  lemma {:induction false} BadSegmentExactly(parts: seq<string>)
    ensures FirstBadSegment(parts).None? <==> forall s | s in parts :: IsSegment(s)
  {
    if parts != [] {
      assert parts == [parts[0]] + parts[1..];
      BadSegmentExactly(parts[1..]);
    }
  }

  /** Nothing is rewritten: a path is either refused or returned as it was given. */
  lemma PathIsKeptOrRefused(raw: string)
    ensures Normalised(raw).Ok? <==> IsPath(raw)
    ensures Normalised(raw).Ok? ==> Normalised(raw) == Ok(raw) && raw != ""
  {
    BadCharExactly(raw);
    BadSegmentExactly(Split(raw, '/'));
    JoinOfSplit(raw, '/');
    if raw == "" {
      assert "" in Split(raw, '/');
    } else if raw[0] == '/' {
      assert Split(raw, '/')[0] == "";
      assert "" in Split(raw, '/');
    }
  }

  /** A segment that is a plain name: it is not empty, begins with no space and ends with neither a
      space nor a dot, which leaves out `.` and `..` too. */
  predicate IsPlainName(s: string) {
    s != "" && s[0] != ' ' && s[|s| - 1] != ' ' && s[|s| - 1] != '.'
  }

  /** Accepted paths stay below their root: letters, digits and a few signs only, and no segment
      that is empty, hides itself behind padding, or leads up. */
  lemma PathExactly(raw: string)
    ensures IsPath(raw) <==>
              && ByteLength(raw) <= 255
              && (forall c | c in raw :: 'a' <= c <= 'z' || 'A' <= c <= 'Z' || '0' <= c <= '9'
                                         || c == '.' || c == '-' || c == '_' || c == ' ' || c == '/')
              && (forall s | s in Split(raw, '/') :: IsPlainName(s))
  {
    assert forall s :: IsSegment(s) <==> IsPlainName(s);
  }

  // ---- What is reported ----

  predicate IsRelative(raw: string) {
    raw != "" && ByteLength(raw) <= 255 && !("/" <= raw)
  }

  /** How a segment that is no plain name is reported. */
  predicate Names(e: PathError, segment: string) {
    match e
    case EmptySegment => segment == ""
    case DotSegment => segment == "."
    case Traversal => segment == ".."
    case PaddedSegment(s) => segment == s && s != "" && s != "." && s != ".."
    case _ => false
  }

  ghost predicate IsSegmentError(parts: seq<string>, e: PathError) {
    exists s :: Names(e, s) && IsFirstBad(parts, IsSegment, s)
  }

  /** What is wrong with a path: the first thing in the order of the checks. */
  ghost predicate IsWrong(raw: string, e: PathError) {
    match e
    case Empty => raw == ""
    case TooLong => ByteLength(raw) > 255
    case Absolute => ByteLength(raw) <= 255 && "/" <= raw
    case BadChar(c) => IsRelative(raw) && IsFirstBad(raw, IsAllowed, c)
    case _ => IsRelative(raw) && (forall c | c in raw :: IsAllowed(c)) && IsSegmentError(Split(raw, '/'), e)
  }

  lemma {:induction false} FirstBadCharIs(s: string, c: char)
    ensures FirstBadChar(s) == Some(c) <==> IsFirstBad(s, IsAllowed, c)
  {
    if s != "" {
      FirstBadStep(s, IsAllowed, c);
      FirstBadCharIs(s[1..], c);
    }
  }

  lemma {:induction false} FirstBadSegmentIs(parts: seq<string>, s: string)
    ensures IsFirstBad(parts, IsSegment, s) ==> FirstBadSegment(parts) == Some(SegmentError(s))
    ensures FirstBadSegment(parts).Some? ==> exists bad :: IsFirstBad(parts, IsSegment, bad)
  {
    if parts != [] {
      FirstBadStep(parts, IsSegment, s);
      FirstBadStep(parts, IsSegment, parts[0]);
      FirstBadSegmentIs(parts[1..], s);
      if IsSegment(parts[0]) && FirstBadSegment(parts).Some? {
        var bad :| IsFirstBad(parts[1..], IsSegment, bad);
        FirstBadStep(parts, IsSegment, bad);
      }
    }
  }

  lemma SegmentErrorIs(parts: seq<string>, e: PathError)
    ensures FirstBadSegment(parts) == Some(e) <==> IsSegmentError(parts, e)
  {
    forall s | IsFirstBad(parts, IsSegment, s) ensures FirstBadSegment(parts) == Some(SegmentError(s)) {
      FirstBadSegmentIs(parts, s);
    }
    if FirstBadSegment(parts).Some? { FirstBadSegmentIs(parts, ""); }
  }

  /** A path is refused for the first thing that is wrong with it. */
  lemma PathErrorExactly(raw: string, e: PathError)
    ensures Normalised(raw) == Err(e) <==> IsWrong(raw, e)
  {
    if raw != "" {
      assert "/" <= raw <==> raw[0] == '/';
      BadCharExactly(raw);
      if e.BadChar? { FirstBadCharIs(raw, e.c); }
      if FirstBadChar(raw).Some? { FirstBadCharIs(raw, FirstBadChar(raw).value); }
      SegmentErrorIs(Split(raw, '/'), e);
    }
  }
}
