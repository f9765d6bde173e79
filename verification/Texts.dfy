/** Characters and bytes; splitting a text at a separator and joining it again. */
module Texts {

  type Byte = b: int | 0 <= b < 256

  predicate IsAlphanumeric(c: char) {
    'a' <= c <= 'z' || 'A' <= c <= 'Z' || '0' <= c <= '9'
  }

  predicate Lacks(s: string, c: char) {
    c !in s
  }

  /** `str::split`: always at least one part. */
  function Split(s: string, sep: char): (parts: seq<string>)
    ensures |parts| >= 1
    decreases |s|
  {
    if s == "" then [""]
    else
      var rest := Split(s[1..], sep);
      if s[0] == sep then [""] + rest else [[s[0]] + rest[0]] + rest[1..]
  }

  function Join(parts: seq<string>, sep: char): string {
    if parts == [] then ""
    else if |parts| == 1 then parts[0]
    else parts[0] + [sep] + Join(parts[1..], sep)
  }

  lemma {:induction false} SplitFirst(a: string, rest: string, sep: char)
    requires Lacks(a, sep)
    ensures Split(a + [sep] + rest, sep) == [a] + Split(rest, sep)
    ensures Split(a, sep) == [a]
  {
    var s := a + [sep] + rest;
    if a == "" {
      assert s[1..] == rest;
    } else {
      assert s[1..] == a[1..] + [sep] + rest;
      assert a == [a[0]] + a[1..];
      SplitFirst(a[1..], rest, sep);
    }
  }

  lemma {:induction false} LastPart(a: string, b: string, sep: char)
    requires Lacks(b, sep)
    ensures |Split(a + [sep] + b, sep)| >= 2
    ensures (Split(a + [sep] + b, sep)[|Split(a + [sep] + b, sep)| - 1] == b)
  {
    if a == "" {
      SplitFirst("", b, sep);
      SplitFirst(b, "", sep);
    } else {
      assert (a + [sep] + b)[1..] == a[1..] + [sep] + b;
      LastPart(a[1..], b, sep);
    }
  }

  lemma {:induction false} JoinOfSplit(s: string, sep: char)
    ensures Join(Split(s, sep), sep) == s
    ensures forall p :: p in Split(s, sep) ==> Lacks(p, sep)
  {
    if s != "" {
      var rest := Split(s[1..], sep);
      JoinOfSplit(s[1..], sep);
      assert rest == [rest[0]] + rest[1..];
      assert s == [s[0]] + s[1..];
      var parts := Split(s, sep);
      if s[0] == sep {
        assert parts[1..] == rest;
      } else {
        assert parts[1..] == rest[1..];
        forall p | p in parts ensures Lacks(p, sep) {
          assert rest[0] in rest;
          assert p == [s[0]] + rest[0] || p in rest;
        }
        if |rest| > 1 {
          assert [s[0]] + (rest[0] + [sep] + Join(rest[1..], sep)) == ([s[0]] + rest[0]) + [sep] + Join(rest[1..], sep);
        }
      }
    }
  }

  /** Bytes of a character in UTF-8. */
  function CharBytes(c: char): (n: nat)
    ensures 1 <= n <= 4
  {
    if c < '\U{80}' then 1 else if c < '\U{800}' then 2 else if c < '\U{10000}' then 3 else 4
  }

  /** Bytes of a text in UTF-8. */
  function ByteLength(s: string): nat {
    if s == "" then 0 else CharBytes(s[0]) + ByteLength(s[1..])
  }
}
