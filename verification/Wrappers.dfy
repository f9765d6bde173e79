/** Results and options, shared by every module. */
module Wrappers {
  datatype Option<+T> = None | Some(value: T) {
    function UnwrapOr(default: T): T {
      if None? then default else value
    }
  }

  datatype Result<+T, +E> = Ok(value: T) | Err(error: E) {
    function UnwrapOr(default: T): T {
      if Err? then default else value
    }
  }

  /** `x` is the first of `s` that is not good. */
  ghost predicate IsFirstBad<T>(s: seq<T>, good: T -> bool, x: T) {
    exists i :: 0 <= i < |s| && s[i] == x && !good(x) && forall j :: 0 <= j < i ==> good(s[j])
  }

  lemma FirstBadStep<T>(s: seq<T>, good: T -> bool, x: T)
    requires s != []
    ensures IsFirstBad(s, good, x) <==> if good(s[0]) then IsFirstBad(s[1..], good, x) else x == s[0]
  {
    var rest := s[1..];
    if good(s[0]) && IsFirstBad(rest, good, x) {
      var i :| 0 <= i < |rest| && rest[i] == x && !good(x) && forall j :: 0 <= j < i ==> good(rest[j]);
      assert s[i + 1] == x && forall j :: 0 <= j < i + 1 ==> good(s[j]) by {
        assert forall j :: 1 <= j < i + 1 ==> s[j] == rest[j - 1];
      }
    }
    if IsFirstBad(s, good, x) {
      var i :| 0 <= i < |s| && s[i] == x && !good(x) && forall j :: 0 <= j < i ==> good(s[j]);
      if i > 0 { assert rest[i - 1] == x && forall j :: 0 <= j < i - 1 ==> rest[j] == s[j + 1]; }
    }
  }

  /** What stays once it has happened has happened by `n` exactly if it happened at some step. */
  lemma {:induction false} HappensAtSomeStep(done: nat -> bool, happens: nat -> bool, n: nat)
    requires !done(0) && forall k: nat :: k < n ==> (done(k + 1) <==> done(k) || happens(k))
    ensures done(n) <==> exists k: nat :: k < n && happens(k)
    decreases n
  {
    if n > 0 {
      HappensAtSomeStep(done, happens, n - 1);
      assert done(n - 1 + 1) <==> done(n - 1) || happens(n - 1);
    }
  }
}
