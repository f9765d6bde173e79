/** Two bounds on foreign data, of `src/templates.rs`: the reader that caps a decompressed
    archive, and the writer that caps a schema diagnostic. */
module BoundedStreams {
  import opened Wrappers
  import opened Texts

  // ---- BoundedReader ----

  /** The bytes the inner stream still holds and the bytes the bound still allows. */
  datatype ReaderState = ReaderState(inner: seq<Byte>, remaining: nat)

  datatype Outcome = Delivered(bytes: seq<Byte>) | Overflow | InnerError

  /** One call: the buffer's size, and how much the inner reader chooses to hand over, or
      none when it fails. */
  datatype Call = Call(capacity: nat, offer: Option<nat>)

  /** A reader hands over at least one byte unless it is at its end. */
  function Amount(offer: nat, room: nat, left: nat): (n: nat)
    ensures n <= room && n <= left && (n == 0 <==> room == 0 || left == 0)
  {
    var most := if room < left then room else left;
    if most == 0 then 0 else if offer < 1 then 1 else if offer > most then most else offer
  }

  function ReadStep(s: ReaderState, call: Call): (ReaderState, Outcome) {
    if call.capacity == 0 then (s, Delivered([]))
    else if call.offer.None? then (s, InnerError)
    else if s.remaining == 0 then
      if s.inner == [] then (s, Delivered([])) else (s.(inner := s.inner[1..]), Overflow)
    else
      var room := if call.capacity < s.remaining then call.capacity else s.remaining;
      var n := Amount(call.offer.value, room, |s.inner|);
      (ReaderState(s.inner[n..], s.remaining - n), Delivered(s.inner[..n]))
  }

  class BoundedReader {
    var inner: seq<Byte>
    var remaining: nat

    constructor (stream: seq<Byte>, limit: nat)
      ensures State() == ReaderState(stream, limit)
    {
      inner, remaining := stream, limit;
    }

    function State(): ReaderState
      reads this
    {
      ReaderState(inner, remaining)
    }

    method Read(call: Call) returns (r: Outcome)
      modifies this
      ensures (State(), r) == ReadStep(old(State()), call)
    {
      if call.capacity == 0 {
        return Delivered([]);
      }
      if call.offer.None? {
        return InnerError;
      }
      if remaining == 0 {
        var probed := Amount(call.offer.value, 1, |inner|);
        if probed == 0 {
          return Delivered([]);
        }
        inner := inner[1..];
        return Overflow;
      }
      var room := if call.capacity < remaining then call.capacity else remaining;
      var n := Amount(call.offer.value, room, |inner|);
      r := Delivered(inner[..n]);
      inner := inner[n..];
      remaining := remaining - n;
    }
  }

  /** The state after a sequence of calls. */
  function After(s: ReaderState, calls: seq<Call>): ReaderState {
    if calls == [] then s else ReadStep(After(s, calls[..|calls| - 1]), calls[|calls| - 1]).0
  }

  function OutcomeAt(s: ReaderState, calls: seq<Call>): Outcome
    requires calls != []
  {
    ReadStep(After(s, calls[..|calls| - 1]), calls[|calls| - 1]).1
  }

  function BytesOf(o: Outcome): seq<Byte> {
    match o
    case Delivered(bytes) => bytes
    case _ => []
  }

  /** Everything delivered over a sequence of calls. */
  function AllDelivered(s: ReaderState, calls: seq<Call>): seq<Byte> {
    if calls == [] then []
    else AllDelivered(s, calls[..|calls| - 1]) + BytesOf(OutcomeAt(s, calls))
  }

  /** How many of the calls overflowed. */
  function Overflows(s: ReaderState, calls: seq<Call>): nat {
    if calls == [] then 0
    else Overflows(s, calls[..|calls| - 1]) + (if OutcomeAt(s, calls) == Overflow then 1 else 0)
  }

  /** Where the stream is: delivered bytes first, then one probed byte per overflow. */
  predicate Accounted(stream: seq<Byte>, limit: nat, delivered: seq<Byte>, overflows: nat, s: ReaderState) {
    && |delivered| + overflows + |s.inner| == |stream|
    && delivered == stream[..|delivered|] && s.inner == stream[|delivered| + overflows..]
    && |delivered| + s.remaining == limit
    && (overflows > 0 ==> s.remaining == 0)
  }

  lemma StepIsAccounted(stream: seq<Byte>, limit: nat, delivered: seq<Byte>, overflows: nat, s: ReaderState, call: Call)
    requires Accounted(stream, limit, delivered, overflows, s)
    ensures (Accounted(stream, limit, delivered + BytesOf(ReadStep(s, call).1),
                       overflows + (if ReadStep(s, call).1 == Overflow then 1 else 0), ReadStep(s, call).0))
  {
    var bytes := BytesOf(ReadStep(s, call).1);
    var more := delivered + bytes;
    assert bytes == s.inner[..|bytes|];
    assert forall i :: 0 <= i < |bytes| ==> bytes[i] == stream[|delivered| + overflows + i];
    assert more == stream[..|more|];
  }

  lemma {:induction false} RunIsAccounted(stream: seq<Byte>, limit: nat, calls: seq<Call>)
    ensures Accounted(stream, limit, AllDelivered(ReaderState(stream, limit), calls),
                      Overflows(ReaderState(stream, limit), calls), After(ReaderState(stream, limit), calls))
  {
    var s := ReaderState(stream, limit);
    if calls != [] {
      var most := calls[..|calls| - 1];
      RunIsAccounted(stream, limit, most);
      StepIsAccounted(stream, limit, AllDelivered(s, most), Overflows(s, most), After(s, most), calls[|calls| - 1]);
    }
  }

  /** Over any sequence of reads the reader delivers a prefix of the stream within the
      limit, and overflows only when the stream is longer. */
  lemma ReaderDeliversAPrefix(stream: seq<Byte>, limit: nat, calls: seq<Call>)
    ensures AllDelivered(ReaderState(stream, limit), calls) <= stream
    ensures |AllDelivered(ReaderState(stream, limit), calls)| <= limit
    ensures Overflows(ReaderState(stream, limit), calls) > 0 ==> |stream| > limit
  {
    RunIsAccounted(stream, limit, calls);
  }

  predicate EndsAtEnd(s: ReaderState, calls: seq<Call>) {
    calls != [] && calls[|calls| - 1].capacity > 0 && OutcomeAt(s, calls) == Delivered([])
  }

  /** A reader that reports its end has delivered all that the limit allows, and has
      overflowed once for every byte beyond it: so none of the reads failed exactly when
      the stream fits, and then all of it was delivered. */
  lemma EndMeansWhole(stream: seq<Byte>, limit: nat, calls: seq<Call>)
    requires EndsAtEnd(ReaderState(stream, limit), calls)
    ensures AllDelivered(ReaderState(stream, limit), calls) == if |stream| <= limit then stream else stream[..limit]
    ensures (Overflows(ReaderState(stream, limit), calls)
             == if |stream| <= limit then 0 else |stream| - limit)
  {
    RunIsAccounted(stream, limit, calls);
    var s := ReaderState(stream, limit);
    var before := After(s, calls[..|calls| - 1]);
    assert before.inner == [] && After(s, calls) == before;
    assert stream[..|stream|] == stream;
  }

  /** The failure is not sticky: one byte too many fails once and then reads as the end. */
  lemma OverflowIsNotSticky(stream: seq<Byte>, limit: nat, call: Call)
    requires |stream| == limit + 1 && call.capacity > 0 && call.offer.Some?
    ensures ReadStep(ReaderState(stream[limit..], 0), call).1 == Overflow
    ensures ReadStep(ReadStep(ReaderState(stream[limit..], 0), call).0, call).1 == Delivered([])
  {
  }

  // ---- BoundedMessage ----

  /** The longest prefix of whole characters within a number of bytes. */
  function Fitting(s: string, limit: nat): string {
    if s == "" || CharBytes(s[0]) > limit then "" else [s[0]] + Fitting(s[1..], limit - CharBytes(s[0]))
  }

  lemma {:induction false} FittingIsLongest(s: string, limit: nat, k: nat)
    requires k <= |s|
    ensures Fitting(s, limit) <= s && ByteLength(Fitting(s, limit)) <= limit
    ensures ByteLength(s[..k]) <= limit <==> k <= |Fitting(s, limit)|
  {
    if s == "" {
    } else if CharBytes(s[0]) > limit {
      if k > 0 { assert s[..k][0] == s[0]; }
    } else {
      var rest := Fitting(s[1..], limit - CharBytes(s[0]));
      assert ([s[0]] + rest)[1..] == rest;
      FittingIsLongest(s[1..], limit - CharBytes(s[0]), if k > 0 then k - 1 else 0);
      if k > 0 { assert s[..k][1..] == s[1..][..k - 1]; }
    }
  }

  lemma {:induction false} ByteLengthConcat(a: string, b: string)
    ensures ByteLength(a + b) == ByteLength(a) + ByteLength(b)
  {
    if a == "" {
      assert a + b == b;
    } else {
      assert (a + b)[1..] == a[1..] + b;
      ByteLengthConcat(a[1..], b);
    }
  }

  lemma {:induction false} FittingConcat(a: string, b: string, limit: nat)
    ensures (Fitting(a + b, limit)
             == if ByteLength(a) <= limit then a + Fitting(b, limit - ByteLength(a)) else Fitting(a, limit))
  {
    if a == "" {
      assert a + b == b && a + Fitting(b, limit) == Fitting(b, limit);
    } else {
      var s, w := a + b, CharBytes(a[0]);
      assert s[1..] == a[1..] + b && s[0] == a[0];
      if w <= limit {
        FittingConcat(a[1..], b, limit - w);
        assert Fitting(s, limit) == [a[0]] + Fitting(a[1..] + b, limit - w);
        if ByteLength(a) <= limit {
          var more := Fitting(b, limit - ByteLength(a));
          assert [a[0]] + (a[1..] + more) == a + more;
        }
      }
    }
  }

  lemma {:induction false} FittingAll(s: string, limit: nat)
    ensures ByteLength(s) <= limit ==> Fitting(s, limit) == s
    ensures Fitting(s, 0) == ""
  {
    if s != "" && ByteLength(s) <= limit {
      FittingAll(s[1..], limit - CharBytes(s[0]));
      assert s == [s[0]] + s[1..];
    }
  }

  /** `is_char_boundary`: whether a byte offset falls between characters. */
  predicate IsBoundary(s: string, offset: nat) {
    offset == 0 || (s != "" && CharBytes(s[0]) <= offset && IsBoundary(s[1..], offset - CharBytes(s[0])))
  }

  /** The text before a byte offset. */
  function Before(s: string, offset: nat): string
    requires IsBoundary(s, offset)
  {
    if offset == 0 then "" else [s[0]] + Before(s[1..], offset - CharBytes(s[0]))
  }

  /** Going back from a limit to the nearest boundary finds the longest prefix. */
  lemma {:induction false} BoundaryBelow(s: string, offset: nat, limit: nat)
    requires offset <= limit && IsBoundary(s, offset)
    requires forall o: nat :: offset < o <= limit ==> !IsBoundary(s, o)
    ensures Before(s, offset) == Fitting(s, limit)
  {
    if s != "" && CharBytes(s[0]) <= limit {
      var w := CharBytes(s[0]);
      assert IsBoundary(s, w) by { assert IsBoundary(s[1..], 0); }
      assert offset >= w;
      forall o | offset - w < o <= limit - w ensures !IsBoundary(s[1..], o) {
        assert !IsBoundary(s, o + w);
      }
      BoundaryBelow(s[1..], offset - w, limit - w);
    }
  }

  class BoundedMessage {
    var value: string
    var remaining: nat
    ghost const limit: nat
    /** Everything ever written, fitting or not. */
    ghost var written: string

    ghost predicate Valid()
      reads this
    {
      && value == Fitting(written, limit)
      && remaining == if ByteLength(written) <= limit then limit - ByteLength(written) else 0
    }

    constructor (bound: nat)
      ensures Valid() && limit == bound && written == ""
    {
      value, remaining, limit, written := "", bound, bound, "";
    }

    /** Whatever is written, the message is the longest prefix of it all that fits in whole
        characters, and a write fails exactly when it adds text beyond that. */
    method WriteStr(text: string) returns (ok: bool)
      requires Valid()
      modifies this
      ensures Valid() && written == old(written) + text
      ensures ok <==> text == "" || ByteLength(written) <= limit
    {
      ByteLengthConcat(written, text);
      FittingConcat(written, text, limit);
      FittingAll(text, remaining);
      FittingAll(written, limit);
      written := written + text;
      if ByteLength(text) <= remaining {
        assert text == "" ==> value + text == value;
        value := value + text;
        remaining := remaining - ByteLength(text);
        return true;
      }
      var end: nat := remaining;
      while !IsBoundary(text, end)
        decreases end
        invariant end <= remaining && forall o: nat :: end < o <= remaining ==> !IsBoundary(text, o)
      {
        end := end - 1;
      }
      BoundaryBelow(text, end, remaining);
      value := value + Before(text, end);
      remaining := 0;
      ok := false;
    }
  }
}
