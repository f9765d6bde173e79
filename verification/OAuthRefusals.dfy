/** Which reason each endpoint of the OAuth broker of `src/oauth_proxy.rs` refuses a request
    for: the first, in a fixed order, of those that are true of it. */
module OAuthRefusals {
  import opened Wrappers
  import opened Texts
  import opened Words
  import opened OAuthBroker

  /** The order the endpoints share. */
  function Rank(r: Refusal): nat {
    match r
    case ClientIdMissing => 0
    case ClientUnregistered => 1
    case BadResponseType => 2
    case GrantMissing => 3
    case GrantUnsupported => 4
    case RedirectMissing => 5
    case RedirectUnregistered => 6
    case StateDuplicated => 7
    case StateTooLong => 8
    case ChallengeMissing => 9
    case ChallengeInvalid => 10
    case StateMissing => 11
    case StateUnknown => 12
    case RedirectUnparsable => 13
    case CodeTooLong => 14
    case CodeMissing => 15
    case VerifierMissing => 16
    case VerifierInvalid => 17
    case CodeUnknown => 18
    case BindingMismatch => 19
  }

  /** `r` is true of the request, and nothing before it is. */
  ghost predicate IsFirst(applies: Refusal -> bool, r: Refusal) {
    applies(r) && forall other :: applies(other) ==> Rank(r) <= Rank(other)
  }

  /** A parameter that is not given, or given more than once. */
  predicate NotOnce(pairs: seq<Pair>, name: string) {
    |Values(pairs, name)| != 1
  }

  predicate AppliesToAuthorize(cfg: Config, pairs: seq<Pair>, r: Refusal) {
    match r
    case ClientIdMissing => NotOnce(pairs, "client_id")
    case ClientUnregistered => Values(pairs, "client_id") != [cfg.clientId]
    case BadResponseType => Values(pairs, "response_type") != ["code"]
    case RedirectMissing => NotOnce(pairs, "redirect_uri")
    case RedirectUnregistered => !Once(pairs, "redirect_uri", cfg.allowed)
    case StateDuplicated => |Values(pairs, "state")| > 1
    case StateTooLong => exists v | v in Values(pairs, "state") :: ByteLength(v) > 4096
    case ChallengeMissing => NotOnce(pairs, "code_challenge")
    case ChallengeInvalid =>
      !Once(pairs, "code_challenge", IsS256Challenge) || Values(pairs, "code_challenge_method") != ["S256"]
    case _ => false
  }

  predicate AppliesToCallback(cfg: Config, signed: set<string>, now: U64, pairs: seq<Pair>, r: Refusal) {
    match r
    case StateMissing => NotOnce(pairs, "state")
    case StateUnknown => !Once(pairs, "state", s => DecodeState(cfg, signed, s, now).Some?)
    case RedirectUnparsable =>
      Once(pairs, "state", s => DecodeState(cfg, signed, s, now).Some?
                                && !cfg.parsesAsUrl(DecodeState(cfg, signed, s, now).value.redirectUri))
    case CodeTooLong => Once(pairs, "code", c => ByteLength(c) > 8192)
    case _ => false
  }

  /** The code is known, and bound to this redirect URI and to what this verifier hashes to. */
  predicate IsBound(cfg: Config, signed: set<string>, now: U64, code: string, redirect: string, verifier: string) {
    var c := DecodeCode(cfg, signed, code, now);
    c.Some? && c.value.redirectUri == redirect && c.value.challenge == cfg.s256(verifier)
  }

  predicate AreBound(cfg: Config, signed: set<string>, now: U64, codes: seq<string>, redirects: seq<string>,
                     verifiers: seq<string>)
  {
    |codes| == |redirects| == |verifiers| == 1 && IsBound(cfg, signed, now, codes[0], redirects[0], verifiers[0])
  }

  predicate AppliesToExchange(cfg: Config, signed: set<string>, now: U64, pairs: seq<Pair>, r: Refusal) {
    match r
    case RedirectMissing => NotOnce(pairs, "redirect_uri")
    case RedirectUnregistered => !Once(pairs, "redirect_uri", cfg.allowed)
    case CodeMissing => NotOnce(pairs, "code")
    case VerifierMissing => NotOnce(pairs, "code_verifier")
    case VerifierInvalid => !Once(pairs, "code_verifier", IsCodeVerifier)
    case CodeUnknown => !Once(pairs, "code", c => DecodeCode(cfg, signed, c, now).Some?)
    case BindingMismatch =>
      !AreBound(cfg, signed, now, Values(pairs, "code"), Values(pairs, "redirect_uri"), Values(pairs, "code_verifier"))
    case _ => false
  }

  predicate AppliesToToken(cfg: Config, signed: set<string>, now: U64, pairs: seq<Pair>, r: Refusal) {
    match r
    case ClientIdMissing => NotOnce(pairs, "client_id")
    case ClientUnregistered => Values(pairs, "client_id") != [cfg.clientId]
    case GrantMissing => NotOnce(pairs, "grant_type")
    case GrantUnsupported =>
      Values(pairs, "grant_type") != ["authorization_code"] && Values(pairs, "grant_type") != ["refresh_token"]
    case _ => Values(pairs, "grant_type") == ["authorization_code"] && AppliesToExchange(cfg, signed, now, pairs, r)
  }

  /** An outcome that is refused for a reason that applies, and not later than for any other. */
  lemma FirstExactly<T>(outcome: Result<T, Refusal>, applies: Refusal -> bool, r: Refusal)
    requires outcome.Err? ==> applies(outcome.error)
    requires forall other :: applies(other) ==> outcome.Err? && Rank(outcome.error) <= Rank(other)
    ensures outcome == Err(r) <==> IsFirst(applies, r)
  {
  }

  // ---- authorize ----

  lemma AuthorizeReason(cfg: Config, now: U64, pairs: seq<Pair>)
    requires CheckAuthorize(cfg, now, pairs).Err?
    ensures AppliesToAuthorize(cfg, pairs, CheckAuthorize(cfg, now, pairs).error)
  {
    ExactlyOneIs(pairs, "client_id", cfg.clientId);
    ExactlyOneIs(pairs, "response_type", "code");
    ExactlyOneIs(pairs, "code_challenge_method", "S256");
    if |Values(pairs, "code_challenge")| == 1 { ChallengeExactly(Values(pairs, "code_challenge")[0]); }
  }

  lemma AuthorizeStops(cfg: Config, now: U64, pairs: seq<Pair>, r: Refusal)
    requires AppliesToAuthorize(cfg, pairs, r)
    ensures CheckAuthorize(cfg, now, pairs).Err? && Rank(CheckAuthorize(cfg, now, pairs).error) <= Rank(r)
  {
    ExactlyOneIs(pairs, "client_id", cfg.clientId);
    ExactlyOneIs(pairs, "response_type", "code");
    ExactlyOneIs(pairs, "code_challenge_method", "S256");
    if |Values(pairs, "state")| <= 1 { ShortStates(Values(pairs, "state"), 4096); }
    if |Values(pairs, "code_challenge")| == 1 { ChallengeExactly(Values(pairs, "code_challenge")[0]); }
  }

  lemma AuthorizeRefusedExactly(cfg: Config, now: U64, pairs: seq<Pair>, r: Refusal)
    ensures CheckAuthorize(cfg, now, pairs) == Err(r) <==> IsFirst(o => AppliesToAuthorize(cfg, pairs, o), r)
  {
    var applies := o => AppliesToAuthorize(cfg, pairs, o);
    if CheckAuthorize(cfg, now, pairs).Err? { AuthorizeReason(cfg, now, pairs); }
    forall o | applies(o) ensures CheckAuthorize(cfg, now, pairs).Err?
                                  && Rank(CheckAuthorize(cfg, now, pairs).error) <= Rank(o)
    {
      AuthorizeStops(cfg, now, pairs, o);
    }
    FirstExactly(CheckAuthorize(cfg, now, pairs), applies, r);
  }

  // ---- callback ----

  lemma CallbackReason(cfg: Config, signed: set<string>, now: U64, pairs: seq<Pair>)
    requires CheckCallback(cfg, signed, now, pairs).Err?
    ensures AppliesToCallback(cfg, signed, now, pairs, CheckCallback(cfg, signed, now, pairs).error)
  {
  }

  lemma CallbackStops(cfg: Config, signed: set<string>, now: U64, pairs: seq<Pair>, r: Refusal)
    requires AppliesToCallback(cfg, signed, now, pairs, r)
    ensures CheckCallback(cfg, signed, now, pairs).Err? && Rank(CheckCallback(cfg, signed, now, pairs).error) <= Rank(r)
  {
  }

  lemma CallbackRefusedExactly(cfg: Config, signed: set<string>, now: U64, pairs: seq<Pair>, r: Refusal)
    ensures CheckCallback(cfg, signed, now, pairs) == Err(r)
       <==> IsFirst(o => AppliesToCallback(cfg, signed, now, pairs, o), r)
  {
    var outcome := CheckCallback(cfg, signed, now, pairs);
    if outcome.Err? { CallbackReason(cfg, signed, now, pairs); }
    forall o | AppliesToCallback(cfg, signed, now, pairs, o) ensures outcome.Err? && Rank(outcome.error) <= Rank(o) {
      CallbackStops(cfg, signed, now, pairs, o);
    }
    FirstExactly(outcome, o => AppliesToCallback(cfg, signed, now, pairs, o), r);
  }

  // ---- token ----

  lemma TokenReason(cfg: Config, signed: set<string>, now: U64, pairs: seq<Pair>)
    requires CheckToken(cfg, signed, now, pairs).Err?
    ensures AppliesToToken(cfg, signed, now, pairs, CheckToken(cfg, signed, now, pairs).error)
  {
    ExactlyOneIs(pairs, "client_id", cfg.clientId);
    ExactlyOneIs(pairs, "grant_type", "authorization_code");
    ExactlyOneIs(pairs, "grant_type", "refresh_token");
    if |Values(pairs, "code_verifier")| == 1 { VerifierExactly(Values(pairs, "code_verifier")[0]); }
  }

  lemma ExchangeStops(cfg: Config, signed: set<string>, now: U64, pairs: seq<Pair>, r: Refusal)
    requires AppliesToExchange(cfg, signed, now, pairs, r)
    ensures var outcome := CheckExchange(cfg, signed, now, pairs);
            outcome.Err? && 5 <= Rank(outcome.error) <= Rank(r)
  {
    if |Values(pairs, "code_verifier")| == 1 { VerifierExactly(Values(pairs, "code_verifier")[0]); }
  }

  lemma TokenStops(cfg: Config, signed: set<string>, now: U64, pairs: seq<Pair>, r: Refusal)
    requires AppliesToToken(cfg, signed, now, pairs, r)
    ensures CheckToken(cfg, signed, now, pairs).Err? && Rank(CheckToken(cfg, signed, now, pairs).error) <= Rank(r)
  {
    ExactlyOneIs(pairs, "client_id", cfg.clientId);
    ExactlyOneIs(pairs, "grant_type", "authorization_code");
    ExactlyOneIs(pairs, "grant_type", "refresh_token");
    if AppliesToExchange(cfg, signed, now, pairs, r) { ExchangeStops(cfg, signed, now, pairs, r); }
  }

  lemma TokenRefusedExactly(cfg: Config, signed: set<string>, now: U64, pairs: seq<Pair>, r: Refusal)
    ensures CheckToken(cfg, signed, now, pairs) == Err(r)
       <==> IsFirst(o => AppliesToToken(cfg, signed, now, pairs, o), r)
  {
    var outcome := CheckToken(cfg, signed, now, pairs);
    if outcome.Err? { TokenReason(cfg, signed, now, pairs); }
    forall o | AppliesToToken(cfg, signed, now, pairs, o) ensures outcome.Err? && Rank(outcome.error) <= Rank(o) {
      TokenStops(cfg, signed, now, pairs, o);
    }
    FirstExactly(outcome, o => AppliesToToken(cfg, signed, now, pairs, o), r);
  }
}
