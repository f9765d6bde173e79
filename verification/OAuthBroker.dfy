/** The OAuth broker of `src/oauth_proxy.rs`: what each endpoint checks, signs and sends on.

    The broker keeps no session. What it must remember it signs and hands to the client;
    the keyed hash is idealised through the set of messages this key has signed. */
module OAuthBroker {
  import opened Wrappers
  import Signing
  import opened Texts
  import opened Words

  const PENDING_TTL: nat := 600
  const SKEW: nat := 60
  const MAX_CLIENT_STATE_BYTES: nat := 4096
  const MAX_UPSTREAM_CODE_BYTES: nat := 8192

  datatype Pair = Pair(key: string, value: string)

  datatype Pending = Pending(redirectUri: string, clientState: Option<string>, challenge: string, issuedAt: U64)

  datatype PendingCode = PendingCode(upstreamCode: string, redirectUri: string, challenge: string, issuedAt: U64)

  /** Settings, and the foreign code the broker calls: the redirect allowlist, URL parsing,
      scope and resource matching, SHA-256, HMAC, base64 and JSON. */
  datatype Config = Config(
    clientId: string,
    callbackUrl: string,
    mcpResource: string,
    allowed: string -> bool,
    parsesAsUrl: string -> bool,
    ownResource: string -> bool,
    rewriteScope: string -> string,
    s256: string -> string,
    mac: string -> string,
    encode: string -> string,
    decode: string -> Option<string>,
    writePending: Pending -> string,
    readPending: string -> Option<Pending>,
    writeCode: PendingCode -> string,
    readCode: string -> Option<PendingCode>)

  /** Base64 and JSON decode what they encoded; base64 has no dot. */
  ghost predicate Lawful(cfg: Config) {
    && (forall x :: cfg.decode(cfg.encode(x)) == Some(x))
    && (forall x :: '.' !in cfg.encode(x))
    && (forall p :: cfg.readPending(cfg.writePending(p)) == Some(p))
    && (forall c :: cfg.readCode(cfg.writeCode(c)) == Some(c))
  }

  // ---- Signed blobs ----

  datatype Tag = StateTag | CodeTag

  function Covered(tag: Tag, payload: string): string {
    match tag
    case StateTag => Signing.StateMessage(payload)
    case CodeTag => Signing.CodeMessage(payload)
  }

  function Seal(cfg: Config, tag: Tag, payload: string): string {
    cfg.encode(payload) + "." + cfg.encode(cfg.mac(Covered(tag, payload)))
  }

  /** `split_once('.')`. */
  function SplitOnce(s: string): (r: Option<(string, string)>)
    ensures r.Some? <==> '.' in s
  {
    if s == "" then None
    else if s[0] == '.' then Some(("", s[1..]))
    else
      match SplitOnce(s[1..])
      case None => None
      case Some((a, b)) => Some(([s[0]] + a, b))
  }

  /** A blob opens only when its signature is that of a message this key has signed. */
  function Unseal(cfg: Config, signed: set<string>, tag: Tag, blob: string): Option<string> {
    match SplitOnce(blob)
    case None => None
    case Some((first, second)) =>
      match (cfg.decode(first), cfg.decode(second))
      case (Some(payload), Some(signature)) =>
        if Covered(tag, payload) in signed && signature == cfg.mac(Covered(tag, payload)) then Some(payload) else None
      case _ => None
  }

  predicate Fresh(issuedAt: U64, now: U64) {
    issuedAt <= SaturatingAdd(now, SKEW) && SaturatingSub(now, issuedAt) < PENDING_TTL
  }

  function DecodeState(cfg: Config, signed: set<string>, blob: string, now: U64): Option<Pending> {
    match Unseal(cfg, signed, StateTag, blob)
    case None => None
    case Some(payload) =>
      match cfg.readPending(payload)
      case None => None
      case Some(p) => if Fresh(p.issuedAt, now) then Some(p) else None
  }

  function DecodeCode(cfg: Config, signed: set<string>, blob: string, now: U64): Option<PendingCode> {
    match Unseal(cfg, signed, CodeTag, blob)
    case None => None
    case Some(payload) =>
      match cfg.readCode(payload)
      case None => None
      case Some(c) => if Fresh(c.issuedAt, now) then Some(c) else None
  }

  // ---- Checks ----

  function Values(pairs: seq<Pair>, name: string): seq<string> {
    if pairs == [] then []
    else (if pairs[0].key == name then [pairs[0].value] else []) + Values(pairs[1..], name)
  }

  /** `exactly_one`: a repeated parameter counts as missing. */
  function ExactlyOne(pairs: seq<Pair>, name: string): Option<string> {
    var values := Values(pairs, name);
    if |values| == 1 then Some(values[0]) else None
  }

  predicate ValidChallenge(s: string) {
    ByteLength(s) == 43 && forall c | c in s :: IsAlphanumeric(c) || c in {'-', '_'}
  }

  predicate ValidVerifier(s: string) {
    43 <= ByteLength(s) <= 128 && forall c | c in s :: IsAlphanumeric(c) || c in {'-', '.', '_', '~'}
  }

  datatype Refusal =
    | ClientIdMissing | ClientUnregistered | BadResponseType | RedirectMissing | RedirectUnregistered
    | StateDuplicated | StateTooLong | ChallengeMissing | ChallengeInvalid
    | StateMissing | StateUnknown | RedirectUnparsable | CodeTooLong
    | GrantMissing | GrantUnsupported | CodeMissing | VerifierMissing | VerifierInvalid
    | CodeUnknown | BindingMismatch

  /** What `authorize` signs, or why it refuses. */
  function CheckAuthorize(cfg: Config, now: U64, pairs: seq<Pair>): Result<Pending, Refusal> {
    var redirect := ExactlyOne(pairs, "redirect_uri");
    var states := Values(pairs, "state");
    var state := if |states| == 0 then None else ExactlyOne(pairs, "state");
    var challenge := ExactlyOne(pairs, "code_challenge");
    if ExactlyOne(pairs, "client_id").None? then Err(ClientIdMissing)
    else if ExactlyOne(pairs, "client_id") != Some(cfg.clientId) then Err(ClientUnregistered)
    else if ExactlyOne(pairs, "response_type") != Some("code") then Err(BadResponseType)
    else if redirect.None? then Err(RedirectMissing)
    else if !cfg.allowed(redirect.value) then Err(RedirectUnregistered)
    else if |states| > 1 then Err(StateDuplicated)
    else if state.Some? && ByteLength(state.value) > MAX_CLIENT_STATE_BYTES then Err(StateTooLong)
    else if challenge.None? then Err(ChallengeMissing)
    else if !ValidChallenge(challenge.value) || ExactlyOne(pairs, "code_challenge_method") != Some("S256") then
      Err(ChallengeInvalid)
    else Ok(Pending(redirect.value, state, challenge.value, now))
  }

  /** What `callback` knows and, when there is a code, what it signs. */
  function CheckCallback(cfg: Config, signed: set<string>, now: U64, pairs: seq<Pair>)
    : Result<(Pending, Option<PendingCode>), Refusal>
  {
    var state := ExactlyOne(pairs, "state");
    var code := ExactlyOne(pairs, "code");
    if state.None? then Err(StateMissing)
    else
      match DecodeState(cfg, signed, state.value, now)
      case None => Err(StateUnknown)
      case Some(p) =>
        if !cfg.parsesAsUrl(p.redirectUri) then Err(RedirectUnparsable)
        else if code.None? then Ok((p, None))
        else if ByteLength(code.value) > MAX_UPSTREAM_CODE_BYTES then Err(CodeTooLong)
        else Ok((p, Some(PendingCode(code.value, p.redirectUri, p.challenge, now))))
  }

  /** What an exchange must show for a code to be found. */
  function CheckExchange(cfg: Config, signed: set<string>, now: U64, pairs: seq<Pair>): Result<PendingCode, Refusal> {
    var redirect := ExactlyOne(pairs, "redirect_uri");
    var code := ExactlyOne(pairs, "code");
    var verifier := ExactlyOne(pairs, "code_verifier");
    if redirect.None? then Err(RedirectMissing)
    else if !cfg.allowed(redirect.value) then Err(RedirectUnregistered)
    else if code.None? then Err(CodeMissing)
    else if verifier.None? then Err(VerifierMissing)
    else if !ValidVerifier(verifier.value) then Err(VerifierInvalid)
    else
      match DecodeCode(cfg, signed, code.value, now)
      case None => Err(CodeUnknown)
      case Some(c) =>
        if c.redirectUri != redirect.value || cfg.s256(verifier.value) != c.challenge then Err(BindingMismatch)
        else Ok(c)
  }

  /** The grant `token` found behind a code; none for a refresh. */
  function CheckToken(cfg: Config, signed: set<string>, now: U64, pairs: seq<Pair>)
    : Result<Option<PendingCode>, Refusal>
  {
    var grant := ExactlyOne(pairs, "grant_type");
    if ExactlyOne(pairs, "client_id").None? then Err(ClientIdMissing)
    else if ExactlyOne(pairs, "client_id") != Some(cfg.clientId) then Err(ClientUnregistered)
    else if grant.None? then Err(GrantMissing)
    else if grant.value !in {"authorization_code", "refresh_token"} then Err(GrantUnsupported)
    else if grant.value == "refresh_token" then Ok(None)
    else
      match CheckExchange(cfg, signed, now, pairs)
      case Err(e) => Err(e)
      case Ok(c) => Ok(Some(c))
  }

  // ---- What is sent on ----

  function Others(pairs: seq<Pair>, name: string): seq<Pair> {
    if pairs == [] then []
    else (if pairs[0].key == name then [] else [pairs[0]]) + Others(pairs[1..], name)
  }

  predicate ForeignResource(cfg: Config, p: Pair) {
    p.key == "resource" && !cfg.ownResource(p.value)
  }

  predicate OwnResource(cfg: Config, p: Pair) {
    p.key == "resource" && cfg.ownResource(p.value)
  }

  /** One parameter on its way upstream; `own` replaces every parameter of its name. */
  function Rewritten(cfg: Config, own: Option<Pair>, p: Pair): Pair {
    if p.key == "redirect_uri" then Pair(p.key, cfg.callbackUrl)
    else if own.Some? && p.key == own.value.key then own.value
    else if p.key == "scope" then Pair(p.key, cfg.rewriteScope(p.value))
    else if OwnResource(cfg, p) then Pair(p.key, cfg.mcpResource)
    else p
  }

  function RewrittenAll(cfg: Config, own: Option<Pair>, pairs: seq<Pair>): (out: seq<Pair>)
    ensures |out| == |pairs|
  {
    seq(|pairs|, i requires 0 <= i < |pairs| => Rewritten(cfg, own, pairs[i]))
  }

  predicate HasKey(pairs: seq<Pair>, name: string) {
    exists p | p in pairs :: p.key == name
  }

  predicate HasForeign(cfg: Config, pairs: seq<Pair>) {
    exists p | p in pairs :: ForeignResource(cfg, p)
  }

  predicate HasOwn(cfg: Config, pairs: seq<Pair>) {
    exists p | p in pairs :: OwnResource(cfg, p)
  }

  /** A single foreign resource drops them all. */
  function Kept(cfg: Config, own: Option<Pair>, pairs: seq<Pair>): seq<Pair> {
    var rewritten := RewrittenAll(cfg, own, pairs);
    if HasForeign(cfg, pairs) then Others(rewritten, "resource") else rewritten
  }

  /** One parameter, unless it is there already. */
  function Missing(there: bool, p: Pair): seq<Pair> {
    if there then [] else [p]
  }

  function AuthorizePairs(cfg: Config, pairs: seq<Pair>, proxyState: string): seq<Pair> {
    Kept(cfg, Some(Pair("state", proxyState)), pairs)
    + Missing(HasKey(pairs, "state"), Pair("state", proxyState))
    + Missing(HasKey(pairs, "scope"), Pair("scope", cfg.rewriteScope("")))
    + Missing(HasOwn(cfg, pairs), Pair("resource", cfg.mcpResource))
  }

  function TokenPairs(cfg: Config, pairs: seq<Pair>, grant: Option<PendingCode>): seq<Pair> {
    match grant
    case Some(c) => Kept(cfg, Some(Pair("code", c.upstreamCode)), pairs)
    case None =>
      Kept(cfg, None, pairs) + Missing(HasKey(pairs, "scope"), Pair("scope", cfg.rewriteScope("")))
  }

  lemma HasStep(cfg: Config, pairs: seq<Pair>, i: nat)
    requires i < |pairs|
    ensures HasKey(pairs[..i + 1], "state") <==> HasKey(pairs[..i], "state") || pairs[i].key == "state"
    ensures HasKey(pairs[..i + 1], "scope") <==> HasKey(pairs[..i], "scope") || pairs[i].key == "scope"
    ensures HasOwn(cfg, pairs[..i + 1]) <==> HasOwn(cfg, pairs[..i]) || OwnResource(cfg, pairs[i])
    ensures HasForeign(cfg, pairs[..i + 1]) <==> HasForeign(cfg, pairs[..i]) || ForeignResource(cfg, pairs[i])
  {
    var before, after := pairs[..i], pairs[..i + 1];
    assert after == before + [pairs[i]];
    assert pairs[i] in after;
    assert forall p :: p in before ==> p in after;
  }

  /** The loop's progress: what is done, what is left, and what was seen. */
  predicate Halfway(cfg: Config, own: Option<Pair>, query: seq<Pair>, pairs: seq<Pair>, i: nat) {
    && |pairs| == |query| && i <= |query|
    && (forall j :: 0 <= j < i ==> pairs[j] == Rewritten(cfg, own, query[j]))
    && (forall j :: i <= j < |query| ==> pairs[j] == query[j])
  }

  lemma HalfwayStep(cfg: Config, own: Option<Pair>, query: seq<Pair>, pairs: seq<Pair>, i: nat)
    requires i < |query| && Halfway(cfg, own, query, pairs, i)
    ensures Halfway(cfg, own, query, pairs[i := Rewritten(cfg, own, query[i])], i + 1)
    ensures pairs[i] == query[i]
    ensures Rewritten(cfg, own, query[i]) == query[i] ==> Halfway(cfg, own, query, pairs, i + 1)
  {
  }

  lemma HalfwayDone(cfg: Config, own: Option<Pair>, query: seq<Pair>, pairs: seq<Pair>)
    requires Halfway(cfg, own, query, pairs, |query|)
    ensures pairs == RewrittenAll(cfg, own, query) && query[..|query|] == query
  {
  }

  /** The rewriting loop of `authorize`, in place over the parsed query. */
  method RewriteQuery(cfg: Config, query: seq<Pair>, proxyState: string)
    returns (pairs: seq<Pair>, sawState: bool, sawScope: bool, sawResource: bool, dropResource: bool)
    ensures pairs == RewrittenAll(cfg, Some(Pair("state", proxyState)), query)
    ensures sawState == HasKey(query, "state") && sawScope == HasKey(query, "scope")
    ensures sawResource == HasOwn(cfg, query) && dropResource == HasForeign(cfg, query)
  {
    pairs := query;
    ghost var own := Some(Pair("state", proxyState));
    sawState, sawScope, sawResource, dropResource := false, false, false, false;
    for i := 0 to |query|
      invariant Halfway(cfg, own, query, pairs, i)
      invariant sawState == HasKey(query[..i], "state") && sawScope == HasKey(query[..i], "scope")
      invariant sawResource == HasOwn(cfg, query[..i]) && dropResource == HasForeign(cfg, query[..i])
    {
      HasStep(cfg, query, i);
      HalfwayStep(cfg, own, query, pairs, i);
      var p := pairs[i];
      assert p == query[i];
      if p.key == "redirect_uri" {
        pairs := pairs[i := Pair(p.key, cfg.callbackUrl)];
      } else if p.key == "state" {
        pairs := pairs[i := Pair(p.key, proxyState)];
        sawState := true;
      } else if p.key == "scope" {
        pairs := pairs[i := Pair(p.key, cfg.rewriteScope(p.value))];
        sawScope := true;
      } else if p.key == "resource" {
        if cfg.ownResource(p.value) {
          pairs := pairs[i := Pair(p.key, cfg.mcpResource)];
          sawResource := true;
        } else {
          dropResource := true;
        }
      }
    }
    HalfwayDone(cfg, own, query, pairs);
  }

  /** What `authorize` sends on: the rewritten query, and what was missing from it. */
  method ForwardAuthorize(cfg: Config, query: seq<Pair>, proxyState: string) returns (pairs: seq<Pair>)
    ensures pairs == AuthorizePairs(cfg, query, proxyState)
  {
    var sawState, sawScope, sawResource, dropResource;
    pairs, sawState, sawScope, sawResource, dropResource := RewriteQuery(cfg, query, proxyState);
    if dropResource {
      pairs := Others(pairs, "resource");
    }
    if !sawState {
      pairs := pairs + [Pair("state", proxyState)];
    }
    if !sawScope {
      pairs := pairs + [Pair("scope", cfg.rewriteScope(""))];
    }
    if !sawResource {
      pairs := pairs + [Pair("resource", cfg.mcpResource)];
    }
  }

  /** The rewriting loop of `token`. */
  method ForwardToken(cfg: Config, form: seq<Pair>, grant: Option<PendingCode>) returns (pairs: seq<Pair>)
    ensures pairs == TokenPairs(cfg, form, grant)
  {
    pairs := form;
    ghost var own := if grant.Some? then Some(Pair("code", grant.value.upstreamCode)) else None;
    var sawScope, dropResource := false, false;
    for i := 0 to |form|
      invariant Halfway(cfg, own, form, pairs, i)
      invariant sawScope == HasKey(form[..i], "scope") && dropResource == HasForeign(cfg, form[..i])
    {
      HasStep(cfg, form, i);
      HalfwayStep(cfg, own, form, pairs, i);
      var p := pairs[i];
      if p.key == "redirect_uri" {
        pairs := pairs[i := Pair(p.key, cfg.callbackUrl)];
      } else if p.key == "code" && grant.Some? {
        pairs := pairs[i := Pair(p.key, grant.value.upstreamCode)];
      } else if p.key == "scope" {
        pairs := pairs[i := Pair(p.key, cfg.rewriteScope(p.value))];
        sawScope := true;
      } else if p.key == "resource" {
        if cfg.ownResource(p.value) {
          pairs := pairs[i := Pair(p.key, cfg.mcpResource)];
        } else {
          dropResource := true;
        }
      }
    }
    HalfwayDone(cfg, own, form, pairs);
    if dropResource {
      pairs := Others(pairs, "resource");
    }
    if !sawScope && grant.None? {
      pairs := pairs + [Pair("scope", cfg.rewriteScope(""))];
    }
  }

  // ---- What upstream gets to see ----

  lemma {:induction false} ValuesConcat(a: seq<Pair>, b: seq<Pair>, name: string)
    ensures Values(a + b, name) == Values(a, name) + Values(b, name)
  {
    if a == [] {
      assert a + b == b;
    } else {
      assert (a + b)[1..] == a[1..] + b;
      ValuesConcat(a[1..], b, name);
    }
  }

  lemma {:induction false} HasValues(pairs: seq<Pair>, name: string)
    ensures HasKey(pairs, name) <==> Values(pairs, name) != []
    ensures forall v :: v in Values(pairs, name) <==> Pair(name, v) in pairs
  {
    if pairs != [] {
      HasValues(pairs[1..], name);
      assert pairs == [pairs[0]] + pairs[1..];
    }
  }

  lemma {:induction false} ValuesOfOthers(pairs: seq<Pair>, dropped: string, name: string)
    ensures Values(Others(pairs, dropped), name) == if name == dropped then [] else Values(pairs, name)
  {
    if pairs != [] {
      ValuesOfOthers(pairs[1..], dropped, name);
      var first := if pairs[0].key == dropped then [] else [pairs[0]];
      ValuesConcat(first, Others(pairs[1..], dropped), name);
    }
  }

  function RewrittenValues(cfg: Config, own: Option<Pair>, name: string, values: seq<string>): seq<string> {
    seq(|values|, i requires 0 <= i < |values| => Rewritten(cfg, own, Pair(name, values[i])).value)
  }

  lemma RewrittenFirst(cfg: Config, own: Option<Pair>, p: Pair, rest: seq<string>)
    ensures Rewritten(cfg, own, p).key == p.key
    ensures RewrittenValues(cfg, own, p.key, [p.value] + rest)
         == [Rewritten(cfg, own, p).value] + RewrittenValues(cfg, own, p.key, rest)
  {
    assert p == Pair(p.key, p.value);
  }

  lemma {:induction false} ValuesOfRewritten(cfg: Config, own: Option<Pair>, pairs: seq<Pair>, name: string)
    ensures Values(RewrittenAll(cfg, own, pairs), name) == RewrittenValues(cfg, own, name, Values(pairs, name))
  {
    if pairs != [] {
      ValuesOfRewritten(cfg, own, pairs[1..], name);
      assert RewrittenAll(cfg, own, pairs)[1..] == RewrittenAll(cfg, own, pairs[1..]);
      RewrittenFirst(cfg, own, pairs[0], Values(pairs[1..], name));
    }
  }

  lemma ValuesOfKept(cfg: Config, own: Option<Pair>, pairs: seq<Pair>, name: string)
    ensures (Values(Kept(cfg, own, pairs), name)
             == if name == "resource" && HasForeign(cfg, pairs) then []
                else RewrittenValues(cfg, own, name, Values(pairs, name)))
  {
    ValuesOfRewritten(cfg, own, pairs, name);
    ValuesOfOthers(RewrittenAll(cfg, own, pairs), "resource", name);
  }

  lemma ValuesOfMissing(there: bool, p: Pair, name: string)
    ensures Values(Missing(there, p), name) == if name == p.key && !there then [p.value] else []
  {
  }

  lemma ValuesOfAuthorize(cfg: Config, pairs: seq<Pair>, proxyState: string, name: string)
    ensures (Values(AuthorizePairs(cfg, pairs, proxyState), name)
             == Values(Kept(cfg, Some(Pair("state", proxyState)), pairs), name)
                + (if name == "state" && !HasKey(pairs, "state") then [proxyState] else [])
                + (if name == "scope" && !HasKey(pairs, "scope") then [cfg.rewriteScope("")] else [])
                + (if name == "resource" && !HasOwn(cfg, pairs) then [cfg.mcpResource] else []))
  {
    var kept := Kept(cfg, Some(Pair("state", proxyState)), pairs);
    var state, scope := Pair("state", proxyState), Pair("scope", cfg.rewriteScope(""));
    var resource := Pair("resource", cfg.mcpResource);
    ValuesOfMissing(HasKey(pairs, "state"), state, name);
    ValuesOfMissing(HasKey(pairs, "scope"), scope, name);
    ValuesOfMissing(HasOwn(cfg, pairs), resource, name);
    ValuesOfFour(kept, Missing(HasKey(pairs, "state"), state), Missing(HasKey(pairs, "scope"), scope),
                 Missing(HasOwn(cfg, pairs), resource), name);
  }

  lemma ValuesOfFour(a: seq<Pair>, b: seq<Pair>, c: seq<Pair>, d: seq<Pair>, name: string)
    ensures Values(a + b + c + d, name) == Values(a, name) + Values(b, name) + Values(c, name) + Values(d, name)
  {
    ValuesConcat(a, b, name);
    ValuesConcat(a + b, c, name);
    ValuesConcat(a + b + c, d, name);
  }

  lemma AuthorizeForwardsOther(cfg: Config, pairs: seq<Pair>, proxyState: string, name: string)
    requires name !in {"redirect_uri", "state", "scope", "resource"}
    ensures Values(AuthorizePairs(cfg, pairs, proxyState), name) == Values(pairs, name)
  {
    var own := Some(Pair("state", proxyState));
    ValuesOfAuthorize(cfg, pairs, proxyState, name);
    ValuesOfKept(cfg, own, pairs, name);
    assert RewrittenValues(cfg, own, name, Values(pairs, name)) == Values(pairs, name);
  }

  lemma AuthorizeForwardsState(cfg: Config, pairs: seq<Pair>, proxyState: string)
    requires |Values(pairs, "state")| <= 1
    ensures Values(AuthorizePairs(cfg, pairs, proxyState), "state") == [proxyState]
  {
    HasValues(pairs, "state");
    ValuesOfAuthorize(cfg, pairs, proxyState, "state");
    ValuesOfKept(cfg, Some(Pair("state", proxyState)), pairs, "state");
  }

  lemma AuthorizeForwardsRedirect(cfg: Config, pairs: seq<Pair>, proxyState: string)
    requires |Values(pairs, "redirect_uri")| == 1
    ensures Values(AuthorizePairs(cfg, pairs, proxyState), "redirect_uri") == [cfg.callbackUrl]
  {
    ValuesOfAuthorize(cfg, pairs, proxyState, "redirect_uri");
    ValuesOfKept(cfg, Some(Pair("state", proxyState)), pairs, "redirect_uri");
  }

  /** Upstream sees one redirect URI, the broker's own, and one state, the broker's blob;
      everything not named here arrives as the client sent it. */
  lemma AuthorizeForwardsItsOwnCallback(cfg: Config, now: U64, pairs: seq<Pair>, proxyState: string, name: string)
    requires CheckAuthorize(cfg, now, pairs).Ok?
    ensures Values(AuthorizePairs(cfg, pairs, proxyState), "redirect_uri") == [cfg.callbackUrl]
    ensures Values(AuthorizePairs(cfg, pairs, proxyState), "state") == [proxyState]
    ensures name !in {"redirect_uri", "state", "scope", "resource"} ==>
              Values(AuthorizePairs(cfg, pairs, proxyState), name) == Values(pairs, name)
  {
    AuthorizeForwardsRedirect(cfg, pairs, proxyState);
    AuthorizeForwardsState(cfg, pairs, proxyState);
    if name !in {"redirect_uri", "state", "scope", "resource"} {
      AuthorizeForwardsOther(cfg, pairs, proxyState, name);
    }
  }

  lemma ResourceValues(cfg: Config, pairs: seq<Pair>, own: Option<Pair>)
    requires !HasForeign(cfg, pairs) && (own.Some? ==> own.value.key != "resource")
    ensures forall v :: v in RewrittenValues(cfg, own, "resource", Values(pairs, "resource")) ==> v == cfg.mcpResource
    ensures RewrittenValues(cfg, own, "resource", Values(pairs, "resource")) == [] <==> !HasOwn(cfg, pairs)
  {
    var given := Values(pairs, "resource");
    HasValues(pairs, "resource");
    forall i | 0 <= i < |given|
      ensures cfg.ownResource(given[i]) && HasOwn(cfg, pairs)
    {
      assert Pair("resource", given[i]) in pairs;
      assert !ForeignResource(cfg, Pair("resource", given[i]));
      assert OwnResource(cfg, Pair("resource", given[i]));
    }
    if HasOwn(cfg, pairs) {
      var p :| p in pairs && OwnResource(cfg, p);
      assert p == Pair("resource", p.value);
    }
  }

  /** No other resource than ours is ever asked for; ours is asked for unless the client
      named both ours and a foreign one, when the retained flag keeps it from being put
      back. */
  lemma AuthorizeResourceExactly(cfg: Config, pairs: seq<Pair>, proxyState: string)
    ensures forall v :: v in Values(AuthorizePairs(cfg, pairs, proxyState), "resource") ==> v == cfg.mcpResource
    ensures Values(AuthorizePairs(cfg, pairs, proxyState), "resource") == [] <==>
              HasForeign(cfg, pairs) && HasOwn(cfg, pairs)
  {
    var own := Some(Pair("state", proxyState));
    ValuesOfAuthorize(cfg, pairs, proxyState, "resource");
    ValuesOfKept(cfg, own, pairs, "resource");
    if !HasForeign(cfg, pairs) {
      ResourceValues(cfg, pairs, own);
    }
  }

  /** An exchanged code goes upstream as the code behind it, with the broker's callback and
      the client's own verifier. */
  lemma TokenForwardsTheUpstreamCode(cfg: Config, signed: set<string>, now: U64, pairs: seq<Pair>)
    requires CheckToken(cfg, signed, now, pairs).Ok? && CheckToken(cfg, signed, now, pairs).value.Some?
    ensures (match CheckToken(cfg, signed, now, pairs).value
             case Some(c) =>
               && Values(TokenPairs(cfg, pairs, Some(c)), "code") == [c.upstreamCode]
               && Values(TokenPairs(cfg, pairs, Some(c)), "redirect_uri") == [cfg.callbackUrl]
               && Values(TokenPairs(cfg, pairs, Some(c)), "code_verifier") == Values(pairs, "code_verifier")
             case None => false)
  {
    var c := CheckToken(cfg, signed, now, pairs).value.value;
    var own := Some(Pair("code", c.upstreamCode));
    ValuesOfKept(cfg, own, pairs, "code");
    ValuesOfKept(cfg, own, pairs, "redirect_uri");
    ValuesOfKept(cfg, own, pairs, "code_verifier");
    var verifiers := Values(pairs, "code_verifier");
    assert RewrittenValues(cfg, own, "code_verifier", verifiers) == verifiers;
  }

  /** The token request names our resource when only ours was named, and none otherwise. */
  lemma TokenResourceExactly(cfg: Config, pairs: seq<Pair>, grant: Option<PendingCode>)
    ensures forall v :: v in Values(TokenPairs(cfg, pairs, grant), "resource") ==> v == cfg.mcpResource
    ensures Values(TokenPairs(cfg, pairs, grant), "resource") == [] <==>
              HasForeign(cfg, pairs) || !HasOwn(cfg, pairs)
  {
    var own := if grant.Some? then Some(Pair("code", grant.value.upstreamCode)) else None;
    ValuesOfKept(cfg, own, pairs, "resource");
    if grant.None? {
      ValuesConcat(Kept(cfg, own, pairs), TokenPairs(cfg, pairs, grant)[|Kept(cfg, own, pairs)|..], "resource");
      assert TokenPairs(cfg, pairs, grant)
             == Kept(cfg, own, pairs) + TokenPairs(cfg, pairs, grant)[|Kept(cfg, own, pairs)|..];
    }
    if !HasForeign(cfg, pairs) {
      ResourceValues(cfg, pairs, own);
    }
  }

  // ---- Scopes and the rest ----

  lemma ScopeValues(cfg: Config, own: Option<Pair>, pairs: seq<Pair>)
    requires own.Some? ==> own.value.key in {"state", "code"}
    ensures Values(Kept(cfg, own, pairs), "scope") == Rescoped(cfg, Values(pairs, "scope"))
  {
    ValuesOfKept(cfg, own, pairs, "scope");
    assert RewrittenValues(cfg, own, "scope", Values(pairs, "scope")) == Rescoped(cfg, Values(pairs, "scope"));
  }

  function Rescoped(cfg: Config, scopes: seq<string>): seq<string> {
    seq(|scopes|, i requires 0 <= i < |scopes| => cfg.rewriteScope(scopes[i]))
  }

  /** Scopes are always the provider's: those asked for, each rewritten, or else what nothing
      is rewritten to. */
  lemma AuthorizeScopeExactly(cfg: Config, pairs: seq<Pair>, proxyState: string)
    ensures Values(AuthorizePairs(cfg, pairs, proxyState), "scope")
         == Rescoped(cfg, if Values(pairs, "scope") == [] then [""] else Values(pairs, "scope"))
  {
    ScopeValues(cfg, Some(Pair("state", proxyState)), pairs);
    ValuesOfAuthorize(cfg, pairs, proxyState, "scope");
    HasValues(pairs, "scope");
  }

  lemma ValuesOfToken(cfg: Config, pairs: seq<Pair>, grant: Option<PendingCode>, name: string)
    ensures Values(TokenPairs(cfg, pairs, grant), name)
         == Values(Kept(cfg, OwnCode(grant), pairs), name)
            + (if grant.None? && name == "scope" && !HasKey(pairs, "scope") then [cfg.rewriteScope("")] else [])
  {
    if grant.None? {
      var scope := Pair("scope", cfg.rewriteScope(""));
      ValuesConcat(Kept(cfg, None, pairs), Missing(HasKey(pairs, "scope"), scope), name);
      ValuesOfMissing(HasKey(pairs, "scope"), scope, name);
    } else {
      assert Values(TokenPairs(cfg, pairs, grant), name) + [] == Values(TokenPairs(cfg, pairs, grant), name);
    }
  }

  function OwnCode(grant: Option<PendingCode>): Option<Pair> {
    if grant.Some? then Some(Pair("code", grant.value.upstreamCode)) else None
  }

  lemma TokenForwardsOthers(cfg: Config, pairs: seq<Pair>, grant: Option<PendingCode>, name: string)
    requires name !in {"redirect_uri", "scope", "resource"} && (grant.Some? ==> name != "code")
    ensures Values(TokenPairs(cfg, pairs, grant), name) == Values(pairs, name)
  {
    ValuesOfToken(cfg, pairs, grant, name);
    ValuesOfKept(cfg, OwnCode(grant), pairs, name);
    assert RewrittenValues(cfg, OwnCode(grant), name, Values(pairs, name)) == Values(pairs, name);
  }

  lemma TokenRedirects(cfg: Config, pairs: seq<Pair>, grant: Option<PendingCode>)
    ensures forall v :: v in Values(TokenPairs(cfg, pairs, grant), "redirect_uri") ==> v == cfg.callbackUrl
  {
    ValuesOfToken(cfg, pairs, grant, "redirect_uri");
    ValuesOfKept(cfg, OwnCode(grant), pairs, "redirect_uri");
  }

  lemma TokenScope(cfg: Config, pairs: seq<Pair>, grant: Option<PendingCode>)
    ensures Values(TokenPairs(cfg, pairs, grant), "scope")
         == Rescoped(cfg, if grant.None? && Values(pairs, "scope") == [] then [""] else Values(pairs, "scope"))
  {
    ValuesOfToken(cfg, pairs, grant, "scope");
    ScopeValues(cfg, OwnCode(grant), pairs);
    HasValues(pairs, "scope");
  }

  /** A token request keeps every parameter the broker has no business with; its redirect URI,
      if any, is the broker's, and a refresh asks for a scope even when the client did not. */
  lemma TokenForwardsTheRest(cfg: Config, pairs: seq<Pair>, grant: Option<PendingCode>, name: string)
    ensures name !in {"redirect_uri", "scope", "resource"} && (grant.Some? ==> name != "code") ==>
              Values(TokenPairs(cfg, pairs, grant), name) == Values(pairs, name)
    ensures forall v :: v in Values(TokenPairs(cfg, pairs, grant), "redirect_uri") ==> v == cfg.callbackUrl
    ensures Values(TokenPairs(cfg, pairs, grant), "scope")
         == Rescoped(cfg, if grant.None? && Values(pairs, "scope") == [] then [""] else Values(pairs, "scope"))
  {
    if name !in {"redirect_uri", "scope", "resource"} && (grant.Some? ==> name != "code") {
      TokenForwardsOthers(cfg, pairs, grant, name);
    }
    TokenRedirects(cfg, pairs, grant);
    TokenScope(cfg, pairs, grant);
  }

  // ---- Who is let through ----

  /** The unpadded base64url alphabet of section 5 of RFC 4648. */
  predicate IsBase64Url(c: char) {
    'A' <= c <= 'Z' || 'a' <= c <= 'z' || '0' <= c <= '9' || c == '-' || c == '_'
  }

  /** `code-challenge` of a SHA-256 digest: 32 bytes take 43 characters. */
  predicate IsS256Challenge(s: string) {
    |s| == 43 && forall c | c in s :: IsBase64Url(c)
  }

  /** `code-verifier` of section 4.1 of RFC 7636. */
  predicate IsCodeVerifier(s: string) {
    43 <= |s| <= 128 && forall c | c in s :: IsBase64Url(c) || c == '.' || c == '~'
  }

  lemma {:induction false} AsciiBytes(s: string)
    requires forall c | c in s :: c < '\U{80}'
    ensures ByteLength(s) == |s|
  {
    if s != "" {
      assert forall c | c in s[1..] :: c in s;
      AsciiBytes(s[1..]);
      assert s[0] in s;
    }
  }

  lemma ChallengeExactly(s: string)
    ensures ValidChallenge(s) <==> IsS256Challenge(s)
  {
    if forall c | c in s :: c < '\U{80}' { AsciiBytes(s); }
  }

  lemma VerifierExactly(s: string)
    ensures ValidVerifier(s) <==> IsCodeVerifier(s)
  {
    if forall c | c in s :: c < '\U{80}' { AsciiBytes(s); }
  }

  /** Sixty seconds of clock skew and ten minutes of life. */
  predicate InTime(issuedAt: nat, now: nat) {
    issuedAt <= now + 60 && now < issuedAt + 600
  }

  lemma FreshExactly(issuedAt: U64, now: U64)
    ensures Fresh(issuedAt, now) <==> InTime(issuedAt, now)
  {
  }

  /** A parameter given once, with a value of some kind. */
  predicate Once(pairs: seq<Pair>, name: string, holds: string -> bool) {
    var values := Values(pairs, name);
    |values| == 1 && holds(values[0])
  }

  lemma ExactlyOneIs(pairs: seq<Pair>, name: string, value: string)
    ensures ExactlyOne(pairs, name) == Some(value) <==> Values(pairs, name) == [value]
  {
    var values := Values(pairs, name);
    if |values| == 1 { assert values == [values[0]]; }
  }

  lemma ShortStates(states: seq<string>, limit: nat)
    requires |states| <= 1
    ensures (forall v :: v in states ==> ByteLength(v) <= limit) <==> (|states| == 1 ==> ByteLength(states[0]) <= limit)
  {
    if |states| == 1 { assert states == [states[0]] && states[0] in states; }
  }

  /** `authorize` accepts exactly these requests: the registered client asking for a code, one
      allowed redirect URI, at most one state of at most 4096 bytes, and one S256 challenge of
      43 characters. */
  lemma AuthorizeExactly(cfg: Config, now: U64, pairs: seq<Pair>)
    ensures CheckAuthorize(cfg, now, pairs).Ok? <==>
              && Values(pairs, "client_id") == [cfg.clientId]
              && Values(pairs, "response_type") == ["code"]
              && Once(pairs, "redirect_uri", cfg.allowed)
              && |Values(pairs, "state")| <= 1
              && (forall v :: v in Values(pairs, "state") ==> ByteLength(v) <= 4096)
              && Once(pairs, "code_challenge", IsS256Challenge)
              && Values(pairs, "code_challenge_method") == ["S256"]
  {
    ExactlyOneIs(pairs, "client_id", cfg.clientId);
    ExactlyOneIs(pairs, "response_type", "code");
    ExactlyOneIs(pairs, "code_challenge_method", "S256");
    if |Values(pairs, "state")| <= 1 { ShortStates(Values(pairs, "state"), 4096); }
    if |Values(pairs, "code_challenge")| == 1 { ChallengeExactly(Values(pairs, "code_challenge")[0]); }
  }

  /** `callback` goes on with exactly these: one state that decodes, to a redirect URI that
      parses, and no code, several, or one of at most 8192 bytes. */
  lemma CallbackExactly(cfg: Config, signed: set<string>, now: U64, pairs: seq<Pair>, p: Pending)
    ensures (CheckCallback(cfg, signed, now, pairs).Ok? && CheckCallback(cfg, signed, now, pairs).value.0 == p) <==>
              && |Values(pairs, "state")| == 1 && DecodeState(cfg, signed, Values(pairs, "state")[0], now) == Some(p)
              && cfg.parsesAsUrl(p.redirectUri)
              && (|Values(pairs, "code")| == 1 ==> ByteLength(Values(pairs, "code")[0]) <= 8192)
    ensures CheckCallback(cfg, signed, now, pairs).Ok? ==>
              CheckCallback(cfg, signed, now, pairs).value.1
              == if |Values(pairs, "code")| != 1 then None
                 else var p := CheckCallback(cfg, signed, now, pairs).value.0;
                      Some(PendingCode(Values(pairs, "code")[0], p.redirectUri, p.challenge, now))
  {
  }

  /** `token` sends on exactly these: a refresh of the registered client ... */
  lemma RefreshExactly(cfg: Config, signed: set<string>, now: U64, pairs: seq<Pair>)
    ensures CheckToken(cfg, signed, now, pairs) == Ok(None) <==>
              Values(pairs, "client_id") == [cfg.clientId] && Values(pairs, "grant_type") == ["refresh_token"]
  {
    ExactlyOneIs(pairs, "client_id", cfg.clientId);
    ExactlyOneIs(pairs, "grant_type", "refresh_token");
  }

  /** ... or its exchange of a code that decodes, with the redirect URI the code is bound to
      and a verifier that hashes to its challenge. */
  lemma ExchangeExactly(cfg: Config, signed: set<string>, now: U64, pairs: seq<Pair>, c: PendingCode)
    ensures CheckToken(cfg, signed, now, pairs) == Ok(Some(c)) <==>
              && Values(pairs, "client_id") == [cfg.clientId]
              && Values(pairs, "grant_type") == ["authorization_code"]
              && Values(pairs, "redirect_uri") == [c.redirectUri] && cfg.allowed(c.redirectUri)
              && |Values(pairs, "code")| == 1 && DecodeCode(cfg, signed, Values(pairs, "code")[0], now) == Some(c)
              && Once(pairs, "code_verifier", IsCodeVerifier)
              && cfg.s256(Values(pairs, "code_verifier")[0]) == c.challenge
  {
    ExactlyOneIs(pairs, "client_id", cfg.clientId);
    ExactlyOneIs(pairs, "grant_type", "authorization_code");
    ExactlyOneIs(pairs, "redirect_uri", c.redirectUri);
    if |Values(pairs, "code_verifier")| == 1 { VerifierExactly(Values(pairs, "code_verifier")[0]); }
  }
}
