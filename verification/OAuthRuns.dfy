/** Whole runs of the OAuth broker: an upstream code leaves it only for the client that
    began the flow. Any number of flows interleave, and clocks may disagree. */
module OAuthRuns {
  import opened Wrappers
  import Signing
  import opened Texts
  import opened Words
  import opened OAuthBroker
  import opened Traces

  /** Requests as they arrive, each with the clock its handler reads; document links are
      signed with the same key. */
  datatype Request =
    | Authorize(now: U64, pairs: seq<Pair>)
    | Callback(now: U64, pairs: seq<Pair>)
    | Token(now: U64, pairs: seq<Pair>)
    | SignLink(tenant: string, id: string, expiresAt: nat)

  datatype Response =
    | Refused(reason: Refusal)
    | ToUpstream(query: seq<Pair>)
    | ToClient(uri: string, appended: seq<Pair>)
    | ToTokenEndpoint(form: seq<Pair>)
    | Link(signature: string)

  function StateBlob(cfg: Config, p: Pending): string {
    Seal(cfg, StateTag, cfg.writePending(p))
  }

  function CodeBlob(cfg: Config, c: PendingCode): string {
    Seal(cfg, CodeTag, cfg.writeCode(c))
  }

  function Append(name: string, value: Option<string>): seq<Pair> {
    if value.Some? then [Pair(name, value.value)] else []
  }

  function CallbackPairs(cfg: Config, pairs: seq<Pair>, p: Pending, c: Option<PendingCode>): seq<Pair> {
    (if c.Some? then [Pair("code", CodeBlob(cfg, c.value))] else [])
    + Append("error", ExactlyOne(pairs, "error"))
    + Append("error_description", ExactlyOne(pairs, "error_description"))
    + Append("state", p.clientState)
  }

  /** What a request is answered with, once `signed` holds what the key has signed. */
  function Respond(cfg: Config, signed: set<string>, rq: Request): Response {
    match rq
    case Authorize(now, pairs) =>
      (match CheckAuthorize(cfg, now, pairs)
       case Err(e) => Refused(e)
       case Ok(p) => ToUpstream(AuthorizePairs(cfg, pairs, StateBlob(cfg, p))))
    case Callback(now, pairs) =>
      (match CheckCallback(cfg, signed, now, pairs)
       case Err(e) => Refused(e)
       case Ok((p, c)) => ToClient(p.redirectUri, CallbackPairs(cfg, pairs, p, c)))
    case Token(now, pairs) =>
      (match CheckToken(cfg, signed, now, pairs)
       case Err(e) => Refused(e)
       case Ok(grant) => ToTokenEndpoint(TokenPairs(cfg, pairs, grant)))
    case SignLink(tenant, id, expiresAt) => Link(cfg.mac(Signing.Message(tenant, id, expiresAt)))
  }

  /** The messages answering a request signs. */
  function Signs(cfg: Config, signed: set<string>, rq: Request): set<string> {
    match rq
    case Authorize(now, pairs) =>
      (match CheckAuthorize(cfg, now, pairs)
       case Err(_) => {}
       case Ok(p) => {Covered(StateTag, cfg.writePending(p))})
    case Callback(now, pairs) =>
      (match CheckCallback(cfg, signed, now, pairs)
       case Ok((_, Some(c))) => {Covered(CodeTag, cfg.writeCode(c))}
       case _ => {})
    case Token(_, _) => {}
    case SignLink(tenant, id, expiresAt) => {Signing.Message(tenant, id, expiresAt)}
  }

  /** Everything the first `n` requests of a run sign. */
  function SignedBefore(cfg: Config, run: seq<Request>, n: nat): set<string>
    requires n <= |run|
  {
    Gathered((signed, rq) => Signs(cfg, signed, rq), run, n)
  }

  /** The `authorize` handler. */
  method AnswerAuthorize(cfg: Config, signed: set<string>, now: U64, query: seq<Pair>) returns (response: Response)
    ensures response == Respond(cfg, signed, Authorize(now, query))
  {
    var check := CheckAuthorize(cfg, now, query);
    if check.Err? {
      return Refused(check.error);
    }
    var pairs := ForwardAuthorize(cfg, query, StateBlob(cfg, check.value));
    response := ToUpstream(pairs);
  }

  /** The `token` handler, up to its request upstream. */
  method AnswerToken(cfg: Config, signed: set<string>, now: U64, form: seq<Pair>) returns (response: Response)
    ensures response == Respond(cfg, signed, Token(now, form))
  {
    var check := CheckToken(cfg, signed, now, form);
    if check.Err? {
      return Refused(check.error);
    }
    var pairs := ForwardToken(cfg, form, check.value);
    response := ToTokenEndpoint(pairs);
  }

  // ---- Where signed messages come from ----

  lemma SignedHasOrigin(cfg: Config, run: seq<Request>, n: nat, m: string) returns (i: nat)
    requires n <= |run| && m in SignedBefore(cfg, run, n)
    ensures i < n && m in Signs(cfg, SignedBefore(cfg, run, i), run[i])
  {
    i := GatheredHasOrigin((signed, rq) => Signs(cfg, signed, rq), run, n, m);
  }

  lemma SignedStays(cfg: Config, run: seq<Request>, i: nat, n: nat)
    requires i < n <= |run|
    ensures Signs(cfg, SignedBefore(cfg, run, i), run[i]) <= SignedBefore(cfg, run, n)
  {
    GatheredStays((signed, rq) => Signs(cfg, signed, rq), run, i, n);
  }

  lemma CoveredInjective(tag: Tag, a: string, b: string)
    requires Covered(tag, a) == Covered(tag, b)
    ensures a == b
  {
    if tag == StateTag {
      assert Covered(tag, a)[12..] == a && Covered(tag, b)[12..] == b;
    } else {
      assert Covered(tag, a)[11..] == a && Covered(tag, b)[11..] == b;
    }
  }

  /** A state that decodes was minted by an `authorize` of this run, for that request. */
  lemma StateHasOrigin(cfg: Config, run: seq<Request>, n: nat, blob: string, now: U64) returns (k: nat)
    requires n <= |run| && Lawful(cfg) && DecodeState(cfg, SignedBefore(cfg, run, n), blob, now).Some?
    ensures k < n && run[k].Authorize?
    ensures CheckAuthorize(cfg, run[k].now, run[k].pairs)
         == Ok(DecodeState(cfg, SignedBefore(cfg, run, n), blob, now).value)
  {
    var payload := Unseal(cfg, SignedBefore(cfg, run, n), StateTag, blob).value;
    k := SignedHasOrigin(cfg, run, n, Covered(StateTag, payload));
    match run[k] {
      case Authorize(at, pairs) =>
        var p := CheckAuthorize(cfg, at, pairs).value;
        CoveredInjective(StateTag, payload, cfg.writePending(p));
      case Callback(at, pairs) =>
        var c := CheckCallback(cfg, SignedBefore(cfg, run, k), at, pairs).value.1.value;
        Signing.MessagesDisjoint("", "", 0, payload, cfg.writeCode(c));
      case SignLink(tenant, id, expiresAt) =>
        Signing.MessagesDisjoint(tenant, id, expiresAt, payload, "");
    }
  }

  /** A code that decodes was minted by a `callback` of this run. */
  lemma CodeHasOrigin(cfg: Config, run: seq<Request>, n: nat, blob: string, now: U64) returns (j: nat, p: Pending)
    requires n <= |run| && Lawful(cfg) && DecodeCode(cfg, SignedBefore(cfg, run, n), blob, now).Some?
    ensures j < n && run[j].Callback?
    ensures (CheckCallback(cfg, SignedBefore(cfg, run, j), run[j].now, run[j].pairs)
             == Ok((p, Some(DecodeCode(cfg, SignedBefore(cfg, run, n), blob, now).value))))
  {
    var payload := Unseal(cfg, SignedBefore(cfg, run, n), CodeTag, blob).value;
    j := SignedHasOrigin(cfg, run, n, Covered(CodeTag, payload));
    match run[j] {
      case Authorize(at, pairs) =>
        var q := CheckAuthorize(cfg, at, pairs).value;
        Signing.MessagesDisjoint("", "", 0, cfg.writePending(q), payload);
      case Callback(at, pairs) =>
        var check := CheckCallback(cfg, SignedBefore(cfg, run, j), at, pairs).value;
        p := check.0;
        CoveredInjective(CodeTag, payload, cfg.writeCode(check.1.value));
      case SignLink(tenant, id, expiresAt) =>
        Signing.MessagesDisjoint(tenant, id, expiresAt, "", payload);
    }
  }

  // ---- Binding ----

  /** Request `k` began a flow with this redirect URI and challenge. */
  predicate Began(cfg: Config, rq: Request, redirectUri: string, challenge: string) {
    && rq.Authorize?
    && ExactlyOne(rq.pairs, "client_id") == Some(cfg.clientId)
    && ExactlyOne(rq.pairs, "redirect_uri") == Some(redirectUri) && cfg.allowed(redirectUri)
    && ExactlyOne(rq.pairs, "code_challenge") == Some(challenge) && IsS256Challenge(challenge)
    && ExactlyOne(rq.pairs, "code_challenge_method") == Some("S256")
  }

  /** A state as a blob of the broker for that very `authorize` request. */
  predicate StateOf(cfg: Config, signed: set<string>, state: string, began: Request)
    requires began.Authorize?
  {
    match (Unseal(cfg, signed, StateTag, state), CheckAuthorize(cfg, began.now, began.pairs))
    case (Some(payload), Ok(p)) => cfg.readPending(payload) == Some(p)
    case _ => false
  }

  /** The callback carried this upstream code and a state minted for `began`. */
  predicate CameBack(cfg: Config, signed: set<string>, rq: Request, began: Request, code: string)
    requires began.Authorize?
  {
    && rq.Callback?
    && ExactlyOne(rq.pairs, "code") == Some(code)
    && ExactlyOne(rq.pairs, "state").Some?
    && StateOf(cfg, signed, ExactlyOne(rq.pairs, "state").value, began)
  }

  predicate Exchanges(cfg: Config, run: seq<Request>, i: nat) {
    && i < |run| && run[i].Token?
    && ExactlyOne(run[i].pairs, "grant_type") == Some("authorization_code")
    && Respond(cfg, SignedBefore(cfg, run, i), run[i]).ToTokenEndpoint?
  }

  lemma AcceptedBegan(cfg: Config, rq: Request, p: Pending)
    requires rq.Authorize? && CheckAuthorize(cfg, rq.now, rq.pairs) == Ok(p)
    ensures Began(cfg, rq, p.redirectUri, p.challenge) && p.issuedAt == rq.now
  {
    ChallengeExactly(p.challenge);
  }

  lemma AcceptedCameBack(cfg: Config, signed: set<string>, rq: Request, began: Request, p: Pending, c: PendingCode)
    requires rq.Callback? && CheckCallback(cfg, signed, rq.now, rq.pairs) == Ok((p, Some(c)))
    requires began.Authorize? && CheckAuthorize(cfg, began.now, began.pairs) == Ok(p)
    ensures CameBack(cfg, signed, rq, began, c.upstreamCode)
    ensures c == PendingCode(c.upstreamCode, p.redirectUri, p.challenge, rq.now) && Fresh(p.issuedAt, rq.now)
  {
  }

  lemma AcceptedExchange(cfg: Config, signed: set<string>, rq: Request)
    requires rq.Token? && ExactlyOne(rq.pairs, "grant_type") == Some("authorization_code")
    requires Respond(cfg, signed, rq).ToTokenEndpoint?
    ensures ExactlyOne(rq.pairs, "redirect_uri").Some? && ExactlyOne(rq.pairs, "code_verifier").Some?
    ensures ExactlyOne(rq.pairs, "code").Some?
    ensures (CheckToken(cfg, signed, rq.now, rq.pairs)
             == Ok(DecodeCode(cfg, signed, ExactlyOne(rq.pairs, "code").value, rq.now)))
    ensures (match DecodeCode(cfg, signed, ExactlyOne(rq.pairs, "code").value, rq.now)
             case None => false
             case Some(c) =>
               && c.redirectUri == ExactlyOne(rq.pairs, "redirect_uri").value
               && c.challenge == cfg.s256(ExactlyOne(rq.pairs, "code_verifier").value)
               && Fresh(c.issuedAt, rq.now)
               && Respond(cfg, signed, rq) == ToTokenEndpoint(TokenPairs(cfg, rq.pairs, Some(c))))
  {
  }

  /** A code that decodes, traced back through its callback to the request that began it. */
  lemma CodeTraces(cfg: Config, run: seq<Request>, i: nat, blob: string, now: U64)
    returns (k: nat, j: nat, p: Pending, c: PendingCode)
    requires i <= |run| && Lawful(cfg) && DecodeCode(cfg, SignedBefore(cfg, run, i), blob, now).Some?
    ensures k < j < i && DecodeCode(cfg, SignedBefore(cfg, run, i), blob, now) == Some(c)
    ensures Began(cfg, run[k], p.redirectUri, p.challenge)
    ensures CameBack(cfg, SignedBefore(cfg, run, j), run[j], run[k], c.upstreamCode)
    ensures c == PendingCode(c.upstreamCode, p.redirectUri, p.challenge, run[j].now) && Fresh(run[k].now, run[j].now)
  {
    j, p := CodeHasOrigin(cfg, run, i, blob, now);
    c := DecodeCode(cfg, SignedBefore(cfg, run, i), blob, now).value;
    k := StateHasOrigin(cfg, run, j, ExactlyOne(run[j].pairs, "state").value, run[j].now);
    AcceptedBegan(cfg, run[k], p);
    AcceptedCameBack(cfg, SignedBefore(cfg, run, j), run[j], run[k], p, c);
  }

  lemma FreshTwice(a: U64, b: U64, c: U64)
    requires Fresh(a, b) && Fresh(b, c)
    ensures c - a < 2 * PENDING_TTL && a <= b + SKEW && b <= c + SKEW
  {
  }

  /** In any run, a code exchange that is sent on carries exactly the code an earlier
      callback received, for a state an earlier `authorize` minted, with the same redirect
      URI and a challenge the presented verifier hashes to; the three requests lie less
      than 1200 seconds apart by the clocks their handlers read. */
  lemma ExchangeIsBound(cfg: Config, run: seq<Request>, i: nat) returns (k: nat, j: nat, code: string)
    requires Lawful(cfg) && Exchanges(cfg, run, i)
    ensures k < j < i
    ensures ExactlyOne(run[i].pairs, "redirect_uri").Some? && ExactlyOne(run[i].pairs, "code_verifier").Some?
    ensures Began(cfg, run[k], ExactlyOne(run[i].pairs, "redirect_uri").value,
                  cfg.s256(ExactlyOne(run[i].pairs, "code_verifier").value))
    ensures CameBack(cfg, SignedBefore(cfg, run, j), run[j], run[k], code)
    ensures Values(Respond(cfg, SignedBefore(cfg, run, i), run[i]).form, "code") == [code]
    ensures Values(Respond(cfg, SignedBefore(cfg, run, i), run[i]).form, "redirect_uri") == [cfg.callbackUrl]
    ensures run[i].now - run[k].now < 2 * PENDING_TTL
    ensures run[k].now <= run[j].now + SKEW && run[j].now <= run[i].now + SKEW
  {
    var signed, now, pairs := SignedBefore(cfg, run, i), run[i].now, run[i].pairs;
    AcceptedExchange(cfg, signed, run[i]);
    TokenForwardsTheUpstreamCode(cfg, signed, now, pairs);
    var p, c;
    k, j, p, c := CodeTraces(cfg, run, i, ExactlyOne(pairs, "code").value, now);
    code := c.upstreamCode;
    FreshTwice(run[k].now, run[j].now, now);
  }

  // ---- Honest flows ----

  lemma {:induction false} SplitOnceAt(a: string, b: string)
    requires '.' !in a
    ensures SplitOnce(a + "." + b) == Some((a, b))
  {
    var s := a + "." + b;
    if a == "" {
      assert s[1..] == b;
    } else {
      assert s[1..] == a[1..] + "." + b;
      SplitOnceAt(a[1..], b);
      assert [a[0]] + a[1..] == a;
    }
  }

  /** A sealed payload opens exactly when the key has signed it. */
  lemma SealOpens(cfg: Config, signed: set<string>, tag: Tag, payload: string)
    requires Lawful(cfg)
    ensures (Unseal(cfg, signed, tag, Seal(cfg, tag, payload))
             == if Covered(tag, payload) in signed then Some(payload) else None)
  {
    SplitOnceAt(cfg.encode(payload), cfg.encode(cfg.mac(Covered(tag, payload))));
  }

  /** The callback of an honest flow hands the client a code and its own state back. */
  lemma HonestCallbackSucceeds(cfg: Config, run: seq<Request>, k: nat, j: nat, p: Pending)
    requires Lawful(cfg) && k < j < |run| && run[k].Authorize? && run[j].Callback?
    requires CheckAuthorize(cfg, run[k].now, run[k].pairs) == Ok(p) && cfg.parsesAsUrl(p.redirectUri)
    requires ExactlyOne(run[j].pairs, "state") == Some(StateBlob(cfg, p)) && InTime(p.issuedAt, run[j].now)
    requires ExactlyOne(run[j].pairs, "code").Some?
    requires ByteLength(ExactlyOne(run[j].pairs, "code").value) <= MAX_UPSTREAM_CODE_BYTES
    ensures (CheckCallback(cfg, SignedBefore(cfg, run, j), run[j].now, run[j].pairs)
             == Ok((p, Some(PendingCode(ExactlyOne(run[j].pairs, "code").value, p.redirectUri, p.challenge,
                                        run[j].now)))))
  {
    SignedStays(cfg, run, k, j);
    SealOpens(cfg, SignedBefore(cfg, run, j), StateTag, cfg.writePending(p));
  }

  lemma ValuesOfAppend(name: string, value: Option<string>, other: string)
    ensures Values(Append(name, value), other) == if value.Some? && other == name then [value.value] else []
  {
  }

  /** What `authorize` remembers of a request it accepts: the one redirect URI and challenge,
      and the state, if there is one. */
  lemma AcceptedRemembers(cfg: Config, rq: Request, p: Pending)
    requires rq.Authorize? && CheckAuthorize(cfg, rq.now, rq.pairs) == Ok(p)
    ensures Values(rq.pairs, "redirect_uri") == [p.redirectUri] && Values(rq.pairs, "code_challenge") == [p.challenge]
    ensures Values(rq.pairs, "state") == if p.clientState.Some? then [p.clientState.value] else []
    ensures p.issuedAt == rq.now
  {
    var states := Values(rq.pairs, "state");
    assert |states| <= 1;
    if |states| == 1 { assert states == [states[0]]; }
  }

  lemma AcceptedState(cfg: Config, signed: set<string>, rq: Request)
    requires rq.Authorize? && Respond(cfg, signed, rq).ToUpstream?
    ensures CheckAuthorize(cfg, rq.now, rq.pairs).Ok?
    ensures Values(Respond(cfg, signed, rq).query, "state")
         == [StateBlob(cfg, CheckAuthorize(cfg, rq.now, rq.pairs).value)]
  {
    var p := CheckAuthorize(cfg, rq.now, rq.pairs).value;
    AuthorizeForwardsItsOwnCallback(cfg, rq.now, rq.pairs, StateBlob(cfg, p), "state");
  }

  lemma StateDecodes(cfg: Config, signed: set<string>, p: Pending, now: U64)
    requires Lawful(cfg) && Covered(StateTag, cfg.writePending(p)) in signed && InTime(p.issuedAt, now)
    ensures DecodeState(cfg, signed, StateBlob(cfg, p), now) == Some(p)
  {
    FreshExactly(p.issuedAt, now);
    SealOpens(cfg, signed, StateTag, cfg.writePending(p));
  }

  lemma CallbackGoesOn(cfg: Config, signed: set<string>, now: U64, pairs: seq<Pair>, p: Pending)
    requires ExactlyOne(pairs, "state").Some? && cfg.parsesAsUrl(p.redirectUri)
    requires DecodeState(cfg, signed, ExactlyOne(pairs, "state").value, now) == Some(p)
    ensures CheckCallback(cfg, signed, now, pairs)
         == match ExactlyOne(pairs, "code")
            case None => Ok((p, None))
            case Some(code) =>
              if ByteLength(code) > MAX_UPSTREAM_CODE_BYTES then Err(CodeTooLong)
              else Ok((p, Some(PendingCode(code, p.redirectUri, p.challenge, now))))
  {
  }

  lemma CallbackChecks(cfg: Config, run: seq<Request>, k: nat, j: nat, p: Pending)
    requires Lawful(cfg) && k < j < |run| && run[k].Authorize? && run[j].Callback?
    requires CheckAuthorize(cfg, run[k].now, run[k].pairs) == Ok(p) && cfg.parsesAsUrl(p.redirectUri)
    requires ExactlyOne(run[j].pairs, "state") == Some(StateBlob(cfg, p)) && InTime(p.issuedAt, run[j].now)
    ensures var check := CheckCallback(cfg, SignedBefore(cfg, run, j), run[j].now, run[j].pairs);
            match ExactlyOne(run[j].pairs, "code")
            case None => check == Ok((p, None))
            case Some(code) =>
              if ByteLength(code) > MAX_UPSTREAM_CODE_BYTES then check == Err(CodeTooLong)
              else check == Ok((p, Some(PendingCode(code, p.redirectUri, p.challenge, run[j].now))))
  {
    SignedStays(cfg, run, k, j);
    StateDecodes(cfg, SignedBefore(cfg, run, j), p, run[j].now);
    CallbackGoesOn(cfg, SignedBefore(cfg, run, j), run[j].now, run[j].pairs, p);
  }

  lemma ValuesOfAnyCallback(cfg: Config, pairs: seq<Pair>, p: Pending, c: Option<PendingCode>, name: string)
    ensures Values(CallbackPairs(cfg, pairs, p, c), name)
         == Values(Append("code", if c.Some? then Some(CodeBlob(cfg, c.value)) else None), name)
            + Values(Append("error", ExactlyOne(pairs, "error")), name)
            + Values(Append("error_description", ExactlyOne(pairs, "error_description")), name)
            + Values(Append("state", p.clientState), name)
  {
    var code := Append("code", if c.Some? then Some(CodeBlob(cfg, c.value)) else None);
    var error := Append("error", ExactlyOne(pairs, "error"));
    var description := Append("error_description", ExactlyOne(pairs, "error_description"));
    var state := Append("state", p.clientState);
    ValuesConcat(code, error, name);
    ValuesConcat(code + error, description, name);
    ValuesConcat(code + error + description, state, name);
    assert CallbackPairs(cfg, pairs, p, c) == code + error + description + state;
  }

  function Listed(value: Option<string>): seq<string> {
    if value.Some? then [value.value] else []
  }

  /** The one of four lists that is not empty. */
  lemma OnlyOne(a: seq<string>, b: seq<string>, c: seq<string>, d: seq<string>)
    ensures b == [] && c == [] && d == [] ==> a + b + c + d == a
    ensures a == [] && c == [] && d == [] ==> a + b + c + d == b
    ensures a == [] && b == [] && d == [] ==> a + b + c + d == c
    ensures a == [] && b == [] && c == [] ==> a + b + c + d == d
  {
  }

  lemma CallbackSendsOne(cfg: Config, pairs: seq<Pair>, p: Pending, c: Option<PendingCode>, name: string)
    requires name in {"state", "code", "error", "error_description"}
    ensures Values(CallbackPairs(cfg, pairs, p, c), name)
         == Listed(if name == "state" then p.clientState
                   else if name == "code" then (if c.Some? then Some(CodeBlob(cfg, c.value)) else None)
                   else ExactlyOne(pairs, name))
  {
    var code := if c.Some? then Some(CodeBlob(cfg, c.value)) else None;
    var error, description := ExactlyOne(pairs, "error"), ExactlyOne(pairs, "error_description");
    ValuesOfAnyCallback(cfg, pairs, p, c, name);
    ValuesOfCallbackPart("code", code);
    ValuesOfCallbackPart("error", error);
    ValuesOfCallbackPart("error_description", description);
    ValuesOfCallbackPart("state", p.clientState);
    OnlyOne(Values(Append("code", code), name), Values(Append("error", error), name),
            Values(Append("error_description", description), name), Values(Append("state", p.clientState), name));
  }

  /** What a callback sends to the client. */
  lemma CallbackSends(cfg: Config, pairs: seq<Pair>, p: Pending, c: Option<PendingCode>)
    ensures Values(CallbackPairs(cfg, pairs, p, c), "state") == Listed(p.clientState)
    ensures Values(CallbackPairs(cfg, pairs, p, c), "code") == if c.Some? then [CodeBlob(cfg, c.value)] else []
    ensures Values(CallbackPairs(cfg, pairs, p, c), "error") == Listed(ExactlyOne(pairs, "error"))
    ensures Values(CallbackPairs(cfg, pairs, p, c), "error_description")
         == Listed(ExactlyOne(pairs, "error_description"))
  {
    CallbackSendsOne(cfg, pairs, p, c, "state");
    CallbackSendsOne(cfg, pairs, p, c, "code");
    CallbackSendsOne(cfg, pairs, p, c, "error");
    CallbackSendsOne(cfg, pairs, p, c, "error_description");
  }

  lemma ValuesOfCallbackPart(name: string, value: Option<string>)
    requires name in {"state", "code", "error", "error_description"}
    ensures Values(Append(name, value), name) == Listed(value)
    ensures forall other :: other in {"state", "code", "error", "error_description"} && other != name ==>
              Values(Append(name, value), other) == []
  {
    forall other | other in {"state", "code", "error", "error_description"} && other != name
      ensures Values(Append(name, value), other) == []
    {
      ValuesOfAppend(name, value, other);
    }
    ValuesOfAppend(name, value, name);
  }

  /** An accepted `authorize`, and the callback that brings back in time the state it sent
      upstream, with or without a code: the client is sent to its own redirect URI, with its
      own state if it gave one, the provider's error if there is one, and a code exactly when
      the provider gave one. */
  lemma ClientStateComesBack(cfg: Config, run: seq<Request>, k: nat, j: nat)
    requires Lawful(cfg) && k < j < |run| && run[k].Authorize? && run[j].Callback?
    requires Respond(cfg, SignedBefore(cfg, run, k), run[k]).ToUpstream?
    requires Values(run[j].pairs, "state") == Values(Respond(cfg, SignedBefore(cfg, run, k), run[k]).query, "state")
    requires run[k].now <= run[j].now + SKEW && run[j].now < run[k].now + PENDING_TTL
    requires forall uri :: uri in Values(run[k].pairs, "redirect_uri") ==> cfg.parsesAsUrl(uri)
    requires forall code :: code in Values(run[j].pairs, "code") ==> ByteLength(code) <= MAX_UPSTREAM_CODE_BYTES
    ensures var r := Respond(cfg, SignedBefore(cfg, run, j), run[j]);
            && r.ToClient?
            && Values(run[k].pairs, "redirect_uri") == [r.uri]
            && Values(r.appended, "state") == Values(run[k].pairs, "state")
            && |Values(r.appended, "code")| == (if |Values(run[j].pairs, "code")| == 1 then 1 else 0)
            && Values(r.appended, "error") == Listed(ExactlyOne(run[j].pairs, "error"))
            && Values(r.appended, "error_description") == Listed(ExactlyOne(run[j].pairs, "error_description"))
  {
    var p := CheckAuthorize(cfg, run[k].now, run[k].pairs).value;
    AcceptedState(cfg, SignedBefore(cfg, run, k), run[k]);
    AcceptedRemembers(cfg, run[k], p);
    CallbackChecks(cfg, run, k, j, p);
    var c := CheckCallback(cfg, SignedBefore(cfg, run, j), run[j].now, run[j].pairs).value.1;
    CallbackSends(cfg, run[j].pairs, p, c);
  }

  lemma PresentedIsExchanged(cfg: Config, signed: set<string>, rq: Request, c: PendingCode)
    requires Lawful(cfg) && Presents(cfg, rq, c) && InTime(c.issuedAt, rq.now)
    requires Covered(CodeTag, cfg.writeCode(c)) in signed
    ensures CheckToken(cfg, signed, rq.now, rq.pairs) == Ok(Some(c))
  {
    FreshExactly(c.issuedAt, rq.now);
    SealOpens(cfg, signed, CodeTag, cfg.writeCode(c));
    VerifierExactly(ExactlyOne(rq.pairs, "code_verifier").value);
  }

  /** The client that began the flow, and holds the verifier, gets its code exchanged. */
  lemma HonestFlowSucceeds(cfg: Config, run: seq<Request>, k: nat, j: nat, i: nat, p: Pending)
    requires Lawful(cfg) && k < j < i < |run| && run[k].Authorize? && run[j].Callback? && run[i].Token?
    requires CheckAuthorize(cfg, run[k].now, run[k].pairs) == Ok(p) && cfg.parsesAsUrl(p.redirectUri)
    requires ExactlyOne(run[j].pairs, "state") == Some(StateBlob(cfg, p)) && InTime(p.issuedAt, run[j].now)
    requires ExactlyOne(run[j].pairs, "code").Some?
    requires ByteLength(ExactlyOne(run[j].pairs, "code").value) <= MAX_UPSTREAM_CODE_BYTES
    requires Presents(cfg, run[i], PendingCode(ExactlyOne(run[j].pairs, "code").value, p.redirectUri,
                                               p.challenge, run[j].now))
    requires InTime(run[j].now, run[i].now)
    ensures Exchanges(cfg, run, i)
    ensures (Values(Respond(cfg, SignedBefore(cfg, run, i), run[i]).form, "code")
             == [ExactlyOne(run[j].pairs, "code").value])
  {
    HonestCallbackSucceeds(cfg, run, k, j, p);
    var c := PendingCode(ExactlyOne(run[j].pairs, "code").value, p.redirectUri, p.challenge, run[j].now);
    SignedStays(cfg, run, j, i);
    PresentedIsExchanged(cfg, SignedBefore(cfg, run, i), run[i], c);
    TokenForwardsTheUpstreamCode(cfg, SignedBefore(cfg, run, i), run[i].now, run[i].pairs);
  }

  /** A well-formed exchange request for a code the broker minted. */
  predicate Presents(cfg: Config, rq: Request, c: PendingCode) {
    && rq.Token?
    && ExactlyOne(rq.pairs, "client_id") == Some(cfg.clientId)
    && ExactlyOne(rq.pairs, "grant_type") == Some("authorization_code")
    && ExactlyOne(rq.pairs, "redirect_uri") == Some(c.redirectUri) && cfg.allowed(c.redirectUri)
    && ExactlyOne(rq.pairs, "code") == Some(CodeBlob(cfg, c))
    && ExactlyOne(rq.pairs, "code_verifier").Some?
    && IsCodeVerifier(ExactlyOne(rq.pairs, "code_verifier").value)
    && cfg.s256(ExactlyOne(rq.pairs, "code_verifier").value) == c.challenge
  }
}
