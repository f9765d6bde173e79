/** Signed document links of `src/signing.rs`, and the other messages signed with the
    same key. The keyed hash is the parameter `mac`, idealised as collision-free. */
module Signing {
  import opened Wrappers
  import opened Words
  import Numerals
  import TenantIds

  const DOMAIN := "typst-mcp/file/v1"

  datatype SignatureError = Expired | Invalid | Missing

  predicate IsTenant(tenant: string) {
    TenantIds.Parse(tenant) == Some(tenant)
  }

  /** The text a link signature covers. */
  function Message(tenant: string, id: string, expiresAt: nat): string {
    DOMAIN + "|" + tenant + "|" + id + "|" + Numerals.Decimal(expiresAt)
  }

  /** The texts the OAuth broker covers with the same key (`src/oauth_proxy.rs`). */
  function StateMessage(payload: string): string { "oauth-state\0" + payload }

  function CodeMessage(payload: string): string { "oauth-code\0" + payload }

  lemma SplitAtLast(a: string, b: string, x: string, y: string, sep: char)
    requires a + [sep] + b == x + [sep] + y && sep !in b && sep !in y
    ensures a == x && b == y
  {
    var s, n := a + [sep] + b, |a + [sep] + b|;
    assert s[|a|] == sep && s[|x|] == sep;
    assert forall i :: |a| < i < n ==> s[i] == b[i - |a| - 1];
    assert forall i :: |x| < i < n ==> s[i] == y[i - |x| - 1];
    assert |x| >= |a| && |a| >= |x|;
    assert a == s[..|a|] && x == s[..|x|] && b == s[|a| + 1..] && y == s[|x| + 1..];
  }

  /** No two links share a message, even when ids contain the separator. */
  lemma MessageInjective(t1: string, i1: string, e1: nat, t2: string, i2: string, e2: nat)
    requires IsTenant(t1) && IsTenant(t2)
    ensures Message(t1, i1, e1) == Message(t2, i2, e2) <==> t1 == t2 && i1 == i2 && e1 == e2
  {
    if Message(t1, i1, e1) == Message(t2, i2, e2) {
      var h1, h2 := DOMAIN + "|" + t1 + "|" + i1, DOMAIN + "|" + t2 + "|" + i2;
      SplitAtLast(h1, Numerals.Decimal(e1), h2, Numerals.Decimal(e2), '|');
      Numerals.NumeralInjective(e1, e2, 10);
      var n := |DOMAIN| + 1;
      assert h1[n..n + 16] == t1 && h2[n..n + 16] == t2;
      assert h1[n + 17..] == i1 && h2[n + 17..] == i2;
    }
  }

  /** Link, state and code messages never coincide, whatever they carry. */
  lemma MessagesDisjoint(tenant: string, id: string, expiresAt: nat, state: string, code: string)
    ensures Message(tenant, id, expiresAt) != StateMessage(state)
    ensures Message(tenant, id, expiresAt) != CodeMessage(code)
    ensures StateMessage(state) != CodeMessage(code)
  {
    assert Message(tenant, id, expiresAt)[0] == 't';
    assert StateMessage(state)[0] == 'o' && CodeMessage(code)[0] == 'o';
    assert StateMessage(state)[6] == 's' && CodeMessage(code)[6] == 'c';
  }

  function Sign(mac: string -> string, tenant: string, id: string, expiresAt: nat): string {
    mac(Message(tenant, id, expiresAt))
  }

  function Verify(mac: string -> string, tenant: string, id: string, expiresAt: nat, presented: string, now: nat)
    : Result<(), SignatureError>
  {
    if expiresAt <= now then Err(Expired)
    else if Sign(mac, tenant, id, expiresAt) == presented then Ok(())
    else Err(Invalid)
  }

  function VerifyParams(mac: string -> string, tenant: string, id: string,
                        expiry: Option<string>, signature: Option<string>, now: nat)
    : Result<(), SignatureError>
  {
    if expiry.None? || signature.None? then Err(Missing)
    else match Numerals.ParseUnsigned(expiry.value, U64_MAX)
      case None => Err(Invalid)
      case Some(at) => Verify(mac, tenant, id, at, signature.value, now)
  }

  ghost predicate CollisionFree(mac: string -> string) {
    forall a, b :: mac(a) == mac(b) ==> a == b
  }

  /** A signature opens exactly the document and expiry it was minted for, and only
      until that expiry: any other tenant, id or expiry in the URL is refused. */
  lemma LinkOpensOneDocument(mac: string -> string, tenant: string, id: string, expiresAt: nat,
                             urlTenant: string, urlId: string, urlExpiry: string, now: nat)
    requires CollisionFree(mac) && IsTenant(tenant) && IsTenant(urlTenant)
    ensures VerifyParams(mac, urlTenant, urlId, Some(urlExpiry), Some(Sign(mac, tenant, id, expiresAt)), now).Ok?
       <==> urlTenant == tenant && urlId == id && now < expiresAt
            && Numerals.ParseUnsigned(urlExpiry, U64_MAX) == Some(expiresAt)
  {
    if Numerals.ParseUnsigned(urlExpiry, U64_MAX).Some? {
      var at := Numerals.ParseUnsigned(urlExpiry, U64_MAX).value;
      MessageInjective(tenant, id, expiresAt, urlTenant, urlId, at);
    }
  }

  /** The link as minted is accepted until it expires. */
  lemma MintedLinkVerifies(mac: string -> string, tenant: string, id: string, now: nat, ttl: nat, later: nat)
    requires now + ttl <= U64_MAX && IsTenant(tenant)
    ensures VerifyParams(mac, tenant, id, Some(Numerals.Decimal(now + ttl)),
                         Some(Sign(mac, tenant, id, now + ttl)), later)
         == (if later < now + ttl then Ok(()) else Err(Expired))
  {
    Numerals.ParseOfDecimal(now + ttl, U64_MAX);
  }

  /** Why a link is refused: parameters that are missing, then an expiry that has passed, whatever
      the signature says, and otherwise an expiry or a signature that is not right. */
  lemma LinkRefusedExactly(mac: string -> string, tenant: string, id: string, expiry: Option<string>,
                           signature: Option<string>, now: nat)
    ensures var answer := VerifyParams(mac, tenant, id, expiry, signature, now);
            var given := expiry.Some? && signature.Some?;
            var at := if expiry.Some? then Numerals.ParseUnsigned(expiry.value, U64_MAX) else None;
            && (answer == Err(Missing) <==> !given)
            && (answer == Err(Expired) <==> given && at.Some? && at.value <= now)
            && (answer == Err(Invalid) <==>
                  given && (at.None? || (now < at.value && signature.value != mac(Message(tenant, id, at.value)))))
  {
  }
}
