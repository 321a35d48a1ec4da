/**
 * The billing webhook of app/api/webhooks/lemonsqueezy/route.ts: the guard
 * sequence that authenticates a delivery, and the event-to-tier transition
 * applied to the profile and subscription tables. HMAC-SHA256 (RFC 2104) and
 * `JSON.parse` are oracles passed in as functions.
 */
module BillingWebhook {
  import opened Wrappers
  import opened Js

  datatype Tier = Free | Pro

  /** The billing columns of a profile row. */
  datatype ProfileRow = ProfileRow(tier: Tier, charactersUsed: int, charactersLimit: int)

  /** A row sent to the subscriptions upsert. */
  datatype SubscriptionRow = SubscriptionRow(
    userId: string, lemonsqueezyId: string, status: Value, plan: string, currentPeriodEnd: Value, updatedAt: string)

  /** The fields of the parsed payload the handler reads (`meta.event_name`, `meta.custom_data.user_id`, `data.*`). */
  datatype Payload = Payload(eventName: Value, userId: Value, dataId: Value, status: Value, endsAt: Value)

  const ProLimit: int := 999999999
  const FreeLimit: int := 1000

  /** What a delivery does once it is accepted: the subscription row to upsert and the tier to set, if any. */
  datatype Effect = Effect(userId: string, upsert: Option<SubscriptionRow>, setTier: Option<(Tier, int)>)

  /** The handler's decision: a status with no change, or an accepted delivery (`{received: true}`). */
  datatype Decision = Reject(status: nat) | Accept(effect: Effect)

  predicate IsEvent(v: Value, names: set<string>) {
    v.Str? && v.s in names
  }

  /**
   * The guards and the `switch`. `signature` is the `x-signature` header,
   * `secret` the configured secret ("" when unset), `hmacHex(secret, body)`
   * the hex HMAC-SHA256 digest, `parse` the JSON parser (`None` when it throws,
   * which the framework answers with 500), `now` the ISO timestamp.
   */
  function Decide(signature: Option<string>, secret: string, rawBody: string,
                  hmacHex: (string, string) -> string, parse: string -> Option<Payload>, now: string): (d: Decision)
    ensures (signature.None? || signature.value == "" || secret == "") ==> d == Reject(401)
    ensures signature.Some? && secret != "" && hmacHex(secret, rawBody) != signature.value ==> d == Reject(401)
    ensures d.Accept? ==> signature.Some? && secret != "" && hmacHex(secret, rawBody) == signature.value
    ensures d.Accept? ==>
      (parse(rawBody).Some? && Truthy(parse(rawBody).value.userId) && d.effect.userId == ToStr(parse(rawBody).value.userId))
    ensures d.Accept? ==> (d.effect.upsert.Some? <==> IsEvent(parse(rawBody).value.eventName, {"subscription_created", "subscription_updated"}))
    ensures d.Accept? ==> (d.effect.setTier == Some((Pro, ProLimit)) <==>
      IsEvent(parse(rawBody).value.eventName, {"subscription_created", "subscription_updated"}) && parse(rawBody).value.status == Str("active"))
    ensures d.Accept? ==> (d.effect.setTier == Some((Free, FreeLimit)) <==>
      IsEvent(parse(rawBody).value.eventName, {"subscription_cancelled", "subscription_expired"}))
    ensures d.Accept? && d.effect.setTier.Some? ==> d.effect.setTier == Some((Pro, ProLimit)) || d.effect.setTier == Some((Free, FreeLimit))
    ensures (signature.Some? && signature.value != "" && secret != "" && hmacHex(secret, rawBody) == signature.value
      && parse(rawBody).Some? && !Truthy(parse(rawBody).value.userId)) ==> d == Reject(400)
  {
    if signature.None? || signature.value == "" || secret == "" then Reject(401)
    else if hmacHex(secret, rawBody) != signature.value then Reject(401)
    else match parse(rawBody)
      case None => Reject(500)
      case Some(payload) =>
        if !Truthy(payload.userId) then Reject(400)
        else
          var userId := ToStr(payload.userId);
          if IsEvent(payload.eventName, {"subscription_created", "subscription_updated"}) then
            var row := SubscriptionRow(userId, ToStr(payload.dataId), payload.status, "pro", payload.endsAt, now);
            Accept(Effect(userId, Some(row), if payload.status == Str("active") then Some((Pro, ProLimit)) else None))
          else if IsEvent(payload.eventName, {"subscription_cancelled", "subscription_expired"}) then
            Accept(Effect(userId, None, Some((Free, FreeLimit))))
          else
            Accept(Effect(userId, None, None))
  }

  /** `update({subscription_tier, characters_limit}).eq('id', userId)`: a row that does not exist is left absent. */
  function SetTier(profiles: map<string, ProfileRow>, userId: string, change: Option<(Tier, int)>): (r: map<string, ProfileRow>)
    ensures r.Keys == profiles.Keys
    ensures forall u :: u in profiles && u != userId ==> r[u] == profiles[u]
    ensures change.Some? && userId in profiles ==>
      r[userId] == profiles[userId].(tier := change.value.0, charactersLimit := change.value.1)
    ensures change.None? ==> r == profiles
  {
    if change.Some? && userId in profiles then
      profiles[userId := profiles[userId].(tier := change.value.0, charactersLimit := change.value.1)]
    else profiles
  }

  /** Setting the same tier twice leaves the profiles as setting it once: redelivery is harmless. */
  lemma SetTierIdempotent(profiles: map<string, ProfileRow>, userId: string, change: Option<(Tier, int)>)
    ensures SetTier(SetTier(profiles, userId, change), userId, change) == SetTier(profiles, userId, change)
  {
  }

  /** The two tables the webhook writes. */
  class BillingStore {
    var profiles: map<string, ProfileRow>
    /** The rows sent to the subscriptions upsert, oldest first; how the table merges them is not modelled. */
    var subscriptionUpserts: seq<SubscriptionRow>

    constructor (profiles: map<string, ProfileRow>)
      ensures this.profiles == profiles && subscriptionUpserts == []
    {
      this.profiles := profiles;
      subscriptionUpserts := [];
    }

    /** `POST`: decide, then perform the upsert and the tier update; a rejected delivery changes nothing. */
    method Receive(signature: Option<string>, secret: string, rawBody: string,
                   hmacHex: (string, string) -> string, parse: string -> Option<Payload>, now: string)
      returns (status: nat)
      modifies this
      ensures var d := Decide(signature, secret, rawBody, hmacHex, parse, now);
        status == (if d.Reject? then d.status else 200)
      ensures var d := Decide(signature, secret, rawBody, hmacHex, parse, now);
        d.Reject? ==> profiles == old(profiles) && subscriptionUpserts == old(subscriptionUpserts)
      ensures var d := Decide(signature, secret, rawBody, hmacHex, parse, now);
        d.Accept? ==>
          profiles == SetTier(old(profiles), d.effect.userId, d.effect.setTier)
          && subscriptionUpserts == old(subscriptionUpserts) + (if d.effect.upsert.Some? then [d.effect.upsert.value] else [])
    {
      var d := Decide(signature, secret, rawBody, hmacHex, parse, now);
      match d
      case Reject(code) =>
        status := code;
      case Accept(effect) =>
        if effect.upsert.Some? {
          subscriptionUpserts := subscriptionUpserts + [effect.upsert.value];
        }
        profiles := SetTier(profiles, effect.userId, effect.setTier);
        status := 200;
    }
  }
}
