/**
 * An in-memory fixed-window rate limiter:
 * a map from client identifier to a request count and the end of its window,
 * the periodic sweep of expired entries, and the choice of identifier from
 * the request headers. The clock is the parameter `now` (milliseconds).
 */
module RateLimiter {
  import opened JsText

  datatype Entry = Entry(count: int, resetTime: int)

  datatype Config = Config(maxRequests: int, windowMs: int)

  /** Ten requests per minute. */
  const DefaultConfig: Config := Config(10, 60 * 1000)

  type Store = map<string, Entry>

  datatype Decision = Decision(allowed: bool, remaining: int, resetIn: int)

  /** The answer to one call, and the store as the call leaves it. */
  datatype Outcome = Outcome(decision: Decision, store: Store)

  /** A window is over only strictly after its reset time. */
  predicate Expired(e: Entry, now: int) {
    now > e.resetTime
  }

  /** `rateLimit`: open a new window, count one more call in the current one, or refuse. */
  function RateLimit(store: Store, identifier: string, now: int, config: Config := DefaultConfig): (r: Outcome)
    ensures r.store.Keys == store.Keys + {identifier}
    ensures forall k :: k in store && k != identifier ==> r.store[k] == store[k]
    ensures r.decision.allowed <==>
              identifier !in store || Expired(store[identifier], now) || store[identifier].count < config.maxRequests
    ensures identifier !in store || Expired(store[identifier], now) ==>
              r.store[identifier] == Entry(1, now + config.windowMs)
    ensures identifier in store && !Expired(store[identifier], now) && r.decision.allowed ==>
              r.store[identifier] == store[identifier].(count := store[identifier].count + 1)
    ensures r.decision.allowed ==> r.decision.remaining == config.maxRequests - r.store[identifier].count
    ensures !r.decision.allowed ==> r.store == store && r.decision.remaining == 0
    ensures r.decision.resetIn == r.store[identifier].resetTime - now
  {
    if identifier !in store || Expired(store[identifier], now) then
      Outcome(Decision(true, config.maxRequests - 1, config.windowMs),
              store[identifier := Entry(1, now + config.windowMs)])
    else
      var e := store[identifier];
      if e.count < config.maxRequests then
        Outcome(Decision(true, config.maxRequests - (e.count + 1), e.resetTime - now),
                store[identifier := e.(count := e.count + 1)])
      else
        Outcome(Decision(false, 0, e.resetTime - now), store)
  }

  /** Every stored count lies between one and the quota. */
  ghost predicate Bounded(store: Store, config: Config) {
    forall k :: k in store ==> 1 <= store[k].count <= config.maxRequests
  }

  /** With a quota of at least one, no call ever takes a count past the quota. */
  lemma RateLimitKeepsBound(store: Store, identifier: string, now: int, config: Config)
    requires config.maxRequests >= 1 && Bounded(store, config)
    ensures Bounded(RateLimit(store, identifier, now, config).store, config)
  {
  }

  /** With a quota of zero or less, a first call is still let through and stores a count above the quota. */
  lemma NonPositiveQuotaAdmitsFirst(store: Store, identifier: string, now: int, config: Config)
    requires config.maxRequests <= 0 && identifier !in store
    ensures var r := RateLimit(store, identifier, now, config);
            r.decision.allowed && r.store[identifier].count > config.maxRequests
  {
  }

  /** The periodic clean-up: drop every entry whose window is over. */
  function Sweep(store: Store, now: int): (r: Store)
    ensures forall k :: k in r <==> k in store && !Expired(store[k], now)
    ensures forall k :: k in r ==> r[k] == store[k]
  {
    map k | k in store && !Expired(store[k], now) :: store[k]
  }

  /** Sweeping twice at the same time is sweeping once. */
  lemma SweepIdempotent(store: Store, now: int)
    ensures Sweep(Sweep(store, now), now) == Sweep(store, now)
  {
  }

  /** Sweeping keeps every count within the quota. */
  lemma SweepKeepsBound(store: Store, now: int, config: Config)
    requires Bounded(store, config)
    ensures Bounded(Sweep(store, now), config)
  {
  }

  /**
   * A sweep is invisible to later calls: any call made at or after the sweep
   * gets the same answer and leaves the same entry for its identifier as
   * it would have without the sweep.
   */
  lemma SweepUnobservable(store: Store, sweptAt: int, identifier: string, now: int, config: Config)
    requires sweptAt <= now
    ensures var r := RateLimit(Sweep(store, sweptAt), identifier, now, config);
            var r' := RateLimit(store, identifier, now, config);
            r.decision == r'.decision && r.store[identifier] == r'.store[identifier]
  {
  }

  /** The number of calls let through when `identifier` calls at each of `times` in turn. */
  function AllowedCalls(store: Store, identifier: string, times: seq<int>, config: Config): nat
    decreases |times|
  {
    if times == [] then 0
    else
      var r := RateLimit(store, identifier, times[0], config);
      (if r.decision.allowed then 1 else 0) + AllowedCalls(r.store, identifier, times[1..], config)
  }

  /** Inside an open window, at most the rest of the quota is let through, however many calls come. */
  lemma {:induction false} WithinWindow(store: Store, identifier: string, times: seq<int>, config: Config)
    requires identifier in store && store[identifier].count <= config.maxRequests
    requires forall i :: 0 <= i < |times| ==> times[i] <= store[identifier].resetTime
    ensures AllowedCalls(store, identifier, times, config) <= config.maxRequests - store[identifier].count
  {
    if times != [] {
      var r := RateLimit(store, identifier, times[0], config);
      assert r.store[identifier].resetTime == store[identifier].resetTime;
      WithinWindow(r.store, identifier, times[1..], config);
    }
  }

  /**
   * A window opened by a call at `times[0]` lets through at most the quota:
   * every later call up to `times[0] + windowMs` (inclusive) is inside it.
   */
  lemma FreshWindow(store: Store, identifier: string, times: seq<int>, config: Config)
    requires config.maxRequests >= 1 && |times| >= 1
    requires identifier !in store || Expired(store[identifier], times[0])
    requires forall i :: 1 <= i < |times| ==> times[i] <= times[0] + config.windowMs
    ensures AllowedCalls(store, identifier, times, config) <= config.maxRequests
  {
    var r := RateLimit(store, identifier, times[0], config);
    WithinWindow(r.store, identifier, times[1..], config);
  }

  // ---------------------------------------------------------------------------
  // Client identifier
  // ---------------------------------------------------------------------------

  /** Request headers by lower-case name; an absent name reads as `null`. */
  type Headers = map<string, string>

  /** `headers.get(name)` is truthy: present and not the empty string. */
  predicate Present(h: Headers, name: string) {
    name in h && h[name] != []
  }

  const ForwardedFor: string := "x-forwarded-for"
  const RealIp: string := "x-real-ip"
  const CloudflareIp: string := "cf-connecting-ip"

  /** `getClientIdentifier`: the first proxied address, else the real-IP header, else Cloudflare's, else "unknown". */
  function ClientIdentifier(h: Headers): (r: string)
    ensures Present(h, ForwardedFor) ==>
              r == Trim(h[ForwardedFor][..IndexOf(h[ForwardedFor], ',')]) && ',' !in r
    ensures !Present(h, ForwardedFor) && Present(h, RealIp) ==> r == h[RealIp]
    ensures !Present(h, ForwardedFor) && !Present(h, RealIp) && Present(h, CloudflareIp) ==> r == h[CloudflareIp]
    ensures !Present(h, ForwardedFor) && !Present(h, RealIp) && !Present(h, CloudflareIp) ==> r == "unknown"
  {
    if Present(h, ForwardedFor) then
      var f := h[ForwardedFor];
      SplitFirst(f, ',');
      Trim(Split(f, ',')[0])
    else if Present(h, RealIp) then h[RealIp]
    else if Present(h, CloudflareIp) then h[CloudflareIp]
    else "unknown"
  }
}
