/**
 `VaultPkiKeyResolver` and `LayeredKeyResolver.resolveAsync`
 (apps/worker-federation-receiver/src/key-resolver.ts): a TTL cache of public
 keys, a TTL cache of revocation lists, and one single-flight map in front of
 each kind of fetch.

 The runtime is single-threaded, so the code between two awaits is one step. A
 step is a call into the resolver, or the arrival of an HTTP reply followed by
 everything that was waiting for it. `now` is the clock reading of the step.
 */
module KeyResolver {
  import opened CrlBody
  import opened JsStrings
  import opened Wrappers

  // --------------------------------------------------------- key identifiers

  datatype KeyParts = KeyParts(region: string, serial: string)

  predicate IsRegion(s: string) {
    2 <= |s| <= 8 && forall i :: 0 <= i < |s| ==> 'A' <= s[i] <= 'Z'
  }

  function ColonAt(s: string): (i: nat)
    ensures i <= |s| && (i < |s| ==> s[i] == ':')
  {
    if s == [] || s[0] == ':' then 0 else 1 + ColonAt(s[1..])
  }

  /** SIGNING_KEY_ID_RE: `<REGION>:<serial>`. */
  function ParseKeyId(id: string): Option<KeyParts> {
    var i := ColonAt(id);
    if i < |id| && IsRegion(id[..i]) && IsSerial(id[i + 1..]) then Some(KeyParts(id[..i], id[i + 1..])) else None
  }

  /** Two to eight of A to Z, a colon, a hex digit, and up to 79 hex digits or dashes. */
  lemma KeyIdParts(id: string, k: KeyParts)
    ensures ParseKeyId(id) == Some(k) <==>
      && id == k.region + ":" + k.serial
      && 2 <= |k.region| <= 8 && (forall i :: 0 <= i < |k.region| ==> 65 <= k.region[i] as int <= 90)
      && 1 <= |k.serial| <= 80 && k.serial[0] != '-'
      && (forall i :: 0 <= i < |k.serial| ==>
            || 48 <= k.serial[i] as int <= 57 || 65 <= k.serial[i] as int <= 70 || 97 <= k.serial[i] as int <= 102
            || k.serial[i] == '-')
  {
    var i := ColonAt(id);
    if i < |id| { assert id == id[..i] + ":" + id[i + 1..]; }
    if id == k.region + ":" + k.serial && IsRegion(k.region) {
      ColonBehind(k.region, k.serial);
      assert id[..|k.region|] == k.region && id[|k.region| + 1..] == k.serial;
    }
  }

  lemma {:induction false} ColonBehind(region: string, rest: string)
    requires ':' !in region
    ensures ColonAt(region + ":" + rest) == |region|
  {
    var s := region + ":" + rest;
    if region != [] {
      assert s[0] == region[0] && s[1..] == region[1..] + ":" + rest;
      ColonBehind(region[1..], rest);
    }
  }

  // ------------------------------------------------------------------- state

  datatype Cached = Cached(publicKeyPem: string, insertedAtMs: int)
  datatype CrlEntry = CrlEntry(serials: set<string>, fetchedAtMs: int)

  /** An HTTP request that has been sent and not answered. */
  datatype Request = CrlRequest(region: string, startedAt: int) | CertRequest(keyId: string, startedAt: int)

  /** `crlInflight` holds, for each CRL promise, the flights that resume when it
      settles, in order. `pending` is what is on the wire. */
  datatype State = State(
    cache: map<string, Cached>,
    inflight: set<string>,
    crl: map<string, CrlEntry>,
    crlInflight: map<string, seq<string>>,
    pending: multiset<Request>)

  const Empty := State(map[], {}, map[], map[], multiset{})

  datatype Answer = Key(pem: string) | Null | Revoked

  /** What a caller sees: a synchronous return, or the settlement of a promise. */
  datatype Output = Returned(keyId: string, answer: Answer) | Settled(keyId: string, answer: Answer)

  /** `CrlFailed` is any error up to and including a body over MAX_BODY_BYTES. */
  datatype CrlReply = Listed(body: string, json: JsonBody) | Absent | CrlFailed
  datatype CertReply = Cert(publicKeyPem: string) | NoCert | CertFailed

  datatype Event =
    | Resolve(keyId: string)
    | ResolveAsync(keyId: string)
    | CrlArrives(region: string, startedAt: int, crlReply: CrlReply)
    | CertArrives(keyId: string, startedAt: int, certReply: CertReply)
    | Invalidate(keyId: string)
    | InvalidateCrl(region: string)

  datatype Timed = Timed(now: int, event: Event)

  // -------------------------------------------------------------- single steps

  /** Past the CRL check: deny, or send for the certificate. */
  function AfterCrl(s: State, now: int, id: string, serials: set<string>): (State, seq<Output>) {
    var parts := ParseKeyId(id);
    if parts.Some? && Lower(parts.value.serial) in serials then
      (s.(cache := s.cache - {id}, inflight := s.inflight - {id}), [Settled(id, Revoked)])
    else (s.(pending := s.pending + multiset{CertRequest(id, now)}), [])
  }

  function AfterCrlAll(s: State, now: int, ids: seq<string>, serials: set<string>): (State, seq<Output>) {
    if ids == [] then (s, [])
    else
      var (t, before) := AfterCrlAll(s, now, ids[..|ids| - 1], serials);
      var (u, last) := AfterCrl(t, now, ids[|ids| - 1], serials);
      (u, before + last)
  }

  function StartFlight(s: State, ttl: int, now: int, id: string, region: string): (State, seq<Output>) {
    var t := s.(inflight := s.inflight + {id});
    if region in s.crl && now - s.crl[region].fetchedAtMs <= ttl then AfterCrl(t, now, id, s.crl[region].serials)
    else if region in s.crlInflight then
      (t.(crlInflight := s.crlInflight[region := s.crlInflight[region] + [id]]), [])
    else
      (t.(crlInflight := s.crlInflight[region := [id]],
          pending := s.pending + multiset{CrlRequest(region, now)}), [])
  }

  function AfterCrlReply(s: State, now: int, region: string, startedAt: int, reply: CrlReply): State {
    s.(crl := if reply.Listed? then s.crl[region := CrlEntry(SerialsOf(ListedIn(reply.body, reply.json)), now)] else s.crl,
       crlInflight := s.crlInflight - {region},
       pending := s.pending - multiset{CrlRequest(region, startedAt)})
  }

  /** A failed or missing list is treated as empty and not cached. */
  function SerialsIn(reply: CrlReply): set<string> {
    if reply.Listed? then SerialsOf(ListedIn(reply.body, reply.json)) else {}
  }

  function AfterCertReply(s: State, now: int, id: string, startedAt: int, reply: CertReply): State {
    s.(cache := if reply.Cert? then s.cache[id := Cached(reply.publicKeyPem, now)] else s.cache,
       inflight := s.inflight - {id},
       pending := s.pending - multiset{CertRequest(id, startedAt)})
  }

  function Step(s: State, ttl: int, e: Timed): (State, seq<Output>) {
    var now := e.now;
    match e.event
    case Resolve(id) =>
      if ParseKeyId(id) == None || id !in s.cache then (s, [Returned(id, Null)])
      else if now - s.cache[id].insertedAtMs > ttl then (s.(cache := s.cache - {id}), [Returned(id, Null)])
      else (s, [Returned(id, Key(s.cache[id].publicKeyPem))])
    case ResolveAsync(id) =>
      var parts := ParseKeyId(id);
      if parts == None then (s, [Settled(id, Null)])
      else if id in s.cache && now - s.cache[id].insertedAtMs <= ttl then
        (s, [Settled(id, Key(s.cache[id].publicKeyPem))])
      else if id in s.inflight then (s, [])
      else StartFlight(s, ttl, now, id, parts.value.region)
    case CrlArrives(region, startedAt, reply) =>
      if CrlRequest(region, startedAt) !in s.pending then (s, [])
      else
        var waiters := if region in s.crlInflight then s.crlInflight[region] else [];
        AfterCrlAll(AfterCrlReply(s, now, region, startedAt, reply), now, waiters, SerialsIn(reply))
    case CertArrives(id, startedAt, reply) =>
      if CertRequest(id, startedAt) !in s.pending then (s, [])
      else (AfterCertReply(s, now, id, startedAt, reply),
            [Settled(id, if reply.Cert? then Key(reply.publicKeyPem) else Null)])
    case Invalidate(id) => (s.(cache := s.cache - {id}), [])
    case InvalidateCrl(region) => (s.(crl := s.crl - {region}), [])
  }

  // ------------------------------------------------------------------ the class

  /** The key is cached and no older than the time to live. */
  predicate HoldsFresh(cache: map<string, Cached>, ttl: int, now: int, id: string) {
    id in cache && now - cache[id].insertedAtMs <= ttl
  }

  /** A list in hand that is young enough to be used. */
  predicate HasFreshList(crl: map<string, CrlEntry>, ttl: int, now: int, region: string) {
    region in crl && now - crl[region].fetchedAtMs <= ttl
  }

  predicate NamedBy(serials: set<string>, id: string) {
    ParseKeyId(id).Some? && Lower(ParseKeyId(id).value.serial) in serials
  }

  /** The denials of the named keys, in the order they waited. */
  function Denials(serials: set<string>, ids: seq<string>): seq<Output> {
    if ids == [] then []
    else
      var last := ids[|ids| - 1];
      Denials(serials, ids[..|ids| - 1]) + if NamedBy(serials, last) then [Settled(last, Revoked)] else []
  }

  /** What goes out when an asynchronous call finds neither a key nor a flight for it. */
  function SentFor(s: State, ttl: int, now: int, id: string, region: string): multiset<Request> {
    if HasFreshList(s.crl, ttl, now, region) then
      if NamedBy(s.crl[region].serials, id) then multiset{} else multiset{CertRequest(id, now)}
    else if region in s.crlInflight then multiset{}
    else multiset{CrlRequest(region, now)}
  }

  const DEFAULT_TTL_MS: int := 3_600_000

  class VaultPkiKeyResolver {
    const ttl: int
    var cache: map<string, Cached>
    var inflight: set<string>
    var crl: map<string, CrlEntry>
    var crlInflight: map<string, seq<string>>
    ghost var pending: multiset<Request>  // requests handed to the fetcher

    constructor (cacheTtlMs: int := DEFAULT_TTL_MS)
      ensures Contents() == Empty && ttl == cacheTtlMs
    {
      ttl := cacheTtlMs;
      cache, inflight, crl, crlInflight, pending := map[], {}, map[], map[], multiset{};
    }

    ghost function Contents(): State reads this {
      State(cache, inflight, crl, crlInflight, pending)
    }

    method Resolve(now: int, id: string) returns (r: Option<string>)
      modifies this`cache
      ensures var (t, out) := Step(old(Contents()), ttl, Timed(now, Event.Resolve(id)));
        Contents() == t && out == [Returned(id, if r.Some? then Key(r.value) else Null)]
      // a key comes back exactly while the cache holds it and it is not too old
      ensures forall pem :: r == Some(pem) <==>
        ParseKeyId(id).Some? && HoldsFresh(old(cache), ttl, now, id) && old(cache)[id].publicKeyPem == pem
      // and what is too old is dropped
      ensures cache == if ParseKeyId(id).Some? && id in old(cache) && r == None then old(cache) - {id} else old(cache)
    {
      if ParseKeyId(id) == None { return None; }
      if id !in cache { return None; }
      if now - cache[id].insertedAtMs > ttl {
        cache := cache - {id};
        return None;
      }
      return Some(cache[id].publicKeyPem);
    }

    /** From the call up to its first suspension; `settled` tells what it settles at once. */
    method ResolveAsync(now: int, id: string) returns (settled: Option<Answer>)
      modifies this
      ensures var (t, out) := Step(old(Contents()), ttl, Timed(now, Event.ResolveAsync(id)));
        Contents() == t && out == if settled.Some? then [Settled(id, settled.value)] else []
      // it settles with a key at once exactly while the cache holds it and it is not too old
      ensures forall pem :: settled == Some(Key(pem)) <==>
        ParseKeyId(id).Some? && HoldsFresh(old(cache), ttl, now, id) && old(cache)[id].publicKeyPem == pem
      ensures settled == Some(Null) <==> ParseKeyId(id) == None
      // otherwise it joins the flight for this key, or begins one, which ends at once exactly
      // if the list in hand names the serial
      ensures ParseKeyId(id).Some? && !HoldsFresh(old(cache), ttl, now, id) ==>
        var region := ParseKeyId(id).value.region;
        if id in old(inflight) then settled == None && Contents() == old(Contents())
        else
          && (settled == Some(Revoked) <==>
                HasFreshList(old(crl), ttl, now, region) && NamedBy(old(crl)[region].serials, id))
          && inflight == (if settled == Some(Revoked) then old(inflight) else old(inflight) + {id})
          && pending == old(pending) + SentFor(old(Contents()), ttl, now, id, region)
    {
      var parts := ParseKeyId(id);
      if parts == None { return Some(Null); }
      if id in cache && now - cache[id].insertedAtMs <= ttl { return Some(Key(cache[id].publicKeyPem)); }
      if id in inflight { return None; }
      settled := Fly(now, id, parts.value.region);
    }

    /** A new flight, up to its first suspension. */
    method Fly(now: int, id: string, region: string) returns (settled: Option<Answer>)
      requires id !in inflight
      modifies this
      ensures var (t, out) := StartFlight(old(Contents()), ttl, now, id, region);
        Contents() == t && out == if settled.Some? then [Settled(id, settled.value)] else []
      ensures settled == if HasFreshList(old(crl), ttl, now, region) && NamedBy(old(crl)[region].serials, id)
                         then Some(Revoked) else None
      ensures inflight == if settled == Some(Revoked) then old(inflight) else old(inflight) + {id}
      ensures pending == old(pending) + SentFor(old(Contents()), ttl, now, id, region)
    {
      inflight := inflight + {id};
      if region in crl && now - crl[region].fetchedAtMs <= ttl {
        settled := Proceed(now, id, crl[region].serials);
      } else if region in crlInflight {
        crlInflight := crlInflight[region := crlInflight[region] + [id]];
        settled := None;
      } else {
        crlInflight := crlInflight[region := [id]];
        pending := pending + multiset{CrlRequest(region, now)};
        settled := None;
      }
    }

    /** One flight, once its CRL is known. */
    method Proceed(now: int, id: string, serials: set<string>) returns (settled: Option<Answer>)
      modifies this
      ensures var (t, out) := AfterCrl(old(Contents()), now, id, serials);
        Contents() == t && out == if settled.Some? then [Settled(id, settled.value)] else []
      // a named serial denies and drops the key; any other sends for the certificate
      ensures settled == if NamedBy(serials, id) then Some(Revoked) else None
      ensures cache == if NamedBy(serials, id) then old(cache) - {id} else old(cache)
      ensures inflight == if NamedBy(serials, id) then old(inflight) - {id} else old(inflight)
      ensures pending == old(pending) + if NamedBy(serials, id) then multiset{} else multiset{CertRequest(id, now)}
    {
      var parts := ParseKeyId(id);
      if parts.Some? && Lower(parts.value.serial) in serials {
        cache := cache - {id};
        inflight := inflight - {id};
        return Some(Revoked);
      }
      pending := pending + multiset{CertRequest(id, now)};
      return None;
    }

    /** The CRL promise settles and its waiters resume, in order. */
    method CrlArrived(now: int, region: string, ghost startedAt: int, reply: CrlReply) returns (out: seq<Output>)
      requires CrlRequest(region, startedAt) in pending && region in crlInflight
      modifies this
      ensures (Contents(), out) == Step(old(Contents()), ttl, Timed(now, CrlArrives(region, startedAt, reply)))
      // a list that came is kept, and exactly the waiting keys it names are denied and
      // dropped; without one nothing is kept and nobody is denied
      ensures crl == if reply.Listed?
                     then old(crl)[region := CrlEntry(SerialsOf(ListedIn(reply.body, reply.json)), now)] else old(crl)
      ensures out == Denials(if reply.Listed? then SerialsOf(ListedIn(reply.body, reply.json)) else {},
                             old(crlInflight)[region])
      ensures cache.Keys == old(cache).Keys - (set o | o in out :: o.keyId) && cache.Items <= old(cache).Items
      ensures crlInflight == old(crlInflight) - {region}
    {
      var serials: set<string> := {};
      var waiters := crlInflight[region];
      if reply.Listed? {
        serials := ParseCrlSerials(reply.body, reply.json);
        crl := crl[region := CrlEntry(serials, now)];
      }
      crlInflight := crlInflight - {region};
      pending := pending - multiset{CrlRequest(region, startedAt)};
      out := ResumeAll(now, waiters, serials);
    }

    method ResumeAll(now: int, waiters: seq<string>, serials: set<string>) returns (out: seq<Output>)
      modifies this
      ensures (Contents(), out) == AfterCrlAll(old(Contents()), now, waiters, serials)
      ensures out == Denials(serials, waiters) && crl == old(crl) && crlInflight == old(crlInflight)
      ensures cache.Keys == old(cache).Keys - (set o | o in out :: o.keyId) && cache.Items <= old(cache).Items
    {
      out := [];
      for n := 0 to |waiters|
        invariant out == Denials(serials, waiters[..n]) && crl == old(crl) && crlInflight == old(crlInflight)
        invariant cache.Keys == old(cache).Keys - (set o | o in out :: o.keyId) && cache.Items <= old(cache).Items
        invariant (Contents(), out) == AfterCrlAll(old(Contents()), now, waiters[..n], serials)
      {
        assert waiters[..n + 1][..n] == waiters[..n];
        assert out + [] == out;
        var settled := Proceed(now, waiters[n], serials);
        if settled.Some? { out := out + [Settled(waiters[n], settled.value)]; }
      }
      assert waiters[..|waiters|] == waiters;
    }

    /** The certificate arrives and the flight's promise settles. */
    method CertArrived(now: int, id: string, ghost startedAt: int, reply: CertReply) returns (answer: Answer)
      requires CertRequest(id, startedAt) in pending
      modifies this
      ensures (Contents(), [Settled(id, answer)])
              == Step(old(Contents()), ttl, Timed(now, CertArrives(id, startedAt, reply)))
      // a certificate is cached and handed out, anything else is null
      ensures answer == if reply.Cert? then Key(reply.publicKeyPem) else Null
      ensures cache == if reply.Cert? then old(cache)[id := Cached(reply.publicKeyPem, now)] else old(cache)
      ensures inflight == old(inflight) - {id} && pending == old(pending) - multiset{CertRequest(id, startedAt)}
    {
      pending := pending - multiset{CertRequest(id, startedAt)};
      inflight := inflight - {id};
      match reply
      case Cert(pem) =>
        cache := cache[id := Cached(pem, now)];
        answer := Key(pem);
      case NoCert => answer := Null;
      case CertFailed => answer := Null;
    }

    method Invalidate(now: int, id: string)
      modifies this`cache
      ensures cache == old(cache) - {id}
      ensures Step(old(Contents()), ttl, Timed(now, Event.Invalidate(id))) == (Contents(), [])
    {
      cache := cache - {id};
    }

    method InvalidateCrl(now: int, region: string)
      modifies this`crl
      ensures crl == old(crl) - {region}
      ensures Step(old(Contents()), ttl, Timed(now, Event.InvalidateCrl(region))) == (Contents(), [])
    {
      crl := crl - {region};
    }
  }

  // -------------------------------------------------------------- single flight

  predicate SameTarget(p: Request, q: Request) {
    || (p.CrlRequest? && q.CrlRequest? && p.region == q.region)
    || (p.CertRequest? && q.CertRequest? && p.keyId == q.keyId)
  }

  /** At most one request per key identifier and one per region's CRL. */
  ghost predicate OneFetchEach(pending: multiset<Request>) {
    && (forall p :: p in pending ==> pending[p] == 1)
    && (forall p, q {:trigger SameTarget(p, q)} :: p in pending && q in pending && SameTarget(p, q) ==> p == q)
  }

  ghost predicate NoCertRequest(s: State, id: string) {
    forall t :: CertRequest(id, t) !in s.pending
  }

  ghost predicate NotWaiting(s: State, id: string) {
    forall region :: region in s.crlInflight ==> id !in s.crlInflight[region]
  }

  /** A flight that is about to resume: it neither waits nor has a request out. */
  ghost predicate Loose(s: State, id: string) {
    id in s.inflight && NoCertRequest(s, id) && NotWaiting(s, id)
  }

  ghost predicate Waits(s: State, region: string, id: string) {
    && id in s.inflight && NoCertRequest(s, id)
    && ParseKeyId(id).Some? && ParseKeyId(id).value.region == region
  }

  ghost predicate SingleFlight(s: State) {
    && OneFetchEach(s.pending)
    && (forall region, t :: CrlRequest(region, t) in s.pending ==> region in s.crlInflight)
    && (forall id, t :: CertRequest(id, t) in s.pending ==> id in s.inflight)
    && (forall region :: region in s.crlInflight ==> Distinct(s.crlInflight[region]))
    && (forall region, id {:trigger Waits(s, region, id)} ::
          region in s.crlInflight && id in s.crlInflight[region] ==> Waits(s, region, id))
  }

  /** A denied flight ends .. */
  lemma DenyKeeps(s: State, id: string)
    requires SingleFlight(s) && Loose(s, id)
    ensures SingleFlight(s.(cache := s.cache - {id}, inflight := s.inflight - {id}))
  {
    var t := s.(cache := s.cache - {id}, inflight := s.inflight - {id});
    forall region, other | region in t.crlInflight && other in t.crlInflight[region] ensures Waits(t, region, other) {
      assert Waits(s, region, other) && other != id;
    }
  }

  /** .. and any other sends for its certificate. */
  lemma SendCertKeeps(s: State, now: int, id: string)
    requires SingleFlight(s) && Loose(s, id)
    ensures SingleFlight(s.(pending := s.pending + multiset{CertRequest(id, now)}))
  {
    var t := s.(pending := s.pending + multiset{CertRequest(id, now)});
    forall region, other | region in t.crlInflight && other in t.crlInflight[region] ensures Waits(t, region, other) {
      assert Waits(s, region, other) && other != id;
    }
  }

  lemma AfterCrlKeeps(s: State, now: int, id: string, serials: set<string>)
    requires SingleFlight(s) && Loose(s, id)
    ensures var t := AfterCrl(s, now, id, serials).0;
      && SingleFlight(t)
      && t.crlInflight == s.crlInflight
      && (forall other :: other != id && Loose(s, other) ==> Loose(t, other))
  {
    DenyKeeps(s, id);
    SendCertKeeps(s, now, id);
  }

  lemma {:induction false} AfterCrlAllKeeps(s: State, now: int, ids: seq<string>, serials: set<string>)
    requires SingleFlight(s) && Distinct(ids) && forall id :: id in ids ==> Loose(s, id)
    ensures var t := AfterCrlAll(s, now, ids, serials).0;
      SingleFlight(t) && forall other :: other !in ids && Loose(s, other) ==> Loose(t, other)
  {
    if ids != [] {
      var init, last := ids[..|ids| - 1], ids[|ids| - 1];
      AfterCrlAllKeeps(s, now, init, serials);
      var t := AfterCrlAll(s, now, init, serials).0;
      assert last !in init && last in ids;
      assert Loose(t, last);
      AfterCrlKeeps(t, now, last, serials);
    }
  }

  lemma JoinCrlKeeps(s: State, id: string, region: string)
    requires SingleFlight(s) && Loose(s, id) && region in s.crlInflight
    requires ParseKeyId(id).Some? && ParseKeyId(id).value.region == region
    ensures SingleFlight(s.(crlInflight := s.crlInflight[region := s.crlInflight[region] + [id]]))
  {
    var t := s.(crlInflight := s.crlInflight[region := s.crlInflight[region] + [id]]);
    forall r, other | r in t.crlInflight && other in t.crlInflight[r] ensures Waits(t, r, other) {
      assert other != id ==> Waits(s, r, other);
    }
  }

  lemma SendCrlKeeps(s: State, now: int, id: string, region: string)
    requires SingleFlight(s) && Loose(s, id) && region !in s.crlInflight
    requires ParseKeyId(id).Some? && ParseKeyId(id).value.region == region
    ensures SingleFlight(s.(crlInflight := s.crlInflight[region := [id]],
                            pending := s.pending + multiset{CrlRequest(region, now)}))
  {
    var t := s.(crlInflight := s.crlInflight[region := [id]], pending := s.pending + multiset{CrlRequest(region, now)});
    forall r, other | r in t.crlInflight && other in t.crlInflight[r] ensures Waits(t, r, other) {
      assert other != id ==> Waits(s, r, other);
    }
  }

  lemma StartFlightKeeps(s: State, ttl: int, now: int, id: string, region: string)
    requires SingleFlight(s) && id !in s.inflight
    requires ParseKeyId(id).Some? && ParseKeyId(id).value.region == region
    ensures SingleFlight(StartFlight(s, ttl, now, id, region).0)
  {
    var t := s.(inflight := s.inflight + {id});
    forall r, other | r in s.crlInflight && other in s.crlInflight[r] ensures Waits(t, r, other) && other != id {
      assert Waits(s, r, other);
    }
    if region in s.crl && now - s.crl[region].fetchedAtMs <= ttl {
      AfterCrlKeeps(t, now, id, s.crl[region].serials);
    } else if region in s.crlInflight {
      JoinCrlKeeps(t, id, region);
    } else {
      SendCrlKeeps(t, now, id, region);
    }
  }

  lemma CrlReplyKeeps(s: State, now: int, region: string, startedAt: int, reply: CrlReply)
    requires SingleFlight(s) && CrlRequest(region, startedAt) in s.pending
    ensures var t := AfterCrlReply(s, now, region, startedAt, reply);
      SingleFlight(t) && region in s.crlInflight && forall id :: id in s.crlInflight[region] ==> Loose(t, id)
  {
    var t := AfterCrlReply(s, now, region, startedAt, reply);
    assert s.pending[CrlRequest(region, startedAt)] == 1;
    forall r, u | CrlRequest(r, u) in t.pending ensures r in t.crlInflight {
      assert r == region ==> SameTarget(CrlRequest(r, u), CrlRequest(region, startedAt));
    }
    forall r, id | r in s.crlInflight && id in s.crlInflight[r] ensures Waits(t, r, id) {
      assert Waits(s, r, id);
    }
    forall id | id in s.crlInflight[region] ensures Loose(t, id) {
      forall r | r in t.crlInflight ensures id !in t.crlInflight[r] {
        assert Waits(s, region, id);
        assert id in s.crlInflight[r] ==> Waits(s, r, id);
      }
    }
  }

  lemma CertReplyKeeps(s: State, now: int, id: string, startedAt: int, reply: CertReply)
    requires SingleFlight(s) && CertRequest(id, startedAt) in s.pending
    ensures SingleFlight(AfterCertReply(s, now, id, startedAt, reply))
  {
    var t := AfterCertReply(s, now, id, startedAt, reply);
    forall other, u | CertRequest(other, u) in t.pending ensures other in t.inflight {
      assert s.pending[CertRequest(id, startedAt)] == 1;
      if other == id { assert SameTarget(CertRequest(other, u), CertRequest(id, startedAt)); }
    }
    forall r, other | r in t.crlInflight && other in t.crlInflight[r] ensures Waits(t, r, other) {
      assert Waits(s, r, other);
    }
  }

  /** Every step keeps the single-flight discipline. */
  lemma StepKeepsSingleFlight(s: State, ttl: int, e: Timed)
    requires SingleFlight(s)
    ensures SingleFlight(Step(s, ttl, e).0)
  {
    if e.event.CrlArrives? {
      var region, startedAt, reply := e.event.region, e.event.startedAt, e.event.crlReply;
      if CrlRequest(region, startedAt) in s.pending {
        CrlReplyKeeps(s, e.now, region, startedAt, reply);
        AfterCrlAllKeeps(AfterCrlReply(s, e.now, region, startedAt, reply), e.now, s.crlInflight[region], SerialsIn(reply));
      }
    } else if e.event.CertArrives? {
      if CertRequest(e.event.keyId, e.event.startedAt) in s.pending {
        CertReplyKeeps(s, e.now, e.event.keyId, e.event.startedAt, e.event.certReply);
      }
    } else if e.event.ResolveAsync? && e.event.keyId !in s.inflight && ParseKeyId(e.event.keyId).Some? {
      StartFlightKeeps(s, ttl, e.now, e.event.keyId, ParseKeyId(e.event.keyId).value.region);
    } else {
      SameFlights(s, Step(s, ttl, e).0);
    }
  }

  lemma SameFlights(s: State, t: State)
    requires SingleFlight(s) && t.inflight == s.inflight && t.crlInflight == s.crlInflight && t.pending == s.pending
    ensures SingleFlight(t)
  {
    forall r, id | r in t.crlInflight && id in t.crlInflight[r] ensures Waits(t, r, id) {
      assert Waits(s, r, id);
    }
  }

  // ------------------------------------------------------------------- all runs

  function Run(ttl: int, events: seq<Timed>): State {
    if events == [] then Empty else Step(Run(ttl, events[..|events| - 1]), ttl, events[|events| - 1]).0
  }

  /** At all times at most one fetch is out per key and one per region's CRL. */
  lemma {:induction false} EveryRunSingleFlight(ttl: int, events: seq<Timed>)
    ensures SingleFlight(Run(ttl, events))
  {
    if events != [] {
      EveryRunSingleFlight(ttl, events[..|events| - 1]);
      StepKeepsSingleFlight(Run(ttl, events[..|events| - 1]), ttl, events[|events| - 1]);
    }
  }

  // ------------------------------------------------------------- a cached key answers

  function RunFrom(s: State, ttl: int, events: seq<Timed>): State {
    if events == [] then s else Step(RunFrom(s, ttl, events[..|events| - 1]), ttl, events[|events| - 1]).0
  }

  lemma {:induction false} RunContinues(ttl: int, before: seq<Timed>, events: seq<Timed>)
    ensures Run(ttl, before + events) == RunFrom(Run(ttl, before), ttl, events)
  {
    if events == [] {
      assert before + events == before;
    } else {
      var init := events[..|events| - 1];
      RunContinues(ttl, before, init);
      assert (before + events)[..|before + events| - 1] == before + init;
    }
  }

  /** The step comes before the key expires, and neither drops it nor replaces it. */
  ghost predicate LeavesKey(s: State, ttl: int, id: string, expiry: int, e: Timed) {
    && e.now <= expiry
    && e.event != Invalidate(id)
    && !(e.event.CertArrives? && e.event.keyId == id && e.event.certReply.Cert?)
    && Settled(id, Revoked) !in Step(s, ttl, e).1
  }

  ghost predicate AllLeaveKey(s: State, ttl: int, id: string, expiry: int, events: seq<Timed>) {
    forall i :: 0 <= i < |events| ==> LeavesKey(RunFrom(s, ttl, events[..i]), ttl, id, expiry, events[i])
  }

  ghost predicate Holds(s: State, id: string, key: Cached) { id in s.cache && s.cache[id] == key }

  lemma AfterCrlLeavesKey(s: State, now: int, other: string, serials: set<string>, id: string, key: Cached)
    requires Holds(s, id, key) && Settled(id, Revoked) !in AfterCrl(s, now, other, serials).1
    ensures Holds(AfterCrl(s, now, other, serials).0, id, key)
  {
  }

  lemma {:induction false} AfterCrlAllLeavesKey(s: State, now: int, ids: seq<string>, serials: set<string>,
                                                id: string, key: Cached)
    requires Holds(s, id, key) && Settled(id, Revoked) !in AfterCrlAll(s, now, ids, serials).1
    ensures Holds(AfterCrlAll(s, now, ids, serials).0, id, key)
  {
    if ids != [] {
      var init := ids[..|ids| - 1];
      var (t, before) := AfterCrlAll(s, now, init, serials);
      var (u, last) := AfterCrl(t, now, ids[|ids| - 1], serials);
      assert AfterCrlAll(s, now, ids, serials) == (u, before + last);
      assert Settled(id, Revoked) in before || Settled(id, Revoked) in last ==> Settled(id, Revoked) in before + last;
      AfterCrlAllLeavesKey(s, now, init, serials, id, key);
      AfterCrlLeavesKey(t, now, ids[|ids| - 1], serials, id, key);
    }
  }

  lemma StartFlightLeavesKey(s: State, ttl: int, now: int, other: string, region: string, id: string, key: Cached)
    requires Holds(s, id, key) && Settled(id, Revoked) !in StartFlight(s, ttl, now, other, region).1
    ensures Holds(StartFlight(s, ttl, now, other, region).0, id, key)
  {
  }

  lemma CrlReplyLeavesKey(s: State, ttl: int, now: int, region: string, startedAt: int, reply: CrlReply,
                          id: string, key: Cached)
    requires Holds(s, id, key)
    requires Settled(id, Revoked) !in Step(s, ttl, Timed(now, CrlArrives(region, startedAt, reply))).1
    ensures Holds(Step(s, ttl, Timed(now, CrlArrives(region, startedAt, reply))).0, id, key)
  {
    if CrlRequest(region, startedAt) in s.pending {
      var waiters := if region in s.crlInflight then s.crlInflight[region] else [];
      AfterCrlAllLeavesKey(AfterCrlReply(s, now, region, startedAt, reply), now, waiters, SerialsIn(reply), id, key);
    }
  }

  lemma StepLeavesKey(s: State, ttl: int, id: string, key: Cached, e: Timed)
    requires Holds(s, id, key) && LeavesKey(s, ttl, id, key.insertedAtMs + ttl, e)
    ensures Holds(Step(s, ttl, e).0, id, key)
  {
    if e.event.CrlArrives? {
      CrlReplyLeavesKey(s, ttl, e.now, e.event.region, e.event.startedAt, e.event.crlReply, id, key);
    } else if e.event.ResolveAsync? {
      var parts := ParseKeyId(e.event.keyId);
      if parts.Some? && !HoldsFresh(s.cache, ttl, e.now, e.event.keyId) && e.event.keyId !in s.inflight {
        StartFlightLeavesKey(s, ttl, e.now, e.event.keyId, parts.value.region, id, key);
      }
    }
  }

  lemma {:induction false} RunLeavesKey(s: State, ttl: int, id: string, key: Cached, events: seq<Timed>)
    requires Holds(s, id, key) && AllLeaveKey(s, ttl, id, key.insertedAtMs + ttl, events)
    ensures Holds(RunFrom(s, ttl, events), id, key)
  {
    if events != [] {
      var init := events[..|events| - 1];
      forall i | 0 <= i < |init| ensures LeavesKey(RunFrom(s, ttl, init[..i]), ttl, id, key.insertedAtMs + ttl, init[i]) {
        assert init[..i] == events[..i];
      }
      RunLeavesKey(s, ttl, id, key, init);
      StepLeavesKey(RunFrom(s, ttl, init), ttl, id, key, events[|events| - 1]);
    }
  }

  /** In any state: a call for a cached key that is not too old is answered with it. */
  lemma FreshKeyAnswers(s: State, ttl: int, now: int, id: string, key: Cached)
    requires ParseKeyId(id).Some? && Holds(s, id, key) && now <= key.insertedAtMs + ttl
    ensures Step(s, ttl, Timed(now, Resolve(id))).1 == [Returned(id, Key(key.publicKeyPem))]
    ensures Step(s, ttl, Timed(now, ResolveAsync(id))).1 == [Settled(id, Key(key.publicKeyPem))]
  {
  }

  /** Availability: from the arrival of its certificate at t until t + ttl, every call for the
      key is answered with it, whatever else happens, as long as the key is not invalidated,
      denied or replaced. */
  lemma ArrivedKeyAnswers(ttl: int, before: seq<Timed>, t: int, id: string, startedAt: int, pem: string,
                          between: seq<Timed>, now: int)
    requires CertRequest(id, startedAt) in Run(ttl, before).pending && ParseKeyId(id).Some?
    requires var arrival := Timed(t, CertArrives(id, startedAt, Cert(pem)));
      AllLeaveKey(Run(ttl, before + [arrival]), ttl, id, t + ttl, between)
    requires now <= t + ttl
    ensures var s := Run(ttl, before + [Timed(t, CertArrives(id, startedAt, Cert(pem)))] + between);
      && Step(s, ttl, Timed(now, Resolve(id))).1 == [Returned(id, Key(pem))]
      && Step(s, ttl, Timed(now, ResolveAsync(id))).1 == [Settled(id, Key(pem))]
  {
    var arrival := Timed(t, CertArrives(id, startedAt, Cert(pem)));
    var key := Cached(pem, t);
    RunContinues(ttl, before, [arrival]);
    CertIsHeld(Run(ttl, before), ttl, t, id, startedAt, pem);
    RunContinues(ttl, before + [arrival], between);
    RunLeavesKey(Run(ttl, before + [arrival]), ttl, id, key, between);
    FreshKeyAnswers(Run(ttl, before + [arrival] + between), ttl, now, id, key);
  }

  lemma CertIsHeld(s: State, ttl: int, t: int, id: string, startedAt: int, pem: string)
    requires CertRequest(id, startedAt) in s.pending
    ensures Holds(RunFrom(s, ttl, [Timed(t, CertArrives(id, startedAt, Cert(pem)))]), id, Cached(pem, t))
  {
    var e := Timed(t, CertArrives(id, startedAt, Cert(pem)));
    assert [e][..|[e]| - 1] == [];
  }

  // ------------------------------------------------------------ bounded staleness

  /** The world after the key's serial was revoked at time r: no fetch takes longer
      than d, and a CRL fetch sent after r succeeds and lists the serial. */
  datatype World = World(ttl: int, d: int, r: int, id: string, region: string, serial: string)

  ghost predicate ValidWorld(w: World) {
    && 0 <= w.ttl && 0 <= w.d
    && ParseKeyId(w.id) == Some(KeyParts(w.region, w.serial))
    && SeparatorFree(w.serial)
  }

  ghost predicate Admits(w: World, s: State, e: Timed) {
    && (forall p :: p in s.pending ==> e.now <= p.startedAt + w.d)
    && (e.event.CrlArrives? && e.event.region == w.region && e.event.startedAt > w.r ==>
          e.event.crlReply.Listed? && Lists(ListedIn(e.event.crlReply.body, e.event.crlReply.json), w.serial))
  }

  /** What may still be stale, and since when at the latest. */
  ghost predicate Aging(w: World, s: State) {
    && (w.region in s.crl && Lower(w.serial) !in s.crl[w.region].serials ==>
          s.crl[w.region].fetchedAtMs <= w.r + w.d)
    && (forall t :: CertRequest(w.id, t) in s.pending ==> t <= w.r + w.d + w.ttl)
    && (w.id in s.cache ==> s.cache[w.id].insertedAtMs <= w.r + 2 * w.d + w.ttl)
  }

  /** The key is not handed out after the bound, and then a pending call is denied
      outright rather than left without an answer. */
  ghost predicate Fresh(w: World, now: int, out: seq<Output>) {
    forall o :: o in out && o.keyId == w.id && now > w.r + 2 * w.ttl + 2 * w.d ==>
      !o.answer.Key? && (o.Settled? ==> o.answer == Revoked)
  }

  lemma AfterCrlAges(w: World, s: State, now: int, id: string, serials: set<string>)
    requires ValidWorld(w) && Aging(w, s)
    requires id == w.id && Lower(w.serial) !in serials ==> now <= w.r + w.d + w.ttl
    ensures Aging(w, AfterCrl(s, now, id, serials).0)
    ensures Fresh(w, now, AfterCrl(s, now, id, serials).1)
  {
  }

  lemma {:induction false} AfterCrlAllAges(w: World, s: State, now: int, ids: seq<string>, serials: set<string>)
    requires ValidWorld(w) && Aging(w, s)
    requires w.id in ids && Lower(w.serial) !in serials ==> now <= w.r + w.d + w.ttl
    ensures Aging(w, AfterCrlAll(s, now, ids, serials).0)
    ensures Fresh(w, now, AfterCrlAll(s, now, ids, serials).1)
  {
    if ids != [] {
      var init, last := ids[..|ids| - 1], ids[|ids| - 1];
      AfterCrlAllAges(w, s, now, init, serials);
      AfterCrlAges(w, AfterCrlAll(s, now, init, serials).0, now, last, serials);
    }
  }

  lemma CrlReplyAges(w: World, s: State, e: Timed)
    requires ValidWorld(w) && SingleFlight(s) && Aging(w, s) && Admits(w, s, e)
    requires e.event.CrlArrives? && CrlRequest(e.event.region, e.event.startedAt) in s.pending
    ensures Aging(w, Step(s, w.ttl, e).0) && Fresh(w, e.now, Step(s, w.ttl, e).1)
  {
    var region, startedAt, reply := e.event.region, e.event.startedAt, e.event.crlReply;
    var t := AfterCrlReply(s, e.now, region, startedAt, reply);
    CrlReplyKeeps(s, e.now, region, startedAt, reply);
    if region == w.region {
      if startedAt > w.r {
        SerialOf(w);
        RevocationRecognisedIff(w.serial, ListedIn(reply.body, reply.json));
      } else {
        assert CrlRequest(region, startedAt).startedAt == startedAt;
      }
    } else if w.id in s.crlInflight[region] {
      assert Waits(s, region, w.id);
    }
    assert Aging(w, t);
    AfterCrlAllAges(w, t, e.now, s.crlInflight[region], SerialsIn(reply));
  }

  lemma SerialOf(w: World)
    requires ValidWorld(w)
    ensures IsSerial(w.serial)
  {
  }

  lemma StartFlightAges(w: World, s: State, now: int, id: string, region: string)
    requires ValidWorld(w) && Aging(w, s) && (id == w.id ==> region == w.region)
    ensures Aging(w, StartFlight(s, w.ttl, now, id, region).0)
    ensures Fresh(w, now, StartFlight(s, w.ttl, now, id, region).1)
  {
  }

  lemma CertReplyAges(w: World, s: State, e: Timed)
    requires ValidWorld(w) && Aging(w, s) && Admits(w, s, e)
    requires e.event.CertArrives? && CertRequest(e.event.keyId, e.event.startedAt) in s.pending
    ensures Aging(w, Step(s, w.ttl, e).0) && Fresh(w, e.now, Step(s, w.ttl, e).1)
  {
  }

  lemma CacheAnswersAge(w: World, s: State, e: Timed)
    requires ValidWorld(w) && Aging(w, s)
    requires !e.event.CrlArrives? && !e.event.CertArrives? && (e.event.ResolveAsync? ==> e.event.keyId in s.inflight)
    ensures Aging(w, Step(s, w.ttl, e).0) && Fresh(w, e.now, Step(s, w.ttl, e).1)
  {
  }

  lemma StepAges(w: World, s: State, e: Timed)
    requires ValidWorld(w) && SingleFlight(s) && Aging(w, s) && Admits(w, s, e)
    ensures Aging(w, Step(s, w.ttl, e).0) && Fresh(w, e.now, Step(s, w.ttl, e).1)
  {
    if e.event.CrlArrives? {
      if CrlRequest(e.event.region, e.event.startedAt) in s.pending { CrlReplyAges(w, s, e); }
    } else if e.event.CertArrives? {
      if CertRequest(e.event.keyId, e.event.startedAt) in s.pending { CertReplyAges(w, s, e); }
    } else if e.event.ResolveAsync? && e.event.keyId !in s.inflight {
      var parts := ParseKeyId(e.event.keyId);
      if parts.Some? { StartFlightAges(w, s, e.now, e.event.keyId, parts.value.region); }
    } else {
      CacheAnswersAge(w, s, e);
    }
  }

  ghost predicate Admissible(w: World, events: seq<Timed>) {
    forall i :: 0 <= i < |events| ==> Admits(w, Run(w.ttl, events[..i]), events[i])
  }

  lemma {:induction false} EveryRunAges(w: World, events: seq<Timed>)
    requires ValidWorld(w) && Admissible(w, events)
    ensures Aging(w, Run(w.ttl, events))
  {
    if events != [] {
      var init, last := events[..|events| - 1], events[|events| - 1];
      forall i | 0 <= i < |init| ensures Admits(w, Run(w.ttl, init[..i]), init[i]) {
        assert init[..i] == events[..i];
      }
      EveryRunAges(w, init);
      EveryRunSingleFlight(w.ttl, init);
      StepAges(w, Run(w.ttl, init), last);
    }
  }

  /** Bounded staleness: in every admissible run, no call returns the revoked key
      later than r + 2 ttl + 2 d, and from then on every asynchronous call that
      settles is told that the key is revoked. */
  lemma BoundedStaleness(w: World, events: seq<Timed>, i: nat)
    requires ValidWorld(w) && Admissible(w, events) && i < |events|
    ensures Fresh(w, events[i].now, Step(Run(w.ttl, events[..i]), w.ttl, events[i]).1)
  {
    forall j | 0 <= j < i ensures Admits(w, Run(w.ttl, events[..i][..j]), events[..i][j]) {
      assert events[..i][..j] == events[..j];
    }
    EveryRunAges(w, events[..i]);
    EveryRunSingleFlight(w.ttl, events[..i]);
    StepAges(w, Run(w.ttl, events[..i]), events[i]);
  }

  // ------------------------------------------------------------ the bound is tight

  lemma OneMore(w: World, events: seq<Timed>, e: Timed)
    requires Admissible(w, events) && Admits(w, Run(w.ttl, events), e)
    ensures Admissible(w, events + [e])
    ensures Run(w.ttl, events + [e]) == Step(Run(w.ttl, events), w.ttl, e).0
  {
    var more := events + [e];
    assert more[..|events|] == events;
    forall i | 0 <= i < |more| ensures Admits(w, Run(w.ttl, more[..i]), more[i]) {
      if i < |events| { assert more[..i] == events[..i]; }
    }
  }

  lemma StepOn(w: World, events: seq<Timed>, s: State, e: Timed, t: State)
    requires Admissible(w, events) && Run(w.ttl, events) == s && Admits(w, s, e) && Step(s, w.ttl, e).0 == t
    ensures Admissible(w, events + [e]) && Run(w.ttl, events + [e]) == t
  {
    OneMore(w, events, e);
  }

  /** Another key of the same region. */
  ghost predicate Neighbour(w: World, other: string) {
    other != w.id && ParseKeyId(other).Some? && ParseKeyId(other).value.region == w.region
  }

  lemma RegionKey(region: string, serial: string)
    requires IsRegion(region) && IsSerial(serial)
    ensures ParseKeyId(region + ":" + serial) == Some(KeyParts(region, serial))
  {
    var s := region + ":" + serial;
    ColonBehind(region, serial);
    assert s[..|region|] == region && s[|region| + 1..] == serial;
  }

  lemma NeighbourExists(w: World) returns (other: string)
    requires ParseKeyId(w.id).Some? && ParseKeyId(w.id).value.region == w.region
    ensures Neighbour(w, other)
  {
    var zero, one := w.region + ":" + "0", w.region + ":" + "1";
    RegionKey(w.region, "0");
    RegionKey(w.region, "1");
    assert zero[|w.region| + 1] != one[|w.region| + 1];
    other := if w.id == zero then one else zero;
  }

  /** A JSON body with an empty list. */
  const NothingRevoked: CrlReply := Listed("{}", Parsed([]))

  lemma NothingListed()
    ensures SerialsIn(NothingRevoked) == {}
  {
    assert Trim("{}") == "{}";
  }

  ghost predicate Late(w: World, other: string, blank: CrlReply) {
    ValidWorld(w) && Neighbour(w, other) && blank.Listed? && SerialsIn(blank) == {}
  }

  /** The only flight, waiting for its region's list. */
  function OneWaiting(region: string, startedAt: int, id: string): State {
    State(map[], {id}, map[], map[region := [id]], multiset{CrlRequest(region, startedAt)})
  }

  /** A list arrives that the lookup does not find the flight's serial on. */
  lemma OnlyWaiterPasses(ttl: int, now: int, region: string, startedAt: int, reply: CrlReply, id: string)
    requires reply.Listed? && ParseKeyId(id).Some? && Lower(ParseKeyId(id).value.serial) !in SerialsIn(reply)
    ensures Step(OneWaiting(region, startedAt, id), ttl, Timed(now, CrlArrives(region, startedAt, reply))).0
         == OneSent(map[region := CrlEntry(SerialsIn(reply), now)], id, now)
  {
    var s := OneWaiting(region, startedAt, id);
    assert s.crlInflight - {region} == map[];
    assert s.pending - multiset{CrlRequest(region, startedAt)} == multiset{};
    OneWaiter(AfterCrlReply(s, now, region, startedAt, reply), now, id, SerialsIn(reply));
  }

  /** The only flight, with the request for its certificate out. */
  function OneSent(crl: map<string, CrlEntry>, id: string, startedAt: int): State {
    State(map[], {id}, crl, map[], multiset{CertRequest(id, startedAt)})
  }

  /** Nothing under way, and perhaps one key in the cache. */
  function Resting(cache: map<string, Cached>, crl: map<string, CrlEntry>): State {
    State(cache, {}, crl, map[], multiset{})
  }

  lemma OnlyFlightOver(crl: map<string, CrlEntry>, now: int, id: string, startedAt: int, reply: CertReply)
    ensures AfterCertReply(OneSent(crl, id, startedAt), now, id, startedAt, reply)
         == Resting(if reply.Cert? then map[id := Cached(reply.publicKeyPem, now)] else map[], crl)
  {
    var s := OneSent(crl, id, startedAt);
    assert s.pending - multiset{CertRequest(id, startedAt)} == multiset{};
    assert s.inflight - {id} == {};
  }

  /** The certificate of the only flight does not exist .. */
  lemma OnlyFlightFails(crl: map<string, CrlEntry>, ttl: int, now: int, id: string, startedAt: int)
    ensures Step(OneSent(crl, id, startedAt), ttl, Timed(now, CertArrives(id, startedAt, NoCert))).0
         == Resting(map[], crl)
  {
    OnlyFlightOver(crl, now, id, startedAt, NoCert);
  }

  /** .. or arrives. */
  lemma OnlyFlightEnds(crl: map<string, CrlEntry>, ttl: int, now: int, id: string, startedAt: int, pem: string)
    ensures Step(OneSent(crl, id, startedAt), ttl, Timed(now, CertArrives(id, startedAt, Cert(pem))))
         == (Resting(map[id := Cached(pem, now)], crl), [Settled(id, Key(pem))])
  {
    OnlyFlightOver(crl, now, id, startedAt, Cert(pem));
  }

  /** A first call in a region sends for its list. */
  lemma FirstCall(ttl: int, now: int, id: string)
    requires ParseKeyId(id).Some?
    ensures Step(Empty, ttl, Timed(now, ResolveAsync(id))).0 == OneWaiting(ParseKeyId(id).value.region, now, id)
  {
  }

  /** A call that finds a list in the cache, and not its own serial on it. */
  lemma CachedListPasses(crl: map<string, CrlEntry>, ttl: int, now: int, id: string)
    requires ParseKeyId(id).Some?
    requires var parts := ParseKeyId(id).value;
      parts.region in crl && now - crl[parts.region].fetchedAtMs <= ttl && Lower(parts.serial) !in crl[parts.region].serials
    ensures Step(Resting(map[], crl), ttl, Timed(now, ResolveAsync(id))).0 == OneSent(crl, id, now)
  {
    assert {} + {id} == {id};
    assert multiset{} + multiset{CertRequest(id, now)} == multiset{CertRequest(id, now)};
  }

  function StaleList(w: World): map<string, CrlEntry> { map[w.region := CrlEntry({}, w.r + w.d)] }

  function StaleKey(w: World): State {
    Resting(map[w.id := Cached("k", w.r + 2 * w.d + w.ttl)], StaleList(w))
  }

  /** A run in five events. Another key of the region has the list fetched at the last
      moment that may miss the revocation; the revoked key passes that list just
      before it expires, and is cached. */
  function LateEvent(w: World, other: string, blank: CrlReply, n: nat): Timed {
    if n == 0 then Timed(w.r, ResolveAsync(other))
    else if n == 1 then Timed(w.r + w.d, CrlArrives(w.region, w.r, blank))
    else if n == 2 then Timed(w.r + w.d, CertArrives(other, w.r + w.d, NoCert))
    else if n == 3 then Timed(w.r + w.d + w.ttl, ResolveAsync(w.id))
    else Timed(w.r + 2 * w.d + w.ttl, CertArrives(w.id, w.r + w.d + w.ttl, Cert("k")))
  }

  function LateState(w: World, other: string, n: nat): State {
    if n == 0 then Empty
    else if n == 1 then OneWaiting(w.region, w.r, other)
    else if n == 2 then OneSent(StaleList(w), other, w.r + w.d)
    else if n == 3 then Resting(map[], StaleList(w))
    else if n == 4 then OneSent(StaleList(w), w.id, w.r + w.d + w.ttl)
    else StaleKey(w)
  }

  lemma NeighbourCalls(w: World, other: string, blank: CrlReply)
    requires Neighbour(w, other)
    ensures Step(LateState(w, other, 0), w.ttl, LateEvent(w, other, blank, 0)).0 == LateState(w, other, 1)
  {
    FirstCall(w.ttl, w.r, other);
  }

  lemma StaleListArrives(w: World, other: string, blank: CrlReply)
    requires ParseKeyId(other).Some? && blank.Listed? && SerialsIn(blank) == {}
    ensures Step(LateState(w, other, 1), w.ttl, LateEvent(w, other, blank, 1)).0 == LateState(w, other, 2)
  {
    LateStates(w, other, blank);
    OnlyWaiterPasses(w.ttl, w.r + w.d, w.region, w.r, blank, other);
  }

  lemma LateStates(w: World, other: string, blank: CrlReply)
    ensures LateState(w, other, 1) == OneWaiting(w.region, w.r, other)
    ensures LateEvent(w, other, blank, 1) == Timed(w.r + w.d, CrlArrives(w.region, w.r, blank))
    ensures LateState(w, other, 2) == OneSent(map[w.region := CrlEntry({}, w.r + w.d)], other, w.r + w.d)
  {
  }

  lemma NeighbourHasNoCert(w: World, other: string, blank: CrlReply)
    ensures Step(LateState(w, other, 2), w.ttl, LateEvent(w, other, blank, 2)).0 == LateState(w, other, 3)
  {
    OnlyFlightFails(StaleList(w), w.ttl, w.r + w.d, other, w.r + w.d);
  }

  lemma RevokedKeyPasses(w: World, other: string, blank: CrlReply)
    requires ParseKeyId(w.id) == Some(KeyParts(w.region, w.serial))
    ensures Step(LateState(w, other, 3), w.ttl, LateEvent(w, other, blank, 3)).0 == LateState(w, other, 4)
  {
    CachedListPasses(StaleList(w), w.ttl, w.r + w.d + w.ttl, w.id);
  }

  lemma RevokedKeyCached(w: World, other: string, blank: CrlReply)
    ensures Step(LateState(w, other, 4), w.ttl, LateEvent(w, other, blank, 4)).0 == LateState(w, other, 5)
  {
    OnlyFlightEnds(StaleList(w), w.ttl, w.r + 2 * w.d + w.ttl, w.id, w.r + w.d + w.ttl, "k");
  }

  lemma LateSteps(w: World, other: string, blank: CrlReply, n: nat)
    requires Late(w, other, blank) && n < 5
    ensures Step(LateState(w, other, n), w.ttl, LateEvent(w, other, blank, n)).0 == LateState(w, other, n + 1)
  {
    if n == 0 { NeighbourCalls(w, other, blank); }
    else if n == 1 { StaleListArrives(w, other, blank); }
    else if n == 2 { NeighbourHasNoCert(w, other, blank); }
    else if n == 3 { RevokedKeyPasses(w, other, blank); }
    else { RevokedKeyCached(w, other, blank); }
  }

  lemma LateAdmitted(w: World, other: string, blank: CrlReply, n: nat)
    requires Late(w, other, blank) && n < 5
    ensures Admits(w, LateState(w, other, n), LateEvent(w, other, blank, n))
  {
  }

  lemma {:induction false} LateRun(w: World, other: string, blank: CrlReply, n: nat) returns (events: seq<Timed>)
    requires Late(w, other, blank) && n <= 5
    ensures Admissible(w, events) && Run(w.ttl, events) == LateState(w, other, n)
  {
    if n == 0 {
      events := [];
    } else {
      events := LateRun(w, other, blank, n - 1);
      LateAdmitted(w, other, blank, n - 1);
      LateSteps(w, other, blank, n - 1);
      StepOn(w, events, LateState(w, other, n - 1), LateEvent(w, other, blank, n - 1), LateState(w, other, n));
      events := events + [LateEvent(w, other, blank, n - 1)];
    }
  }

  function LastCall(w: World): Timed {
    Timed(w.r + 2 * w.ttl + 2 * w.d, ResolveAsync(w.id))
  }

  lemma LateAnswer(w: World)
    requires ParseKeyId(w.id).Some? && 0 <= w.ttl
    ensures Admits(w, StaleKey(w), LastCall(w))
    ensures Step(StaleKey(w), w.ttl, LastCall(w)).1 == [Settled(w.id, Key("k"))]
  {
  }

  lemma LastAnswer(w: World, events: seq<Timed>)
    requires ParseKeyId(w.id).Some? && 0 <= w.ttl
    requires Admissible(w, events) && Run(w.ttl, events) == StaleKey(w)
    ensures Admissible(w, events + [LastCall(w)])
    ensures Step(Run(w.ttl, events), w.ttl, LastCall(w)).1 == [Settled(w.id, Key("k"))]
  {
    LateAnswer(w);
    OneMore(w, events, LastCall(w));
  }

  /** The bound cannot be lowered: in every such world there is an admissible run that
      still returns the key at exactly r + 2 ttl + 2 d. */
  lemma BoundIsTight(w: World) returns (events: seq<Timed>)
    requires ValidWorld(w)
    ensures Admissible(w, events + [LastCall(w)])
    ensures LastCall(w).now == w.r + 2 * w.ttl + 2 * w.d
    ensures Step(Run(w.ttl, events), w.ttl, LastCall(w)).1 == [Settled(w.id, Key("k"))]
  {
    var other := NeighbourExists(w);
    NothingListed();
    events := LateRun(w, other, NothingRevoked, 5);
    LastAnswer(w, events);
  }

  lemma OneWaiter(s: State, now: int, id: string, serials: set<string>)
    ensures AfterCrlAll(s, now, [id], serials) == AfterCrl(s, now, id, serials)
  {
    var (t, out) := AfterCrl(s, now, id, serials);
    assert [id][..|[id]| - 1] == [];
    assert AfterCrlAll(s, now, [], serials) == (s, []);
    assert [] + out == out;
  }

  // ------------------------------------------------- serials with separators

  predicate IsDashed(id: string) { ParseKeyId(id).Some? && !SeparatorFree(ParseKeyId(id).value.serial) }

  /** No cached list holds a separator. */
  ghost predicate DashFree(s: State) {
    forall region, x :: region in s.crl && x in s.crl[region].serials ==> '-' !in x
  }

  lemma {:induction false} NoRevocationAmong(s: State, now: int, ids: seq<string>, serials: set<string>, id: string)
    requires IsDashed(id) && forall x :: x in serials ==> '-' !in x
    ensures AfterCrlAll(s, now, ids, serials).0.crl == s.crl
    ensures Settled(id, Revoked) !in AfterCrlAll(s, now, ids, serials).1
  {
    DashStaysInLower(ParseKeyId(id).value.serial);
    if ids != [] { NoRevocationAmong(s, now, ids[..|ids| - 1], serials, id); }
  }

  lemma DashedListStep(s: State, ttl: int, now: int, region: string, startedAt: int, reply: CrlReply, id: string)
    requires IsDashed(id) && DashFree(s)
    ensures var (t, out) := Step(s, ttl, Timed(now, CrlArrives(region, startedAt, reply)));
      DashFree(t) && Settled(id, Revoked) !in out
  {
    if reply.Listed? { NoDashListed(ListedIn(reply.body, reply.json)); }
    var t := AfterCrlReply(s, now, region, startedAt, reply);
    assert DashFree(t);
    NoRevocationAmong(t, now, if region in s.crlInflight then s.crlInflight[region] else [], SerialsIn(reply), id);
  }

  lemma DashedStartFlight(s: State, ttl: int, now: int, id: string, region: string, dashed: string)
    requires IsDashed(dashed) && DashFree(s)
    ensures var (t, out) := StartFlight(s, ttl, now, id, region); t.crl == s.crl && Settled(dashed, Revoked) !in out
  {
    DashStaysInLower(ParseKeyId(dashed).value.serial);
  }

  lemma DashedStep(s: State, ttl: int, e: Timed, id: string)
    requires IsDashed(id) && DashFree(s)
    ensures DashFree(Step(s, ttl, e).0) && Settled(id, Revoked) !in Step(s, ttl, e).1
  {
    if e.event.CrlArrives? {
      DashedListStep(s, ttl, e.now, e.event.region, e.event.startedAt, e.event.crlReply, id);
    } else if e.event.ResolveAsync? {
      var parts := ParseKeyId(e.event.keyId);
      if parts.Some? { DashedStartFlight(s, ttl, e.now, e.event.keyId, parts.value.region, id); }
    }
  }

  lemma {:induction false} EveryRunDashFree(ttl: int, events: seq<Timed>, id: string)
    requires IsDashed(id)
    ensures DashFree(Run(ttl, events))
  {
    if events != [] {
      var init := events[..|events| - 1];
      EveryRunDashFree(ttl, init, id);
      DashedStep(Run(ttl, init), ttl, events[|events| - 1], id);
    }
  }

  /** A key whose serial is written with separators is never told to be revoked: not in
      any run, whatever the lists say. */
  lemma DashedNeverRevoked(ttl: int, events: seq<Timed>, e: Timed, id: string)
    requires IsDashed(id)
    ensures Settled(id, Revoked) !in Step(Run(ttl, events), ttl, e).1
  {
    EveryRunDashFree(ttl, events, id);
    DashedStep(Run(ttl, events), ttl, e, id);
  }

  /** A world with such a key: revoked at r, and named on every list from then on. */
  ghost predicate DashedWorld(w: World) {
    && 0 <= w.ttl && 0 <= w.d
    && ParseKeyId(w.id) == Some(KeyParts(w.region, w.serial)) && !SeparatorFree(w.serial)
  }

  function NamesIt(serial: string): CrlReply { Listed("{}", Parsed([Some(serial)])) }

  lemma ItIsNamed(serial: string)
    ensures ListedIn(NamesIt(serial).body, NamesIt(serial).json) == [serial]
  {
    assert Trim("{}") == "{}";
    PresentOfOneMore([Some(serial)], 0);
    assert [Some(serial)][..1] == [Some(serial)] && [Some(serial)][..0] == [];
  }

  /** At any time: a call, a list that names the key, and the certificate all the same. */
  function DashedEvent(w: World, now: int, n: nat): Timed {
    if n == 0 then Timed(now, ResolveAsync(w.id))
    else if n == 1 then Timed(now, CrlArrives(w.region, now, NamesIt(w.serial)))
    else Timed(now, CertArrives(w.id, now, Cert("k")))
  }

  function DashedState(w: World, now: int, n: nat): State {
    if n == 0 then Empty
    else if n == 1 then OneWaiting(w.region, now, w.id)
    else OneSent(map[w.region := CrlEntry(SerialsOf([w.serial]), now)], w.id, now)
  }

  lemma DashedCall(w: World, now: int)
    requires DashedWorld(w)
    ensures Admits(w, DashedState(w, now, 0), DashedEvent(w, now, 0))
    ensures Step(DashedState(w, now, 0), w.ttl, DashedEvent(w, now, 0)).0 == DashedState(w, now, 1)
  {
    FirstCall(w.ttl, now, w.id);
  }

  lemma DashedList(w: World, now: int)
    requires DashedWorld(w)
    ensures Admits(w, DashedState(w, now, 1), DashedEvent(w, now, 1))
    ensures Step(DashedState(w, now, 1), w.ttl, DashedEvent(w, now, 1)).0 == DashedState(w, now, 2)
  {
    ItIsNamed(w.serial);
    assert Lists([w.serial], w.serial) by { assert SameNumber([w.serial][0], w.serial); }
    NoDashListed([w.serial]);
    DashStaysInLower(w.serial);
    OnlyWaiterPasses(w.ttl, now, w.region, now, NamesIt(w.serial), w.id);
  }

  lemma DashedCert(w: World, now: int)
    requires DashedWorld(w)
    ensures Admits(w, DashedState(w, now, 2), DashedEvent(w, now, 2))
    ensures Step(DashedState(w, now, 2), w.ttl, DashedEvent(w, now, 2)).1 == [Settled(w.id, Key("k"))]
  {
    OnlyFlightEnds(map[w.region := CrlEntry(SerialsOf([w.serial]), now)], w.ttl, now, w.id, now, "k");
  }

  /** Its key is still handed out at any later time, although every list names it. */
  lemma DashedHasNoBound(w: World, now: int) returns (events: seq<Timed>, last: Timed)
    requires DashedWorld(w)
    ensures last.now == now && Admissible(w, events + [last])
    ensures Step(Run(w.ttl, events), w.ttl, last).1 == [Settled(w.id, Key("k"))]
  {
    events := [];
    DashedCall(w, now);
    OneMore(w, events, DashedEvent(w, now, 0));
    events := events + [DashedEvent(w, now, 0)];
    DashedList(w, now);
    OneMore(w, events, DashedEvent(w, now, 1));
    events := events + [DashedEvent(w, now, 1)];
    DashedCert(w, now);
    last := DashedEvent(w, now, 2);
    OneMore(w, events, last);
  }

  /** The bound holds in every run. */
  ghost predicate Bounded(w: World) {
    forall events, i {:trigger StaysFresh(w, events, i)} ::
      Admissible(w, events) && 0 <= i < |events| ==> StaysFresh(w, events, i)
  }

  ghost predicate StaysFresh(w: World, events: seq<Timed>, i: nat)
    requires i < |events|
  {
    Fresh(w, events[i].now, Step(Run(w.ttl, events[..i]), w.ttl, events[i]).1)
  }

  /** So staleness is bounded exactly for the keys whose serial has no separator. */
  lemma StalenessBoundedIff(w: World)
    requires 0 <= w.ttl && 0 <= w.d && ParseKeyId(w.id) == Some(KeyParts(w.region, w.serial))
    ensures Bounded(w) <==> SeparatorFree(w.serial)
  {
    if SeparatorFree(w.serial) {
      forall events, i | Admissible(w, events) && 0 <= i < |events| ensures StaysFresh(w, events, i) {
        BoundedStaleness(w, events, i);
      }
    } else {
      var events, last := DashedHasNoBound(w, w.r + 2 * w.ttl + 2 * w.d + 1);
      var run := events + [last];
      assert run[..|events|] == events && run[|events|] == last;
      assert Settled(w.id, Key("k")) in Step(Run(w.ttl, events), w.ttl, last).1;
      assert !StaysFresh(w, run, |events|);
    }
  }

  // ------------------------------------------------------------------ layering

  /** What one layer says: a key, nothing, a revocation, or some other failure. */
  datatype LayerAnswer = Found(pem: string) | Nothing | RevokedError | OtherError

  datatype LayeredResult = Value(pem: string) | Denied | Throws

  /** The first layer with an opinion decides. */
  function FirstOpinion(layers: seq<LayerAnswer>): LayeredResult {
    if layers == [] then Denied
    else match layers[0]
      case Found(pem) => Value(pem)
      case RevokedError => Denied
      case OtherError => Throws
      case Nothing => FirstOpinion(layers[1..])
  }

  /** `LayeredKeyResolver.resolveAsync`. */
  method LayeredResolveAsync(layers: seq<LayerAnswer>) returns (r: LayeredResult)
    ensures r == FirstOpinion(layers)
  {
    for n := 0 to |layers|
      invariant FirstOpinion(layers) == FirstOpinion(layers[n..])
    {
      assert layers[n..][0] == layers[n] && layers[n..][1..] == layers[n + 1..];
      match layers[n] {
        case Found(pem) => return Value(pem);
        case RevokedError => return Denied;
        case OtherError => return Throws;
        case Nothing =>
      }
    }
    return Denied;
  }

  ghost predicate Silent(layers: seq<LayerAnswer>) {
    forall i :: 0 <= i < |layers| ==> layers[i] == Nothing
  }

  /** A key comes back exactly when a layer holds it and every layer above is silent. */
  lemma {:induction false} KeyNeedsSilenceAbove(layers: seq<LayerAnswer>, pem: string)
    ensures FirstOpinion(layers) == Value(pem) <==>
            exists i :: 0 <= i < |layers| && layers[i] == Found(pem) && Silent(layers[..i])
  {
    if layers != [] && layers[0] == Nothing {
      KeyNeedsSilenceAbove(layers[1..], pem);
      if i :| 0 <= i < |layers[1..]| && layers[1..][i] == Found(pem) && Silent(layers[1..][..i]) {
        assert layers[..i + 1] == [Nothing] + layers[1..][..i];
        assert layers[i + 1] == Found(pem) && Silent(layers[..i + 1]);
      }
      if i :| 0 <= i < |layers| && layers[i] == Found(pem) && Silent(layers[..i]) {
        assert layers[1..][..i - 1] == layers[..i][1..];
        assert layers[1..][i - 1] == Found(pem) && Silent(layers[1..][..i - 1]);
      }
    } else if layers != [] {
      assert forall i :: 0 < i < |layers| ==> layers[..i][0] == layers[0];
      assert Silent(layers[..0]);
    }
  }

  /** How the Vault layer's settlement reaches the layered resolver. */
  function AsLayer(a: Answer): LayerAnswer {
    match a
    case Key(pem) => Found(pem)
    case Null => Nothing
    case Revoked => RevokedError
  }

  /** Past the bound the stack denies the key whatever the layers below still hold. */
  lemma VaultFirstDeniesRevoked(w: World, events: seq<Timed>, i: nat, settled: Answer, below: seq<LayerAnswer>)
    requires ValidWorld(w) && Admissible(w, events) && i < |events|
    requires events[i].now > w.r + 2 * w.ttl + 2 * w.d
    requires Settled(w.id, settled) in Step(Run(w.ttl, events[..i]), w.ttl, events[i]).1
    ensures FirstOpinion([AsLayer(settled)] + below) == Denied
  {
    BoundedStaleness(w, events, i);
    assert settled == Revoked;
  }
}
