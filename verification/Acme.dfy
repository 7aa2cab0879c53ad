/** The ACME client: nonces, polling and certificate issuance over HTTP-01, against any server. */
module Acme {
  import opened Text
  import opened Utf8

  datatype OrderStatus = Pending | Ready | Processing | Valid | Invalid

  datatype Order = Order(status: OrderStatus, authorizations: seq<string>, finalize: string,
                         certificate: Option<string>)

  datatype Challenge = Challenge(kind: string, url: string, token: string)

  datatype Authorization = Authorization(status: string, challenges: seq<Challenge>)

  /** The first challenge of a kind. */
  function ChallengeOf(challenges: seq<Challenge>, kind: string): (r: Option<Challenge>)
    ensures r.None? <==> forall i :: 0 <= i < |challenges| ==> challenges[i].kind != kind
    ensures r.Some? ==> exists i :: 0 <= i < |challenges| && r.value == challenges[i] && challenges[i].kind == kind
                                    && forall j :: 0 <= j < i ==> challenges[j].kind != kind
  {
    if challenges == [] then None
    else if challenges[0].kind == kind then Some(challenges[0])
    else
      assert forall i :: 0 < i < |challenges| ==> challenges[i] == challenges[1..][i - 1];
      ChallengeOf(challenges[1..], kind)
  }

  datatype Request = Request(url: string, nonce: string, kid: Option<string>, payload: bytes)

  datatype Response = Response(nonce: string, location: Option<string>, body: bytes)

  datatype Csr = Csr(der: string, keyPem: string)

  /** What lies outside the client: the account key, the payload and body formats, and a server whose
      answer to the n-th post may be anything, a lost one included. */
  datatype World = World(
    newAccount: string,
    newOrder: string,
    sign: Request -> Option<string>,
    server: (nat, string, string) -> Option<Response>,
    order: bytes -> Option<Order>,
    authorization: bytes -> Option<Authorization>,
    accountPayload: seq<string> -> bytes,
    orderPayload: seq<string> -> bytes,
    finalizePayload: string -> bytes,
    keyAuthorization: string -> string,
    csr: seq<string> -> Option<Csr>)

  /** Why a call ends in an error. */
  datatype Failure =
    | Lost(url: string, payload: bytes)
    | OrderUnreadable(url: string)
    | NoLocation
    | AuthorizationUnreadable(url: string)
    | NoChallenge(url: string)
    | AuthorizationInvalid(url: string)
    | AuthorizationLate(url: string)
    | NoCsr
    | OrderInvalid(url: string)
    | OrderLate(url: string)
    | NotText

  /** The payload `{}`. */
  const READY: bytes := [0x7B, 0x7D]

  /** A completed post, with the challenge tokens that were published at that moment. */
  datatype Exchange = Exchange(request: Request, response: Response, visible: map<string, string>)

  /** Every post signs the nonce that the previous completed post returned. */
  ghost predicate Threaded(start: string, log: seq<Exchange>, nonce: string) {
    && (forall k: nat :: k < |log| ==> log[k].request.nonce == NonceAt(start, log, k))
    && nonce == NonceAt(start, log, |log|)
  }

  /** The nonce for the post after the first `k`. */
  function NonceAt(start: string, log: seq<Exchange>, k: nat): string
    requires k <= |log|
  {
    if k == 0 then start else log[k - 1].response.nonce
  }

  lemma {:induction false} ThreadedPush(start: string, log: seq<Exchange>, e: Exchange)
    requires Threaded(start, log, e.request.nonce)
    ensures Threaded(start, log + [e], e.response.nonce)
  {
    var more := log + [e];
    forall k: nat | k < |more|
      ensures more[k].request.nonce == NonceAt(start, more, k)
    {
      assert NonceAt(start, more, k) == NonceAt(start, log, k);
    }
  }

  // ----- what the exchanges of one issuance look like -----

  predicate Got(e: Exchange, url: string) {
    e.request.url == url && e.request.payload == []
  }

  predicate AuthorizationReply(w: World, e: Exchange, status: string) {
    w.authorization(e.response.body).Some? && w.authorization(e.response.body).value.status == status
  }

  predicate Undecided(w: World, e: Exchange) {
    && w.authorization(e.response.body).Some?
    && w.authorization(e.response.body).value.status !in {"valid", "invalid"}
  }

  /** Polls of one authorization that ended well: undecided replies, then `valid`. */
  predicate PolledValid(w: World, url: string, polls: seq<Exchange>, max: nat) {
    && 0 < |polls| <= AtLeastOne(max)
    && (forall k :: 0 <= k < |polls| ==> Got(polls[k], url))
    && (forall k :: 0 <= k < |polls| - 1 ==> Undecided(w, polls[k]))
    && AuthorizationReply(w, polls[|polls| - 1], "valid")
  }

  function AtLeastOne(n: nat): nat {
    if n >= 1 then n else 1
  }

  /** One authorization carried through: fetched, its HTTP-01 token published besides what was in the store,
      the challenge answered, and polled until valid. */
  predicate Authorized(w: World, url: string, token: string, part: seq<Exchange>, max: nat,
                       store: map<string, string>) {
    && |part| >= 3
    && Got(part[0], url)
    && w.authorization(part[0].response.body).Some?
    && var challenge := ChallengeOf(w.authorization(part[0].response.body).value.challenges, "http-01");
    && challenge.Some?
    && challenge.value.token == token
    && part[1].request.url == challenge.value.url
    && part[1].request.payload == READY
    && PolledValid(w, url, part[2..], max)
    && part[0].visible == store
    && forall k :: 1 <= k < |part| ==> part[k].visible == store[token := w.keyAuthorization(token)]
  }

  /** The posts of a successful issuance, in order. */
  datatype Trace = Trace(order: Exchange, parts: seq<seq<Exchange>>, finalize: Exchange, polls: seq<Exchange>,
                         download: Exchange)

  function Flat(parts: seq<seq<Exchange>>): seq<Exchange> {
    if parts == [] then [] else Flat(parts[..|parts| - 1]) + parts[|parts| - 1]
  }

  function Posts(t: Trace): seq<Exchange> {
    [t.order] + Flat(t.parts) + [t.finalize] + t.polls + [t.download]
  }

  predicate AllAuthorized(w: World, urls: seq<string>, tokens: seq<string>, parts: seq<seq<Exchange>>, max: nat,
                          store: map<string, string>) {
    && |tokens| == |parts| <= |urls|
    && forall i :: 0 <= i < |parts| ==>
         Authorized(w, urls[i], tokens[i], parts[i], max, Published(w, store, tokens[..i]))
  }

  predicate ReportsValid(w: World, e: Exchange, certificate: string) {
    && w.order(e.response.body).Some?
    && w.order(e.response.body).value.status == Valid
    && w.order(e.response.body).value.certificate == Some(certificate)
  }

  /** An order's polls: within the bound, all to the order, and the last reply of all reports it valid. */
  predicate OrderPolled(w: World, orderUrl: string, finalize: Exchange, polls: seq<Exchange>, max: nat,
                        certificate: string) {
    && |polls| < AtLeastOne(max)
    && (forall k :: 0 <= k < |polls| ==> Got(polls[k], orderUrl))
    && ReportsValid(w, ([finalize] + polls)[|polls|], certificate)
  }

  predicate Placed(w: World, e: Exchange, domains: seq<string>, order: Order, orderUrl: string) {
    && e.request.url == w.newOrder && e.request.payload == w.orderPayload(domains)
    && w.order(e.response.body) == Some(order)
    && e.response.location == Some(orderUrl)
  }

  predicate Finalized(w: World, e: Exchange, order: Order, csr: Csr) {
    e.request.url == order.finalize && e.request.payload == w.finalizePayload(csr.der)
  }

  /** What was in the store, or published since, at a post. */
  predicate AllVisible(posts: seq<Exchange>, store: map<string, string>) {
    forall k :: 0 <= k < |posts| ==> posts[k].visible == store
  }

  predicate Issued(w: World, t: Trace, domains: seq<string>, tokens: seq<string>, order: Order, orderUrl: string,
                   csr: Csr, certificate: string, max: nat, store: map<string, string>) {
    && Placed(w, t.order, domains, order, orderUrl)
    && |t.parts| == |order.authorizations|
    && AllAuthorized(w, order.authorizations, tokens, t.parts, max, store)
    && w.csr(domains) == Some(csr)
    && Finalized(w, t.finalize, order, csr)
    && OrderPolled(w, orderUrl, t.finalize, t.polls, max, certificate)
    && Got(t.download, certificate)
    && t.order.visible == store && AllVisible([t.finalize] + t.polls + [t.download], Published(w, store, tokens))
  }

  // ----- what failures show -----

  const NONE: Exchange := Exchange(Request("", "", None, []), Response("", None, []), map[])

  /** An order reply that ends the polling neither way. */
  predicate Open(w: World, e: Exchange) {
    && w.order(e.response.body).Some?
    && var o := w.order(e.response.body).value;
    && o.status != Invalid && !(o.status == Valid && o.certificate.Some?)
  }

  /** What the log shows, up to its last exchange `e`, when a failure is reported. */
  predicate Shown(w: World, f: Failure, log: seq<Exchange>, e: Exchange, max: nat) {
    match f
    case OrderUnreadable(url) => e.request.url == url && w.order(e.response.body).None?
    case NoLocation =>
      e.request.url == w.newOrder && w.order(e.response.body).Some? && e.response.location.None?
    case AuthorizationUnreadable(url) => Got(e, url) && w.authorization(e.response.body).None?
    case NoChallenge(url) =>
      && Got(e, url)
      && w.authorization(e.response.body).Some?
      && forall c :: c in w.authorization(e.response.body).value.challenges ==> c.kind != "http-01"
    case AuthorizationInvalid(url) => Got(e, url) && AuthorizationReply(w, e, "invalid")
    case AuthorizationLate(url) =>
      && |log| >= AtLeastOne(max)
      && forall k :: |log| - AtLeastOne(max) <= k < |log| ==> Got(log[k], url) && Undecided(w, log[k])
    case OrderInvalid(url) =>
      w.order(e.response.body).Some? && w.order(e.response.body).value.status == Invalid
    case OrderLate(url) =>
      && |log| >= AtLeastOne(max)
      && (forall k :: |log| - AtLeastOne(max) <= k < |log| ==> Open(w, log[k]))
      && (forall k :: |log| - AtLeastOne(max) < k < |log| ==> Got(log[k], url))
    case _ => false
  }

  /** What fetching an authorization can fail with. */
  predicate FetchFailure(f: Failure, url: string) {
    f == Lost(url, []) || f == AuthorizationUnreadable(url)
  }

  predicate PollFailure(f: Failure, url: string) {
    FetchFailure(f, url) || f == AuthorizationInvalid(url) || f == AuthorizationLate(url)
  }

  predicate AuthorizeFailure(f: Failure, url: string) {
    PollFailure(f, url) || f == NoChallenge(url) || (f.Lost? && f.payload == READY)
  }

  predicate OrderFailure(f: Failure, url: string) {
    f == Lost(url, []) || f == OrderUnreadable(url) || f == OrderInvalid(url) || f == OrderLate(url)
  }

  lemma {:induction false} ShownUnreadable(w: World, log: seq<Exchange>, max: nat)
    requires log != []
    ensures var e := log[|log| - 1];
            && (w.order(e.response.body).None? ==> Shown(w, OrderUnreadable(e.request.url), log, e, max))
            && (w.authorization(e.response.body).None? && e.request.payload == [] ==>
                  Shown(w, AuthorizationUnreadable(e.request.url), log, e, max))
  {
  }

  lemma {:induction false} ShownNoChallenge(w: World, log: seq<Exchange>, url: string, max: nat)
    requires log != [] && Got(log[|log| - 1], url) && w.authorization(log[|log| - 1].response.body).Some?
    requires ChallengeOf(w.authorization(log[|log| - 1].response.body).value.challenges, "http-01").None?
    ensures Shown(w, NoChallenge(url), log, log[|log| - 1], max)
  {
  }

  lemma {:induction false} AllUndecided(w: World, before: seq<Exchange>, url: string, polls: seq<Exchange>, max: nat)
    requires |polls| == AtLeastOne(max)
    requires forall k :: 0 <= k < |polls| ==> Got(polls[k], url) && Undecided(w, polls[k])
    ensures var log := before + polls; Shown(w, AuthorizationLate(url), log, log[|log| - 1], max)
  {
    hide Undecided;
    var log := before + polls;
    forall k | |log| - AtLeastOne(max) <= k < |log|
      ensures Got(log[k], url) && Undecided(w, log[k])
    {
      assert log[k] == polls[k - |before|];
    }
  }

  predicate OpenUpTo(w: World, looks: seq<Exchange>, n: nat) {
    n <= |looks| && forall k :: 0 <= k < n ==> Open(w, looks[k])
  }

  function LastOrder(w: World, looks: seq<Exchange>): Option<Order>
    requires looks != []
  {
    w.order(looks[|looks| - 1].response.body)
  }

  lemma {:induction false} NoneOpen(w: World, looks: seq<Exchange>)
    ensures OpenUpTo(w, looks, 0)
  {
  }

  lemma {:induction false} OneMoreOpen(w: World, looks: seq<Exchange>, n: nat)
    requires |looks| == n + 1 && OpenUpTo(w, looks, n) && LastOrder(w, looks).Some?
    requires var o := LastOrder(w, looks).value; o.status != Invalid && !(o.status == Valid && o.certificate.Some?)
    ensures OpenUpTo(w, looks, n + 1)
  {
  }

  lemma {:induction false} StillOpen(w: World, looks: seq<Exchange>, e: Exchange)
    requires OpenUpTo(w, looks, |looks|)
    ensures OpenUpTo(w, looks + [e], |looks|)
  {
  }

  lemma {:induction false} AllOpen(w: World, before: seq<Exchange>, first: Exchange, url: string,
                                   polls: seq<Exchange>, max: nat)
    requires before != [] && before[|before| - 1] == first && |polls| + 1 == AtLeastOne(max)
    requires OpenUpTo(w, [first] + polls, |polls| + 1)
    requires forall k :: 0 <= k < |polls| ==> Got(polls[k], url)
    ensures var log := before + polls; Shown(w, OrderLate(url), log, log[|log| - 1], max)
  {
    hide Open;
    var log := before + polls;
    forall k | |log| - AtLeastOne(max) <= k < |log|
      ensures Open(w, log[k]) && (|log| - AtLeastOne(max) < k ==> Got(log[k], url))
    {
      assert log[k] == ([first] + polls)[k - |before| + 1];
      assert |before| <= k ==> log[k] == polls[k - |before|];
    }
  }

  lemma {:induction false} OrderRefused(w: World, before: seq<Exchange>, first: Exchange, polls: seq<Exchange>,
                                        max: nat)
    requires before != [] && before[|before| - 1] == first
    requires LastOrder(w, [first] + polls).Some? && LastOrder(w, [first] + polls).value.status == Invalid
    ensures var log := before + polls; forall url :: Shown(w, OrderInvalid(url), log, log[|log| - 1], max)
  {
  }

  // ----- the challenge store -----

  class ChallengeStore {
    var entries: map<string, string>

    constructor ()
      ensures entries == map[]
    {
      entries := map[];
    }

    method Set(token: string, keyAuthorization: string)
      modifies this
      ensures entries == old(entries)[token := keyAuthorization]
    {
      entries := entries[token := keyAuthorization];
    }

    method Remove(token: string)
      modifies this
      ensures entries == old(entries) - {token}
    {
      entries := entries - {token};
    }
  }

  /** The store with the key authorizations of `tokens` published. */
  function Published(w: World, entries: map<string, string>, tokens: seq<string>): map<string, string> {
    if tokens == [] then entries
    else
      var last := tokens[|tokens| - 1];
      Published(w, entries, tokens[..|tokens| - 1])[last := w.keyAuthorization(last)]
  }

  function Tokens(tokens: seq<string>): set<string> {
    set t | t in tokens
  }

  /** Publishing adds the tokens and nothing else; taking them out again leaves the old entries without them. */
  lemma {:induction false} PublishedMeaning(w: World, entries: map<string, string>, tokens: seq<string>)
    ensures Published(w, entries, tokens).Keys == entries.Keys + Tokens(tokens)
    ensures forall t :: t in Published(w, entries, tokens) ==>
              Published(w, entries, tokens)[t] == if t in tokens then w.keyAuthorization(t) else entries[t]
    ensures Published(w, entries, tokens) - Tokens(tokens) == entries - Tokens(tokens)
  {
    if tokens != [] {
      var n := |tokens| - 1;
      var before, last := tokens[..n], tokens[n];
      PublishedMeaning(w, entries, before);
      assert tokens == before + [last];
      assert Tokens(tokens) == Tokens(before) + {last};
      PublishedLast(entries, Published(w, entries, before), Tokens(before), last, w.keyAuthorization(last));
    }
  }

  lemma {:induction false} PublishedLast(entries: map<string, string>, more: map<string, string>, tokens: set<string>,
                                         last: string, value: string)
    requires more - tokens == entries - tokens
    ensures more[last := value] - (tokens + {last}) == entries - (tokens + {last})
  {
    assert more[last := value] - (tokens + {last}) == (more - tokens) - {last};
    assert entries - (tokens + {last}) == (entries - tokens) - {last};
  }

  // ----- the client -----

  class AcmeClient {
    const world: World
    var nonce: string
    var accountUrl: Option<string>
    var attempts: nat
    ghost const start: string
    ghost var log: seq<Exchange>

    ghost predicate Valid()
      reads this
    {
      Threaded(start, log, nonce)
    }

    /** A client with the directory read and a first nonce fetched. */
    constructor (world: World, nonce: string)
      ensures Valid() && this.world == world && start == nonce && log == [] && accountUrl == None
    {
      this.world := world;
      this.nonce := nonce;
      this.accountUrl := None;
      this.attempts := 0;
      this.start := nonce;
      this.log := [];
    }

    /** The last post could not be signed or was not answered. */
    ghost predicate LostPost(url: string, payload: bytes)
      reads this
    {
      var jws := world.sign(Request(url, nonce, accountUrl, payload));
      jws.None? || (attempts > 0 && world.server(attempts - 1, url, jws.value).None?)
    }

    /** The state in which each failure of a post or a reply is reported. */
    ghost predicate Blamed(f: Failure, domains: seq<string>, max: nat)
      reads this
    {
      match f
      case Lost(url, payload) => LostPost(url, payload)
      case NoCsr => world.csr(domains).None?
      case _ => log != [] && Shown(world, f, log, log[|log| - 1], max)
    }

    /** Signs and posts; a completed post renews the nonce, any other leaves it. */
    method SignedPost(url: string, payload: bytes, ghost visible: map<string, string>) returns (r: Option<Response>)
      requires Valid()
      modifies `nonce, `attempts, `log
      ensures Valid()
      ensures r.None? ==> log == old(log) && nonce == old(nonce) && LostPost(url, payload)
      ensures r.Some? ==> && var request := Request(url, old(nonce), accountUrl, payload);
                          && log == old(log) + [Exchange(request, r.value, visible)]
                          && world.sign(request).Some?
                          && r == world.server(old(attempts), url, world.sign(request).value)
    {
      var request := Request(url, nonce, accountUrl, payload);
      var jws := world.sign(request);
      if jws.None? {
        return None;
      }
      r := world.server(attempts, url, jws.value);
      attempts := attempts + 1;
      if r.Some? {
        ThreadedPush(start, log, Exchange(request, r.value, visible));
        log := log + [Exchange(request, r.value, visible)];
        nonce := r.value.nonce;
      }
    }

    /** Registers the account; a returned location becomes the key id of every later post. */
    method Register(contacts: seq<string>) returns (ok: bool)
      requires Valid()
      modifies this
      ensures Valid()
      ensures !ok ==> && log == old(log) && accountUrl == old(accountUrl)
                      && LostPost(world.newAccount, world.accountPayload(contacts))
      ensures ok ==> && |log| == |old(log)| + 1 && log[..|old(log)|] == old(log)
                     && var e := log[|old(log)|];
                     && e.request.url == world.newAccount && e.request.kid == old(accountUrl)
                     && e.request.payload == world.accountPayload(contacts)
                     && accountUrl == if e.response.location.Some? then e.response.location else old(accountUrl)
    {
      var r := SignedPost(world.newAccount, world.accountPayload(contacts), map[]);
      if r.None? {
        return false;
      }
      if r.value.location.Some? {
        accountUrl := r.value.location;
      }
      ok := true;
    }

    method NewOrder(domains: seq<string>, max: nat, ghost visible: map<string, string>)
      returns (r: Result<(Order, string), Failure>, ghost e: Exchange)
      requires Valid()
      modifies `nonce, `attempts, `log
      ensures Valid() && old(log) <= log
      ensures r.Ok? ==> log == old(log) + [e] && e.visible == visible && Placed(world, e, domains, r.value.0, r.value.1)
      ensures r.Err? ==> && Blamed(r.error, domains, max)
                         && (|| r.error == Lost(world.newOrder, world.orderPayload(domains))
                             || r.error == OrderUnreadable(world.newOrder) || r.error == NoLocation)
    {
      hide Threaded, LostPost;
      var payload := world.orderPayload(domains);
      var response := SignedPost(world.newOrder, payload, visible);
      e := NONE;
      if response.None? {
        return Err(Lost(world.newOrder, payload)), e;
      }
      e := log[|log| - 1];
      var order := world.order(response.value.body);
      if order.None? {
        return Err(OrderUnreadable(world.newOrder)), e;
      }
      if response.value.location.None? {
        return Err(NoLocation), e;
      }
      r := Ok((order.value, response.value.location.value));
    }

    method FetchAuthorization(url: string, ghost domains: seq<string>, ghost max: nat,
                              ghost visible: map<string, string>)
      returns (r: Result<Authorization, Failure>, ghost e: Exchange)
      requires Valid()
      modifies `nonce, `attempts, `log
      ensures Valid() && old(log) <= log && |log| <= |old(log)| + 1
      ensures forall k :: |old(log)| <= k < |log| ==> Got(log[k], url) && log[k].visible == visible
      ensures r.Ok? ==> && log == old(log) + [e] && Got(e, url) && e.visible == visible
                        && world.authorization(e.response.body) == Some(r.value)
      ensures r.Err? ==> Blamed(r.error, domains, max) && FetchFailure(r.error, url)
    {
      hide Threaded, LostPost;
      var response := SignedPost(url, [], visible);
      e := NONE;
      if response.None? {
        return Err(Lost(url, [])), e;
      }
      e := log[|log| - 1];
      var authorization := world.authorization(response.value.body);
      if authorization.None? {
        return Err(AuthorizationUnreadable(url)), e;
      }
      r := Ok(authorization.value);
    }

    /** Re-checks an authorization until it is valid, at most `max` times and at least once. */
    method PollAuthorization(url: string, max: nat, ghost domains: seq<string>, ghost visible: map<string, string>)
      returns (r: Result<(), Failure>, ghost polls: seq<Exchange>)
      requires Valid()
      modifies `nonce, `attempts, `log
      ensures Valid() && old(log) <= log && |log| <= |old(log)| + AtLeastOne(max)
      ensures forall k :: |old(log)| <= k < |log| ==> Got(log[k], url) && log[k].visible == visible
      ensures r.Ok? ==> log == old(log) + polls && PolledValid(world, url, polls, max)
      ensures r.Err? ==> Blamed(r.error, domains, max) && PollFailure(r.error, url)
      ensures r == Err(AuthorizationLate(url)) ==> |log| == |old(log)| + (if max >= 1 then max else 1)
    {
      hide Threaded, LostPost;
      polls := [];
      for attempt := 0 to AtLeastOne(max)
        invariant Valid()
        invariant log == old(log) + polls && |polls| == attempt
        invariant forall k :: 0 <= k < |polls| ==> Got(polls[k], url) && Undecided(world, polls[k])
        invariant forall k :: 0 <= k < |polls| ==> polls[k].visible == visible
      {
        var authorization, e := FetchAuthorization(url, domains, max, visible);
        if authorization.Err? {
          return Err(authorization.error), polls;
        }
        ghost var before := polls;
        polls := before + [e];
        assert old(log) + polls == old(log) + before + [e];
        if authorization.value.status == "valid" {
          return Ok(()), polls;
        }
        if authorization.value.status == "invalid" {
          return Err(AuthorizationInvalid(url)), polls;
        }
      }
      AllUndecided(world, old(log), url, polls, max);
      r := Err(AuthorizationLate(url));
    }

    method FetchOrder(url: string, ghost domains: seq<string>, ghost max: nat, ghost visible: map<string, string>)
      returns (r: Result<Order, Failure>, ghost e: Exchange)
      requires Valid()
      modifies `nonce, `attempts, `log
      ensures Valid() && (log == old(log) || log == old(log) + [e])
      ensures |log| > |old(log)| ==> Got(e, url) && e.visible == visible
      ensures r.Ok? ==> log == old(log) + [e] && world.order(e.response.body) == Some(r.value)
      ensures r.Err? ==> Blamed(r.error, domains, max) && (r.error == Lost(url, []) || r.error == OrderUnreadable(url))
    {
      hide Threaded, LostPost;
      var response := SignedPost(url, [], visible);
      e := NONE;
      if response.None? {
        return Err(Lost(url, [])), e;
      }
      e := log[|log| - 1];
      var order := world.order(response.value.body);
      if order.None? {
        return Err(OrderUnreadable(url)), e;
      }
      r := Ok(order.value);
    }

    /** Re-checks an order until it is valid with a certificate: the finalize reply counts as the first of at
        most `max` looks, and there is at least one. */
    method PollOrder(orderUrl: string, initial: Order, max: nat, ghost domains: seq<string>, ghost finalize: Exchange,
                     ghost visible: map<string, string>)
      returns (r: Result<string, Failure>, ghost polls: seq<Exchange>)
      requires Valid() && log != [] && log[|log| - 1] == finalize
      requires world.order(finalize.response.body) == Some(initial)
      modifies `nonce, `attempts, `log
      ensures Valid() && old(log) <= log && |log| < |old(log)| + AtLeastOne(max)
      ensures forall k :: |old(log)| <= k < |log| ==> Got(log[k], orderUrl) && log[k].visible == visible
      ensures r.Ok? ==> log == old(log) + polls && OrderPolled(world, orderUrl, finalize, polls, max, r.value)
      ensures r.Err? ==> Blamed(r.error, domains, max) && OrderFailure(r.error, orderUrl)
      ensures r == Err(OrderLate(orderUrl)) ==> |log| + 1 == |old(log)| + (if max >= 1 then max else 1)
    {
      hide Threaded, Open, OpenUpTo, Shown;
      NoneOpen(world, [finalize]);
      assert [finalize] + [] == [finalize];
      var order := initial;
      polls := [];
      for attempt := 0 to AtLeastOne(max)
        invariant Valid()
        invariant log == old(log) + polls
        invariant |polls| == if attempt < AtLeastOne(max) then attempt else attempt - 1
        invariant forall k :: 0 <= k < |polls| ==> Got(polls[k], orderUrl) && polls[k].visible == visible
        invariant OpenUpTo(world, [finalize] + polls, attempt)
        invariant LastOrder(world, [finalize] + polls) == Some(order)
      {
        assert attempt == |polls|;
        if order.status == OrderStatus.Valid && order.certificate.Some? {
          return Ok(order.certificate.value), polls;
        }
        if order.status == OrderStatus.Invalid {
          OrderRefused(world, old(log), finalize, polls, max);
          return Err(OrderInvalid(orderUrl)), polls;
        }
        OneMoreOpen(world, [finalize] + polls, attempt);
        if attempt + 1 < AtLeastOne(max) {
          ghost var before := polls;
          var again, e := FetchOrder(orderUrl, domains, max, visible);
          if again.Err? {
            return Err(again.error), polls;
          }
          order := again.value;
          polls := before + [e];
          assert old(log) + polls == old(log) + before + [e];
          assert [finalize] + polls == [finalize] + before + [e];
          StillOpen(world, [finalize] + before, e);
        }
      }
      AllOpen(world, old(log), finalize, orderUrl, polls, max);
      r := Err(OrderLate(orderUrl));
    }

    /** One authorization: fetched, its token published, its challenge answered, polled until valid. */
    method Authorize(url: string, store: ChallengeStore, max: nat, published: seq<string>, ghost domains: seq<string>,
                     ghost before: map<string, string>)
      returns (r: Result<(), Failure>, tokens: seq<string>, ghost part: seq<Exchange>)
      requires Valid() && store.entries == Published(world, before, published)
      modifies `nonce, `attempts, `log, store
      ensures Valid() && old(log) <= log
      ensures store.entries == Published(world, before, tokens)
      ensures published <= tokens && |tokens| <= |published| + 1
      ensures r.Ok? ==> && |tokens| == |published| + 1 && log == old(log) + part
                        && Authorized(world, url, tokens[|published|], part, max, Published(world, before, published))
      ensures r.Err? ==> Blamed(r.error, domains, max) && AuthorizeFailure(r.error, url)
    {
      hide Threaded, PolledValid, LostPost, Shown, Authorized, Published, ChallengeOf;
      tokens, part := published, [];
      var authorization, e := FetchAuthorization(url, domains, max, store.entries);
      if authorization.Err? {
        return Err(authorization.error), tokens, part;
      }
      var challenge := ChallengeOf(authorization.value.challenges, "http-01");
      if challenge.None? {
        ShownNoChallenge(world, log, url, max);
        return Err(NoChallenge(url)), tokens, part;
      }
      var token := challenge.value.token;
      store.Set(token, world.keyAuthorization(token));
      tokens := published + [token];
      PublishedPush(world, before, published, token);
      var answer := SignedPost(challenge.value.url, READY, store.entries);
      if answer.None? {
        return Err(Lost(challenge.value.url, READY)), tokens, part;
      }
      ghost var respond := log[|log| - 1];
      ghost var polls;
      r, polls := PollAuthorization(url, max, domains, store.entries);
      part := [e, respond] + polls;
      if r.Ok? {
        assert log == old(log) + part;
        forall k | 0 <= k < |polls|
          ensures polls[k].visible == store.entries
        {
          assert polls[k] == log[|old(log)| + 2 + k];
        }
        Carried(world, url, authorization.value, e, respond, polls, max, Published(world, before, published));
      }
    }

    /** All authorizations of an order, in turn; stops at the first that fails. */
    method AuthorizeAll(urls: seq<string>, store: ChallengeStore, max: nat, ghost domains: seq<string>)
      returns (r: Result<(), Failure>, published: seq<string>, ghost parts: seq<seq<Exchange>>)
      requires Valid()
      modifies `nonce, `attempts, `log, store
      ensures Valid() && old(log) <= log
      ensures store.entries == Published(world, old(store.entries), published)
      ensures |published| <= |urls|
      ensures r.Ok? ==> |parts| == |urls| && log == old(log) + Flat(parts)
                        && AllAuthorized(world, urls, published, parts, max, old(store.entries))
      ensures r.Err? ==> Blamed(r.error, domains, max) && exists url :: url in urls && AuthorizeFailure(r.error, url)
    {
      hide Authorized, Threaded, Blamed, AuthorizeFailure;
      published, parts := [], [];
      for i := 0 to |urls|
        invariant Valid()
        invariant |parts| == i && |published| == i
        invariant log == old(log) + Flat(parts)
        invariant store.entries == Published(world, old(store.entries), published)
        invariant AllAuthorized(world, urls, published, parts, max, old(store.entries))
      {
        var done, tokens, part := Authorize(urls[i], store, max, published, domains, old(store.entries));
        if done.Err? {
          return done, tokens, parts;
        }
        FlatPush(parts, part);
        assert old(log) + Flat(parts + [part]) == old(log) + Flat(parts) + part;
        AuthorizedPush(world, urls, published, tokens, parts, part, max, old(store.entries));
        parts := parts + [part];
        published := tokens;
      }
      r := Ok(());
    }

    /** Takes the published tokens out of the store again. */
    method Withdraw(store: ChallengeStore, published: seq<string>)
      modifies store
      ensures store.entries == old(store.entries) - Tokens(published)
    {
      for i := 0 to |published|
        invariant store.entries == old(store.entries) - Tokens(published[..i])
      {
        store.Remove(published[i]);
        assert published[..i + 1] == published[..i] + [published[i]];
        assert Tokens(published[..i + 1]) == Tokens(published[..i]) + {published[i]};
      }
      assert published[..|published|] == published;
    }

    /** Finalizes an authorized order, polls it and downloads the chain. */
    method Finish(order: Order, orderUrl: string, csr: Csr, max: nat, ghost domains: seq<string>,
                  ghost visible: map<string, string>)
      returns (r: Result<bytes, Failure>, ghost finalize: Exchange, ghost polls: seq<Exchange>,
               ghost download: Exchange, ghost certificate: string)
      requires Valid()
      modifies `nonce, `attempts, `log
      ensures Valid() && old(log) <= log
      ensures r.Ok? ==> && log == old(log) + ([finalize] + polls + [download])
                        && Finalized(world, finalize, order, csr)
                        && OrderPolled(world, orderUrl, finalize, polls, max, certificate)
                        && Got(download, certificate) && download.response.body == r.value
                        && AllVisible([finalize] + polls + [download], visible)
      ensures r.Err? ==> && Blamed(r.error, domains, max)
                         && (|| r.error == Lost(order.finalize, world.finalizePayload(csr.der))
                             || r.error == OrderUnreadable(order.finalize) || OrderFailure(r.error, orderUrl)
                             || (r.error.Lost? && r.error.payload == []))
    {
      hide Threaded, OrderPolled, LostPost, Shown;
      finalize, polls, download, certificate := NONE, [], NONE, "";
      var payload := world.finalizePayload(csr.der);
      var response := SignedPost(order.finalize, payload, visible);
      if response.None? {
        return Err(Lost(order.finalize, payload)), finalize, polls, download, certificate;
      }
      finalize := log[|log| - 1];
      var finalized := world.order(response.value.body);
      if finalized.None? {
        ShownUnreadable(world, log, max);
        return Err(OrderUnreadable(order.finalize)), finalize, polls, download, certificate;
      }
      var url;
      url, polls := PollOrder(orderUrl, finalized.value, max, domains, finalize, visible);
      if url.Err? {
        return Err(url.error), finalize, polls, download, certificate;
      }
      certificate := url.value;
      var chain := SignedPost(url.value, [], visible);
      if chain.None? {
        return Err(Lost(url.value, [])), finalize, polls, download, certificate;
      }
      download := log[|log| - 1];
      assert log == old(log) + ([finalize] + polls + [download]);
      forall k | 0 <= k < |[finalize] + polls + [download]|
        ensures ([finalize] + polls + [download])[k].visible == visible
      {
        assert ([finalize] + polls + [download])[k] == log[|old(log)| + k];
      }
      r := Ok(chain.value.body);
    }

    /** Issues a certificate over HTTP-01. On success the posts made are those of an issuance, in order, and
        the store is as before without the published tokens. On failure the state shows the reason, and the
        tokens published so far stay, unless all that failed was reading the chain as text. */
    method ObtainCertificate(domains: seq<string>, store: ChallengeStore, poll: nat)
      returns (r: Result<(string, string), Failure>, published: seq<string>, ghost t: Trace, ghost order: Order,
               ghost orderUrl: string, ghost certificate: string)
      requires Valid()
      modifies `nonce, `attempts, `log, store
      ensures Valid() && old(log) <= log
      ensures r.Ok? ==> && log == old(log) + Posts(t) && world.csr(domains).Some?
                        && Issued(world, t, domains, published, order, orderUrl, world.csr(domains).value,
                                  certificate, poll, old(store.entries))
                        && Decode(t.download.response.body) == Some(r.value.0)
                        && r.value.1 == world.csr(domains).value.keyPem
                        && store.entries == old(store.entries) - Tokens(published)
      ensures r.Err? && r.error != NotText ==>
                Blamed(r.error, domains, poll) && store.entries == Published(world, old(store.entries), published)
      ensures r.Err? && r.error == NotText ==> && log != [] && Decode(log[|log| - 1].response.body).None?
                                               && store.entries == old(store.entries) - Tokens(published)
    {
      hide Threaded, Placed, AllAuthorized, OrderPolled, Finalized, Got, Flat, Tokens, Published, Decode, LostPost;
      t, certificate := Trace(NONE, [], NONE, [], NONE), "";
      order, orderUrl := Order(Pending, [], "", None), "";
      published := [];
      NothingPublished(world, store.entries);
      var placed, first := NewOrder(domains, poll, store.entries);
      if placed.Err? {
        return Err(placed.error), published, t, order, orderUrl, certificate;
      }
      order, orderUrl := placed.value.0, placed.value.1;
      var authorized;
      ghost var parts;
      authorized, published, parts := AuthorizeAll(placed.value.0.authorizations, store, poll, domains);
      if authorized.Err? {
        return Err(authorized.error), published, t, order, orderUrl, certificate;
      }
      var csr := world.csr(domains);
      if csr.None? {
        return Err(NoCsr), published, t, order, orderUrl, certificate;
      }
      var chain;
      ghost var finalize, polls, download;
      chain, finalize, polls, download, certificate :=
        Finish(placed.value.0, placed.value.1, csr.value, poll, domains, store.entries);
      if chain.Err? {
        return Err(chain.error), published, t, order, orderUrl, certificate;
      }
      t := Trace(first, parts, finalize, polls, download);
      JoinPosts(old(log), t);
      PublishedMeaning(world, old(store.entries), published);
      Withdraw(store, published);
      var text := Decode(chain.value);
      if text.None? {
        return Err(NotText), published, t, order, orderUrl, certificate;
      }
      r := Ok((text.value, csr.value.keyPem));
    }
  }

  lemma {:induction false} PublishedPush(w: World, entries: map<string, string>, tokens: seq<string>, token: string)
    ensures Published(w, entries, tokens + [token]) ==
            Published(w, entries, tokens)[token := w.keyAuthorization(token)]
  {
    assert (tokens + [token])[..|tokens|] == tokens;
  }

  lemma {:induction false} NothingPublished(w: World, entries: map<string, string>)
    ensures Published(w, entries, []) == entries
  {
  }

  lemma {:induction false} Carried(w: World, url: string, authorization: Authorization, fetch: Exchange,
                                   respond: Exchange, polls: seq<Exchange>, max: nat, store: map<string, string>)
    requires Got(fetch, url) && w.authorization(fetch.response.body) == Some(authorization)
    requires ChallengeOf(authorization.challenges, "http-01").Some?
    requires var c := ChallengeOf(authorization.challenges, "http-01").value;
             && respond.request.url == c.url && respond.request.payload == READY
             && fetch.visible == store && respond.visible == store[c.token := w.keyAuthorization(c.token)]
             && AllVisible(polls, store[c.token := w.keyAuthorization(c.token)])
    requires PolledValid(w, url, polls, max)
    ensures Authorized(w, url, ChallengeOf(authorization.challenges, "http-01").value.token,
                       [fetch, respond] + polls, max, store)
  {
    assert ([fetch, respond] + polls)[2..] == polls;
  }

  lemma {:induction false} AuthorizedPush(w: World, urls: seq<string>, tokens: seq<string>, more: seq<string>,
                                          parts: seq<seq<Exchange>>, part: seq<Exchange>, max: nat,
                                          store: map<string, string>)
    requires AllAuthorized(w, urls, tokens, parts, max, store) && |parts| < |urls|
    requires tokens <= more && |more| == |tokens| + 1
    requires Authorized(w, urls[|parts|], more[|parts|], part, max, Published(w, store, tokens))
    ensures AllAuthorized(w, urls, more, parts + [part], max, store)
  {
    hide Authorized, Published;
    forall i | 0 <= i < |parts| + 1
      ensures Authorized(w, urls[i], more[i], (parts + [part])[i], max, Published(w, store, more[..i]))
    {
      assert more[..i] == tokens[..i];
      assert i == |parts| ==> tokens[..i] == tokens;
    }
  }

  lemma {:induction false} FlatPush(parts: seq<seq<Exchange>>, part: seq<Exchange>)
    ensures Flat(parts + [part]) == Flat(parts) + part
  {
    assert (parts + [part])[..|parts|] == parts;
  }

  lemma {:induction false} JoinPosts(log: seq<Exchange>, t: Trace)
    ensures log + [t.order] + Flat(t.parts) + ([t.finalize] + t.polls + [t.download]) == log + Posts(t)
  {
  }

  // ----- what every issuance satisfies -----

  /** Where the posts for authorization `i` begin. */
  function Offset(parts: seq<seq<Exchange>>, i: nat): nat
    requires i <= |parts|
  {
    |Flat(parts[..i])|
  }

  lemma {:induction false} FlatHas(parts: seq<seq<Exchange>>, i: nat, k: nat)
    requires i < |parts| && k < |parts[i]|
    ensures Offset(parts, i) + k < |Flat(parts)| && Flat(parts)[Offset(parts, i) + k] == parts[i][k]
    decreases |parts|
  {
    var n := |parts| - 1;
    if i < n {
      FlatHas(parts[..n], i, k);
      assert parts[..n][..i] == parts[..i];
    }
  }

  lemma {:induction false} PartLength(w: World, url: string, token: string, part: seq<Exchange>, max: nat,
                                      store: map<string, string>)
    requires Authorized(w, url, token, part, max, store)
    ensures |part| <= 2 + AtLeastOne(max)
  {
  }

  lemma {:induction false} OneMore(n: nat, c: nat)
    ensures (n + 1) * c == n * c + c
  {
  }

  lemma {:induction false} FlatLength(w: World, urls: seq<string>, tokens: seq<string>, parts: seq<seq<Exchange>>,
                                      max: nat, store: map<string, string>)
    requires AllAuthorized(w, urls, tokens, parts, max, store)
    ensures |Flat(parts)| <= |parts| * (2 + AtLeastOne(max))
    decreases |parts|
  {
    hide Authorized, AtLeastOne;
    if parts != [] {
      var n := |parts| - 1;
      forall i | 0 <= i < n
        ensures tokens[..n][..i] == tokens[..i]
      {
      }
      FlatLength(w, urls, tokens[..n], parts[..n], max, store);
      PartLength(w, urls[n], tokens[n], parts[n], max, Published(w, store, tokens[..n]));
      OneMore(n, 2 + AtLeastOne(max));
    }
  }

  /** The finalize post comes after a `valid` reply to each authorization of the order. */
  lemma {:induction false} FinalizeAfterValid(w: World, t: Trace, domains: seq<string>, tokens: seq<string>,
                                              order: Order, orderUrl: string, csr: Csr, certificate: string,
                                              max: nat, store: map<string, string>, i: nat)
    returns (k: nat, f: nat)
    requires Issued(w, t, domains, tokens, order, orderUrl, csr, certificate, max, store)
    requires i < |order.authorizations|
    ensures k < f < |Posts(t)| && Posts(t)[f] == t.finalize
    ensures Finalized(w, Posts(t)[f], order, csr)
    ensures Got(Posts(t)[k], order.authorizations[i]) && AuthorizationReply(w, Posts(t)[k], "valid")
  {
    hide Flat, Placed, OrderPolled, Finalized, Undecided, AuthorizationReply, Published, ChallengeOf, AllVisible;
    var part := t.parts[i];
    assert Authorized(w, order.authorizations[i], tokens[i], part, max, Published(w, store, tokens[..i]));
    assert part[2..][|part| - 3] == part[|part| - 1];
    FlatHas(t.parts, i, |part| - 1);
    k := 1 + Offset(t.parts, i) + |part| - 1;
    f := 1 + |Flat(t.parts)|;
    assert Posts(t)[k] == Flat(t.parts)[k - 1];
  }

  lemma {:induction false} ReadySpelled()
    ensures READY == Encode("{}")
  {
    EncodeAscii("{}");
  }

  /** What part and which of its posts the `n`-th is. */
  lemma {:induction false} FlatAt(parts: seq<seq<Exchange>>, n: nat) returns (j: nat, k: nat)
    requires n < |Flat(parts)|
    ensures j < |parts| && k < |parts[j]| && n == Offset(parts, j) + k && Flat(parts)[n] == parts[j][k]
    decreases |parts|
  {
    var last := |parts| - 1;
    if n < |Flat(parts[..last])| {
      j, k := FlatAt(parts[..last], n);
      assert parts[..last][..j] == parts[..j];
    } else {
      j, k := last, n - |Flat(parts[..last])|;
    }
  }

  lemma {:induction false} OffsetsGrow(parts: seq<seq<Exchange>>, i: nat, j: nat)
    requires i < j <= |parts|
    ensures Offset(parts, i) + |parts[i]| <= Offset(parts, j)
    decreases j
  {
    assert parts[..j][..j - 1] == parts[..j - 1];
    if i < j - 1 {
      OffsetsGrow(parts, i, j - 1);
    }
  }

  lemma {:induction false} TokenVisible(w: World, store: map<string, string>, tokens: seq<string>, i: nat, n: nat)
    requires i < n <= |tokens|
    ensures tokens[i] in Published(w, store, tokens[..n])
    ensures Published(w, store, tokens[..n])[tokens[i]] == w.keyAuthorization(tokens[i])
  {
    hide Published;
    PublishedMeaning(w, store, tokens[..n]);
    assert tokens[..n][i] == tokens[i];
  }

  /** From the answer to authorization `i` on, every post for an authorization sees its token. */
  lemma {:induction false} PartVisible(w: World, urls: seq<string>, tokens: seq<string>, parts: seq<seq<Exchange>>,
                                       max: nat, store: map<string, string>, i: nat, j: nat, k: nat)
    requires AllAuthorized(w, urls, tokens, parts, max, store)
    requires i <= j < |parts| && k < |parts[j]| && (i == j ==> k >= 1)
    ensures tokens[i] in parts[j][k].visible
    ensures parts[j][k].visible[tokens[i]] == w.keyAuthorization(tokens[i])
  {
    hide Published, PolledValid, ChallengeOf;
    assert Authorized(w, urls[j], tokens[j], parts[j], max, Published(w, store, tokens[..j]));
    if i < j {
      TokenVisible(w, store, tokens, i, j);
    }
  }

  /** Each challenge is answered at its own URL, and its key authorization can be fetched at that post and at
      every later one. */
  lemma {:induction false} AnsweredWhileVisible(w: World, t: Trace, domains: seq<string>, tokens: seq<string>,
                                                order: Order, orderUrl: string, csr: Csr, certificate: string,
                                                max: nat, store: map<string, string>, i: nat)
    returns (k: nat)
    requires Issued(w, t, domains, tokens, order, orderUrl, csr, certificate, max, store)
    requires i < |order.authorizations|
    ensures 0 < k < |Posts(t)| && Got(Posts(t)[k - 1], order.authorizations[i])
    ensures w.authorization(Posts(t)[k - 1].response.body).Some?
    ensures var challenge := ChallengeOf(w.authorization(Posts(t)[k - 1].response.body).value.challenges, "http-01");
            && challenge.Some? && challenge.value.token == tokens[i]
            && Posts(t)[k].request.url == challenge.value.url && Posts(t)[k].request.payload == Encode("{}")
    ensures forall m :: k <= m < |Posts(t)| ==>
              tokens[i] in Posts(t)[m].visible && Posts(t)[m].visible[tokens[i]] == w.keyAuthorization(tokens[i])
  {
    hide Flat, Placed, OrderPolled, Finalized, PolledValid, ChallengeOf, Published;
    assert Authorized(w, order.authorizations[i], tokens[i], t.parts[i], max, Published(w, store, tokens[..i]));
    FlatHas(t.parts, i, 0);
    FlatHas(t.parts, i, 1);
    k := 1 + Offset(t.parts, i) + 1;
    assert Posts(t)[k] == Flat(t.parts)[k - 1] && Posts(t)[k - 1] == Flat(t.parts)[k - 2];
    ReadySpelled();
    forall m | k <= m < |Posts(t)|
      ensures tokens[i] in Posts(t)[m].visible && Posts(t)[m].visible[tokens[i]] == w.keyAuthorization(tokens[i])
    {
      LaterVisible(w, t, domains, tokens, order, orderUrl, csr, certificate, max, store, i, m);
    }
  }

  lemma {:induction false} LaterVisible(w: World, t: Trace, domains: seq<string>, tokens: seq<string>, order: Order,
                                        orderUrl: string, csr: Csr, certificate: string, max: nat,
                                        store: map<string, string>, i: nat, m: nat)
    requires Issued(w, t, domains, tokens, order, orderUrl, csr, certificate, max, store)
    requires i < |order.authorizations| && 1 + Offset(t.parts, i) + 1 <= m < |Posts(t)|
    ensures tokens[i] in Posts(t)[m].visible && Posts(t)[m].visible[tokens[i]] == w.keyAuthorization(tokens[i])
  {
    hide Flat, Placed, OrderPolled, Finalized, Authorized, Published;
    var tail := [t.finalize] + t.polls + [t.download];
    if m - 1 < |Flat(t.parts)| {
      var j, k := FlatAt(t.parts, m - 1);
      assert Posts(t)[m] == t.parts[j][k];
      if j < i {
        OffsetsGrow(t.parts, j, i);
      }
      PartVisible(w, order.authorizations, tokens, t.parts, max, store, i, j, k);
    } else {
      assert Posts(t)[m] == tail[m - 1 - |Flat(t.parts)|];
      assert tokens[..|tokens|] == tokens;
      TokenVisible(w, store, tokens, i, |tokens|);
    }
  }

  /** The last post fetches the certificate from a URL that the finalize reply or an order poll gave in an
      order reported valid; and the whole takes a bounded number of posts. */
  lemma {:induction false} CertificateFromValidOrder(w: World, t: Trace, domains: seq<string>, tokens: seq<string>,
                                                     order: Order, orderUrl: string, csr: Csr, certificate: string,
                                                     max: nat, store: map<string, string>)
    returns (k: nat)
    requires Issued(w, t, domains, tokens, order, orderUrl, csr, certificate, max, store)
    ensures k + 1 == |Posts(t)| - 1 && ReportsValid(w, Posts(t)[k], certificate)
    ensures Posts(t)[k] == t.finalize || Got(Posts(t)[k], orderUrl)
    ensures Got(Posts(t)[k + 1], certificate)
    ensures var polls := if max >= 1 then max else 1;
            |Posts(t)| <= 2 + |order.authorizations| * (2 + polls) + polls
  {
    hide Flat, Placed, Finalized, ReportsValid, AllAuthorized;
    FlatLength(w, order.authorizations, tokens, t.parts, max, store);
    k := |Posts(t)| - 2;
    var tail := [t.finalize] + t.polls;
    assert Posts(t) == ([t.order] + Flat(t.parts)) + tail + [t.download];
    assert Posts(t)[k] == tail[|t.polls|];
    assert |t.polls| > 0 ==> tail[|t.polls|] == t.polls[|t.polls| - 1];
  }
}
