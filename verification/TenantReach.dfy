/** Runs that reach the bound on a tenant's accounts or pass it, made of accounts the store takes. */
module TenantReach {
  import opened Text
  import opened Utf8
  import opened Addresses
  import opened Tenants
  import opened TenantRuns

  // ----- a family of accounts -----

  /** The `i`-th of a family of accounts in a domain. */
  function User(d: string, i: nat): Account {
    Account(Decimal(i), [Decimal(i) + "@" + d])
  }

  function Users(d: string, lo: nat, hi: nat): (r: seq<Account>)
    requires lo <= hi
    ensures |r| == hi - lo && forall i :: 0 <= i < |r| ==> r[i] == User(d, lo + i)
  {
    seq(hi - lo, i requires 0 <= i => User(d, lo + i))
  }

  /** Addresses in the domain are taken, if they are not too long. */
  predicate Served(net: Net, d: string) {
    && '@' !in d && Normalize(net, d).Some?
    && exists i :: 0 <= i < |net.domains| && Lower(net.domains[i]) == Lower(Normalize(net, d).value)
  }

  /** The first `n` of the family keep the limits on names and addresses. */
  predicate Fits(d: string, n: nat) {
    n == 0 || (|Decimal(n - 1)| <= MAX_NAME && |Decimal(n - 1)| + 1 + |Encode(d)| <= MAX_ADDRESS)
  }

  lemma {:induction false} FitsLess(d: string, m: nat, n: nat)
    requires m <= n && Fits(d, n)
    ensures Fits(d, m)
  {
    if m > 0 {
      DecimalLonger(m - 1, n - 1);
    }
  }

  lemma {:induction false} UserParsed(net: Net, d: string, i: nat)
    requires Served(net, d) && Fits(d, i + 1)
    ensures ParsedDomain(net, User(d, i).addresses[0]) == Normalize(net, d)
    ensures WellFormed(net, User(d, i))
  {
    hide Decimal, Encode, Normalize, ValidName, ValidLocalPart, ParsedDomain, Lower;
    NumberNames(i);
    ParsedJoin(net, Decimal(i), d);
  }

  lemma {:induction false} NumbersDiffer(i: nat, j: nat)
    requires i != j
    ensures Decimal(i) != Decimal(j)
  {
    DecimalRoundTrip(i);
    DecimalRoundTrip(j);
  }

  lemma {:induction false} SameNumber(p: string, q: string, d: string)
    requires IsDigits(p) && IsDigits(q) && Lower(p + "@" + d) == Lower(q + "@" + d)
    ensures p == q
  {
    var x, y := p + "@" + d, q + "@" + d;
    assert |x| == |y|;
    forall k | 0 <= k < |p|
      ensures p[k] == q[k]
    {
      assert Lower(x)[k] == p[k] && Lower(y)[k] == q[k];
    }
  }

  lemma {:induction false} AddressesDiffer(d: string, i: nat, j: nat)
    requires i != j
    ensures Lower(Decimal(i) + "@" + d) != Lower(Decimal(j) + "@" + d)
  {
    hide Decimal, Lower;
    NumbersDiffer(i, j);
    DecimalRoundTrip(i);
    DecimalRoundTrip(j);
    if Lower(Decimal(i) + "@" + d) == Lower(Decimal(j) + "@" + d) {
      SameNumber(Decimal(i), Decimal(j), d);
    }
  }

  lemma {:induction false} UserFree(d: string, accounts: seq<Account>, n: nat)
    requires forall a :: a in accounts ==> exists i: nat :: i != n && a == User(d, i)
    ensures Free(accounts, User(d, n))
  {
    hide Lower, Decimal;
    forall a | a in accounts
      ensures a.name != User(d, n).name
      ensures forall x, y :: x in a.addresses && y in User(d, n).addresses ==> Lower(x) != Lower(y)
    {
      var i: nat :| i != n && a == User(d, i);
      NumbersDiffer(i, n);
      AddressesDiffer(d, i, n);
    }
  }

  lemma {:induction false} UsersTally(p: Account -> bool, d: string, n: nat)
    requires forall i: nat :: i < n ==> p(User(d, i))
    ensures Tally(p, Users(d, 0, n)) == n
  {
    hide User;
    if n > 0 {
      UsersTally(p, d, n - 1);
      assert Users(d, 0, n)[..n - 1] == Users(d, 0, n - 1);
    }
  }

  lemma {:induction false} UserInTenant(t: Tenant, d: string, i: nat)
    requires '@' !in d
    ensures InTenant(t)(User(d, i)) <==> Lower(d) in DomainsLower(t)
  {
    hide Lower, DomainOf, DomainsLower, Decimal;
    var a := User(d, i);
    DomainAfterAt(a.name, d);
    assert Owns(t, a.addresses[0]) <==> Lower(d) in DomainsLower(t);
  }

  lemma {:induction false} UsersCount(t: Tenant, d: string, n: nat)
    requires '@' !in d && Lower(d) in DomainsLower(t)
    ensures Count(t, Users(d, 0, n)) == n
  {
    hide InTenant, DomainsLower, User, Users, Tally, Lower;
    forall i: nat | i < n
      ensures InTenant(t)(User(d, i))
    {
      UserInTenant(t, d, i);
    }
    UsersTally(InTenant(t), d, n);
  }

  lemma {:induction false} FoundSingle(limits: Limits, address: string)
    ensures Found(limits, [address]) == if Lookup(limits, address).Some? then [Lookup(limits, address).value] else []
  {
    hide Lookup;
    assert [address][..0] == [];
  }

  /** What the index gives for the family's domain decides about each of them. */
  lemma {:induction false} UserPasses(limits: Limits, accounts: seq<Account>, d: string, i: nat)
    requires '@' !in d
    requires Lower(d) in limits.byDomain && limits.byDomain[Lower(d)] < |limits.tenants| ==>
               !AtCap(limits.tenants[limits.byDomain[Lower(d)]], accounts)
    ensures Passes(limits, accounts, User(d, i).addresses)
  {
    hide Lower, DomainOf, AtCap, Decimal, Found;
    var a := User(d, i);
    DomainAfterAt(a.name, d);
    FoundSingle(limits, a.addresses[0]);
  }

  // ----- runs that store the family -----

  lemma {:induction false} RunPush(net: Net, limits: Limits, sys: System, events: seq<Event>, e: Event, k: nat)
    requires Possible(net, limits, sys, events, k) && Enabled(net, Run(limits, sys, events), e)
    requires |Step(limits, Run(limits, sys, events), e).pending| <= k
    ensures Possible(net, limits, sys, events + [e], k)
    ensures Run(limits, sys, events + [e]) == Step(limits, Run(limits, sys, events), e)
  {
    hide Step, Enabled;
    assert (events + [e])[..|events|] == events;
  }

  const EMPTY := System([], [], [])

  /** A run from the empty store that has stored the first `done` of the family and holds the next up to
      `begun` between check and store. */
  ghost predicate Reaches(net: Net, limits: Limits, d: string, events: seq<Event>, done: nat, begun: nat, k: nat) {
    && done <= begun
    && Possible(net, limits, EMPTY, events, k)
    && Run(limits, EMPTY, events) == System([], Users(d, 0, done), Users(d, done, begun))
  }

  lemma {:induction false} ReachesNone(net: Net, limits: Limits, d: string, k: nat)
    ensures Reaches(net, limits, d, [], 0, 0, k)
  {
    assert Users(d, 0, 0) == [];
  }

  lemma {:induction false} BeginNext(net: Net, limits: Limits, d: string, events: seq<Event>, done: nat, begun: nat,
                                     k: nat)
    requires Reaches(net, limits, d, events, done, begun, k) && begun - done < k
    requires Passes(limits, Users(d, 0, done), User(d, begun).addresses)
    ensures Reaches(net, limits, d, events + [Begin(User(d, begun))], done, begun + 1, k)
  {
    hide Possible, Run, Passes, User;
    var none: seq<Account> := [];
    assert none + Users(d, 0, done) == Users(d, 0, done);
    assert Users(d, done, begun) + [User(d, begun)] == Users(d, done, begun + 1);
    RunPush(net, limits, EMPTY, events, Begin(User(d, begun)), k);
  }

  lemma {:induction false} StoreNext(net: Net, limits: Limits, d: string, events: seq<Event>, done: nat, begun: nat,
                                     k: nat)
    requires Reaches(net, limits, d, events, done, begun, k) && done < begun
    requires Served(net, d) && Fits(d, begun)
    ensures Reaches(net, limits, d, events + [Finish(User(d, done), true)], done + 1, begun, k)
  {
    hide Possible, Run, Passes, User, Free, WellFormed, Served, Fits;
    var none: seq<Account> := [];
    var users, waiting := Users(d, 0, done), Users(d, done, begun);
    assert none + users == users;
    assert waiting[0] == User(d, done) && waiting[1..] == Users(d, done + 1, begun);
    assert users + [User(d, done)] == Users(d, 0, done + 1);
    forall a | a in users
      ensures exists i: nat :: i != done && a == User(d, i)
    {
      var i: nat :| i < |users| && users[i] == a;
    }
    UserFree(d, users, done);
    FitsLess(d, done + 1, begun);
    UserParsed(net, d, done);
    WithinBound(net, limits, EMPTY, events, k);
    RunPush(net, limits, EMPTY, events, Finish(User(d, done), true), k);
  }

  lemma {:induction false} WithinBound(net: Net, limits: Limits, sys: System, events: seq<Event>, k: nat)
    requires Possible(net, limits, sys, events, k)
    ensures |Run(limits, sys, events).pending| <= k
  {
  }

  lemma {:induction false} OneAtATime(net: Net, limits: Limits, d: string, n: nat, k: nat) returns (events: seq<Event>)
    requires k >= 1 && forall m: nat :: m < n ==> Passes(limits, Users(d, 0, m), User(d, m).addresses)
    requires Served(net, d) && Fits(d, n)
    ensures Reaches(net, limits, d, events, n, n, k)
  {
    hide Passes, Reaches, User, Users, Served, Fits;
    if n == 0 {
      events := [];
      ReachesNone(net, limits, d, k);
    } else {
      FitsLess(d, n - 1, n);
      events := OneAtATime(net, limits, d, n - 1, k);
      BeginNext(net, limits, d, events, n - 1, n - 1, k);
      events := events + [Begin(User(d, n - 1))];
      StoreNext(net, limits, d, events, n - 1, n, k);
      events := events + [Finish(User(d, n - 1), true)];
    }
  }

  lemma {:induction false} BeginAll(net: Net, limits: Limits, d: string, start: seq<Event>, done: nat, j: nat, k: nat)
    returns (events: seq<Event>)
    requires j <= k && Reaches(net, limits, d, start, done, done, k)
    requires forall i: nat :: Passes(limits, Users(d, 0, done), User(d, i).addresses)
    ensures Reaches(net, limits, d, events, done, done + j, k)
  {
    hide Passes, Reaches, User, Users;
    if j == 0 {
      events := start;
    } else {
      events := BeginAll(net, limits, d, start, done, j - 1, k);
      BeginNext(net, limits, d, events, done, done + j - 1, k);
      events := events + [Begin(User(d, done + j - 1))];
    }
  }

  lemma {:induction false} StoreAll(net: Net, limits: Limits, d: string, start: seq<Event>, done: nat, begun: nat,
                                    k: nat)
    returns (events: seq<Event>)
    requires Reaches(net, limits, d, start, done, begun, k) && done <= begun
    requires Served(net, d) && Fits(d, begun)
    ensures Reaches(net, limits, d, events, begun, begun, k)
    decreases begun - done
  {
    hide Reaches, User, Served, Fits;
    if done == begun {
      events := start;
    } else {
      StoreNext(net, limits, d, start, done, begun, k);
      events := StoreAll(net, limits, d, start + [Finish(User(d, done), true)], done + 1, begun, k);
    }
  }

  lemma {:induction false} ReachedAccounts(net: Net, limits: Limits, d: string, events: seq<Event>, n: nat, k: nat)
    requires Reaches(net, limits, d, events, n, n, k)
    ensures Possible(net, limits, EMPTY, events, k) && All(Run(limits, EMPTY, events)) == Users(d, 0, n)
  {
    hide Run, Possible;
    var none: seq<Account> := [];
    assert none + Users(d, 0, n) == Users(d, 0, n);
  }

  lemma {:induction false} IndexedTenant(limits: Limits, d: string)
    requires Indexed(limits.tenants, |limits.tenants|, limits.byDomain) && d in limits.byDomain
    ensures limits.byDomain[d] < |limits.tenants| && d in DomainsLower(limits.tenants[limits.byDomain[d]])
  {
  }

  // ----- the bound is reached -----

  /** For every tenant with a cap of at least one, and every k, there is a run with at most `k` creations
      between check and store that takes it to k - 1 over its cap, as far as names and addresses go. */
  lemma {:induction false} CapReached(net: Net, limits: Limits, d: string, k: nat) returns (events: seq<Event>)
    requires Indexed(limits.tenants, |limits.tenants|, limits.byDomain)
    requires d in limits.byDomain && Lower(d) == d && Served(net, d) && k >= 1
    requires limits.tenants[limits.byDomain[d]].maxAccounts.Some?
    requires limits.tenants[limits.byDomain[d]].maxAccounts.value >= 1
    requires Fits(d, limits.tenants[limits.byDomain[d]].maxAccounts.value + k - 1)
    ensures Possible(net, limits, EMPTY, events, k)
    ensures var t := limits.tenants[limits.byDomain[d]];
            Count(t, All(Run(limits, EMPTY, events))) == t.maxAccounts.value + k - 1
  {
    hide Indexed, Lower, Count, Passes, DomainsLower, User, Users, Possible, Run, Reaches, Fits, Normalize;
    IndexedTenant(limits, d);
    var t := limits.tenants[limits.byDomain[d]];
    var cap := t.maxAccounts.value;
    forall m: nat, i: nat | m < cap
      ensures Passes(limits, Users(d, 0, m), User(d, i).addresses)
    {
      UsersCount(t, d, m);
      UserPasses(limits, Users(d, 0, m), d, i);
    }
    FitsLess(d, cap - 1, cap + k - 1);
    events := OneAtATime(net, limits, d, cap - 1, k);
    events := BeginAll(net, limits, d, events, cap - 1, k, k);
    events := StoreAll(net, limits, d, events, cap - 1, cap - 1 + k, k);
    ReachedAccounts(net, limits, d, events, cap - 1 + k, k);
    UsersCount(t, d, cap - 1 + k);
  }

  // ----- a domain claimed twice, a domain in another spelling -----

  /** A domain that two tenants claim, the later without a cap: the earlier one's cap is no bound at all, even
      with one creation at a time. */
  lemma {:induction false} SharedDomainUnbounded(net: Net, limits: Limits, i: nat, d: string, n: nat)
    returns (events: seq<Event>)
    requires Indexed(limits.tenants, |limits.tenants|, limits.byDomain) && Served(net, d) && Fits(d, n)
    requires i < |limits.tenants| && d in DomainsLower(limits.tenants[i]) && Lower(d) == d
    requires d in limits.byDomain && limits.byDomain[d] != i
    requires limits.tenants[limits.byDomain[d]].maxAccounts.None?
    ensures Possible(net, limits, EMPTY, events, 1)
    ensures Count(limits.tenants[i], All(Run(limits, EMPTY, events))) == n
  {
    hide Indexed, Lower, Count, Passes, DomainsLower, User, Users, Possible, Run, Reaches, Fits, Normalize;
    forall m: nat | m < n
      ensures Passes(limits, Users(d, 0, m), User(d, m).addresses)
    {
      UserPasses(limits, Users(d, 0, m), d, m);
    }
    events := OneAtATime(net, limits, d, n, 1);
    ReachedAccounts(net, limits, d, events, n, 1);
    UsersCount(limits.tenants[i], d, n);
  }

  lemma {:induction false} UserAscii(net: Net, t: Tenant, d: string, i: nat)
    requires Served(net, d) && Fits(d, i + 1) && Normalize(net, d).value in DomainsLower(t)
    ensures Mine(AsciiOwner(net), t)(User(d, i))
  {
    hide Normalize, ParsedDomain, Decimal, DomainsLower;
    UserParsed(net, d, i);
    assert AsciiOwner(net)(DomainsLower(t), User(d, i).addresses[0]);
  }

  /** A spelling that the index does not know, of a domain of the tenant: the tenant's cap is no bound on the
      accounts that are its own by the ASCII form, even with one creation at a time, and none of them counts
      by its text. */
  lemma {:induction false} SpellingUnbounded(net: Net, limits: Limits, x: nat, raw: string, n: nat)
    returns (events: seq<Event>)
    requires Indexed(limits.tenants, |limits.tenants|, limits.byDomain) && Served(net, raw) && Fits(raw, n)
    requires x < |limits.tenants| && Normalize(net, raw).value in DomainsLower(limits.tenants[x])
    requires Lower(raw) !in limits.byDomain
    ensures Possible(net, limits, EMPTY, events, 1)
    ensures Held(AsciiOwner(net), limits.tenants[x], All(Run(limits, EMPTY, events))) == n
  {
    hide Indexed, Lower, Passes, DomainsLower, User, Users, Possible, Run, Reaches, Fits, Normalize, Mine, Tally;
    var t := limits.tenants[x];
    forall m: nat | m < n
      ensures Passes(limits, Users(raw, 0, m), User(raw, m).addresses)
    {
      UserPasses(limits, Users(raw, 0, m), raw, m);
    }
    events := OneAtATime(net, limits, raw, n, 1);
    ReachedAccounts(net, limits, raw, events, n, 1);
    forall i: nat | i < n
      ensures Mine(AsciiOwner(net), t)(User(raw, i))
    {
      FitsLess(raw, i + 1, n);
      UserAscii(net, t, raw, i);
    }
    UsersTally(Mine(AsciiOwner(net), t), raw, n);
  }

  // ----- exactly when the caps hold -----

  /** The same tenants and index with other caps. */
  function WithCaps(limits: Limits, caps: seq<Option<nat>>): Limits
    requires |caps| == |limits.tenants|
  {
    Limits(seq(|caps|, i requires 0 <= i < |caps| => limits.tenants[i].(maxAccounts := caps[i])), limits.byDomain)
  }

  /** One creation at a time, from the empty store: no tenant holds more than its cap. */
  ghost predicate CapsHold(net: Net, limits: Limits, owner: Owner) {
    forall events, x: nat ::
      x < |limits.tenants| && limits.tenants[x].maxAccounts.Some? && Possible(net, limits, EMPTY, events, 1) ==>
        Held(owner, limits.tenants[x], All(Run(limits, EMPTY, events))) <= limits.tenants[x].maxAccounts.value
  }

  ghost predicate AllCapsHold(net: Net, limits: Limits, owner: Owner) {
    forall caps: seq<Option<nat>> :: |caps| == |limits.tenants| ==> CapsHold(net, WithCaps(limits, caps), owner)
  }

  lemma {:induction false} SameClaims(a: seq<Tenant>, b: seq<Tenant>, byDomain: map<string, nat>)
    requires |a| == |b| && Indexed(a, |a|, byDomain)
    requires forall i :: 0 <= i < |a| ==> DomainsLower(a[i]) == DomainsLower(b[i])
    ensures Indexed(b, |b|, byDomain)
  {
    hide DomainsLower;
    forall d
      ensures Claimed(b, |b|, d) <==> Claimed(a, |a|, d)
    {
    }
    forall d | d in byDomain
      ensures LastClaim(b, |b|, d, byDomain[d])
    {
      assert LastClaim(a, |a|, d, byDomain[d]);
    }
  }

  lemma {:induction false} SameDomains(limits: Limits, caps: seq<Option<nat>>)
    requires |caps| == |limits.tenants| && Indexed(limits.tenants, |limits.tenants|, limits.byDomain)
    ensures var other := WithCaps(limits, caps);
            && Indexed(other.tenants, |other.tenants|, other.byDomain)
            && forall i :: 0 <= i < |caps| ==> DomainsLower(other.tenants[i]) == DomainsLower(limits.tenants[i])
  {
    hide Indexed;
    SameClaims(limits.tenants, WithCaps(limits, caps).tenants, limits.byDomain);
  }

  lemma {:induction false} SameLookup(limits: Limits, caps: seq<Option<nat>>, address: string)
    requires |caps| == |limits.tenants|
    ensures Lookup(WithCaps(limits, caps), address) == Lookup(limits, address)
  {
  }

  lemma {:induction false} TracedHolds(net: Net, limits: Limits, owner: Owner, caps: seq<Option<nat>>)
    requires Indexed(limits.tenants, |limits.tenants|, limits.byDomain) && Traced(net, limits, owner)
    requires |caps| == |limits.tenants|
    ensures CapsHold(net, WithCaps(limits, caps), owner)
  {
    hide Indexed, DomainsLower, Possible, Run, Lookup, Accepted, Mine, Tally;
    SameDomains(limits, caps);
    var other := WithCaps(limits, caps);
    forall address: string
      ensures Lookup(other, address) == Lookup(limits, address)
    {
      SameLookup(limits, caps, address);
    }
    assert Traced(net, other, owner);
    forall events, x: nat |
      x < |other.tenants| && other.tenants[x].maxAccounts.Some? && Possible(net, other, EMPTY, events, 1)
      ensures Held(owner, other.tenants[x], All(Run(other, EMPTY, events))) <= other.tenants[x].maxAccounts.value
    {
      assert All(EMPTY) == [];
      TallyNone(Mine(owner, other.tenants[x]));
      HeldKept(net, other, owner, EMPTY, events, x, 1);
    }
  }

  /** One account with that address, stored by itself. */
  lemma {:induction false} StoreOne(net: Net, limits: Limits, address: string) returns (events: seq<Event>)
    requires Accepted(net, address) && Passes(limits, [], [address])
    ensures Possible(net, limits, EMPTY, events, 1)
    ensures All(Run(limits, EMPTY, events)) == [Account("0", [address])]
  {
    hide Accepted, Passes;
    var a := Account("0", [address]);
    var none: seq<Account> := [];
    assert Run(limits, EMPTY, []) == EMPTY && Possible(net, limits, EMPTY, [], 1);
    RunPush(net, limits, EMPTY, [], Begin(a), 1);
    assert none + none == none && none + [a] == [a] && Removed([a], a) == [];
    assert ValidName("0") && WellFormed(net, a) && Free(none, a);
    RunPush(net, limits, EMPTY, [] + [Begin(a)], Finish(a, true), 1);
    events := [] + [Begin(a)] + [Finish(a, true)];
  }

  lemma {:induction false} MissedBreaks(net: Net, limits: Limits, owner: Owner, address: string, x: nat)
    requires Indexed(limits.tenants, |limits.tenants|, limits.byDomain)
    requires Accepted(net, address) && x < |limits.tenants|
    requires owner(DomainsLower(limits.tenants[x]), address) && Lookup(limits, address) != Some(x)
    ensures !AllCapsHold(net, limits, owner)
  {
    hide Indexed, DomainsLower, Possible, Run, Accepted, Lookup, Found, Passes, WithCaps, Tally;
    var caps := OnlyCap(|limits.tenants|, x);
    SameDomains(limits, caps);
    var other := WithCaps(limits, caps);
    OtherUncapped(limits, address, x);
    var events := StoreOne(net, other, address);
    var a := Account("0", [address]);
    assert owner(DomainsLower(other.tenants[x]), a.addresses[0]);
    TallyOne(Mine(owner, other.tenants[x]), a);
    assert !CapsHold(net, other, owner);
  }

  /** A cap of zero for one tenant, none for the others. */
  function OnlyCap(n: nat, x: nat): (caps: seq<Option<nat>>)
    ensures |caps| == n && forall i :: 0 <= i < n ==> caps[i] == if i == x then Some(0) else None
  {
    seq(n, i => if i == x then Some(0) else None)
  }

  lemma {:induction false} OtherUncapped(limits: Limits, address: string, x: nat)
    requires x < |limits.tenants| && Lookup(limits, address) != Some(x)
    ensures |WithCaps(limits, OnlyCap(|limits.tenants|, x)).tenants| == |limits.tenants|
    ensures WithCaps(limits, OnlyCap(|limits.tenants|, x)).tenants[x].maxAccounts == Some(0)
    ensures Passes(WithCaps(limits, OnlyCap(|limits.tenants|, x)), [], [address])
  {
    hide Lookup, Found, Count;
    var other := WithCaps(limits, OnlyCap(|limits.tenants|, x));
    SameLookup(limits, OnlyCap(|limits.tenants|, x), address);
    FoundSingle(other, address);
  }

  /** Whoever an address belongs to: one creation at a time keeps every cap, whatever caps are configured,
      exactly when the index leads from every address the store takes to its tenants. */
  lemma {:induction false} HeldExact(net: Net, limits: Limits, owner: Owner)
    requires Indexed(limits.tenants, |limits.tenants|, limits.byDomain)
    ensures AllCapsHold(net, limits, owner) <==> Traced(net, limits, owner)
  {
    hide Indexed, CapsHold, DomainsLower, Accepted, Lookup, WithCaps;
    if Traced(net, limits, owner) {
      forall caps: seq<Option<nat>> | |caps| == |limits.tenants|
        ensures CapsHold(net, WithCaps(limits, caps), owner)
      {
        TracedHolds(net, limits, owner, caps);
      }
    } else {
      var address: string, x: nat :| Accepted(net, address) && x < |limits.tenants|
        && owner(DomainsLower(limits.tenants[x]), address) && Lookup(limits, address) != Some(x);
      MissedBreaks(net, limits, owner, address, x);
    }
  }

  ghost predicate OwnedTwice(net: Net, limits: Limits, address: string, i: nat, j: nat) {
    i < j < |limits.tenants| && Accepted(net, address)
    && Owns(limits.tenants[i], address) && Owns(limits.tenants[j], address)
  }

  lemma {:induction false} TextTraced(net: Net, limits: Limits)
    requires Indexed(limits.tenants, |limits.tenants|, limits.byDomain)
    ensures Traced(net, limits, TextOwner()) <==>
            forall address: string, i: nat, j: nat :: !OwnedTwice(net, limits, address, i, j)
  {
    hide Indexed, DomainsLower, DomainOf, Lower, Accepted, Lookup;
    if Traced(net, limits, TextOwner()) {
      forall address: string, i: nat, j: nat
        ensures !OwnedTwice(net, limits, address, i, j)
      {
        assert OwnedTwice(net, limits, address, i, j) ==>
            Lookup(limits, address) == Some(i) && Lookup(limits, address) == Some(j);
      }
    } else {
      var address: string, x: nat :| Accepted(net, address) && x < |limits.tenants|
        && TextOwner()(DomainsLower(limits.tenants[x]), address) && Lookup(limits, address) != Some(x);
      OwnerFound(limits, address, x);
      var y := Lookup(limits, address).value;
      LookupOwns(limits, address, y);
      assert if x < y then OwnedTwice(net, limits, address, x, y) else OwnedTwice(net, limits, address, y, x);
    }
  }

  lemma {:induction false} OwnerFound(limits: Limits, address: string, x: nat)
    requires Indexed(limits.tenants, |limits.tenants|, limits.byDomain)
    requires x < |limits.tenants| && Owns(limits.tenants[x], address)
    ensures Lookup(limits, address).Some?
  {
    hide DomainsLower, DomainOf, Lower;
    assert Claimed(limits.tenants, |limits.tenants|, Lower(DomainOf(address).value));
  }

  /** One creation at a time keeps the caps, whatever caps are configured, exactly when no address that the
      store takes is in the domains of two tenants. */
  lemma {:induction false} CapsExact(net: Net, limits: Limits)
    requires Indexed(limits.tenants, |limits.tenants|, limits.byDomain)
    ensures AllCapsHold(net, limits, TextOwner()) <==>
            forall address: string, i: nat, j: nat :: !OwnedTwice(net, limits, address, i, j)
  {
    hide *;
    HeldExact(net, limits, TextOwner());
    TextTraced(net, limits);
  }

  lemma {:induction false} SharedTaken(net: Net, limits: Limits, i: nat, j: nat, d: string)
    requires i < j < |limits.tenants| && d in DomainsLower(limits.tenants[i]) && d in DomainsLower(limits.tenants[j])
    requires Served(net, d) && Fits(d, 1)
    ensures OwnedTwice(net, limits, User(d, 0).addresses[0], i, j)
  {
    hide DomainOf, ParsedDomain, Normalize, Encode, Lower, ValidName;
    LowerClaim(limits.tenants[i], d);
    UserParsed(net, d, 0);
    DomainAfterAt(Decimal(0), d);
  }

  lemma {:induction false} LowerClaim(t: Tenant, d: string)
    requires d in DomainsLower(t)
    ensures Lower(d) == d
  {
    hide Lower;
    var raw :| raw in t.domains && Lower(raw) == d;
    LowerFacts(raw);
  }

  /** Where every domain of a tenant has room for an address, that is exactly when no domain is claimed twice. */
  lemma {:induction false} DisjointExact(net: Net, limits: Limits)
    requires Indexed(limits.tenants, |limits.tenants|, limits.byDomain)
    requires forall d :: d in limits.byDomain ==> Served(net, d) && Fits(d, 1)
    ensures AllCapsHold(net, limits, TextOwner()) <==> Disjoint(limits.tenants)
  {
    hide Indexed, DomainsLower, AllCapsHold, Traced, Served, Fits, OwnedTwice;
    HeldExact(net, limits, TextOwner());
    if Disjoint(limits.tenants) {
      DisjointTraced(net, limits);
    } else {
      var i, j :| 0 <= i < j < |limits.tenants| &&
                  !(DomainsLower(limits.tenants[i]) !! DomainsLower(limits.tenants[j]));
      var d :| d in DomainsLower(limits.tenants[i]) && d in DomainsLower(limits.tenants[j]);
      LaterClaim(limits, i, j, d);
      SharedTaken(net, limits, i, j, d);
      CapsExact(net, limits);
    }
  }

  lemma {:induction false} LaterClaim(limits: Limits, i: nat, j: nat, d: string)
    requires Indexed(limits.tenants, |limits.tenants|, limits.byDomain)
    requires i < j < |limits.tenants| && d in DomainsLower(limits.tenants[i]) && d in DomainsLower(limits.tenants[j])
    ensures d in limits.byDomain && i < limits.byDomain[d] < |limits.tenants|
  {
    hide DomainsLower;
    assert Claimed(limits.tenants, |limits.tenants|, d);
    assert LastClaim(limits.tenants, |limits.tenants|, d, limits.byDomain[d]);
  }

  /** Where no domain is claimed twice, one creation at a time keeps the caps on the accounts that are a
      tenant's by the ASCII form of their domains, whatever caps are configured, exactly when every address
      that the store takes for a domain of a tenant is written with a domain of that tenant. */
  lemma {:induction false} SpellingsExact(net: Net, limits: Limits)
    requires Indexed(limits.tenants, |limits.tenants|, limits.byDomain) && Disjoint(limits.tenants)
    ensures AllCapsHold(net, limits, AsciiOwner(net)) <==>
            forall address: string, x: nat ::
              Accepted(net, address) && x < |limits.tenants|
              && ParsedDomain(net, address).value in DomainsLower(limits.tenants[x]) ==>
                Owns(limits.tenants[x], address)
  {
    hide Indexed, Disjoint, AllCapsHold, DomainsLower, Lookup, ParsedDomain, Owns;
    HeldExact(net, limits, AsciiOwner(net));
    forall address: string, x: nat
      ensures Lookup(limits, address) == Some(x) <==> x < |limits.tenants| && Owns(limits.tenants[x], address)
    {
      LookupLinear(limits, address, x);
    }
  }

  // ----- an instance -----

  const LABEL := "xn--bcher-kva.example"
  const SPELLED := "b\U{fc}cher.example"

  function OneSpelling(): Net {
    Net([LABEL], (raw: string) => if raw == SPELLED then Some(LABEL) else Some(raw))
  }

  lemma {:induction false} LabelChars(s: string)
    requires DnsLabel(s)
    ensures |s| <= MAX_LABEL && '.' !in s && Lower(s) == s && forall i :: 0 <= i < |s| ==> s[i] as int < 0x80
  {
  }

  lemma {:induction false} TwoLabels(a: string, b: string)
    requires DnsLabel(a) && DnsLabel(b)
    ensures DnsShape(a + "." + b) && Lower(a + "." + b) == a + "." + b
  {
    hide Encode, DnsLabel;
    var s := a + "." + b;
    LabelChars(a);
    LabelChars(b);
    AsciiLength(s);
    SplitAppend(a, '.', b);
    assert Split(b, '.') == [b];
  }

  lemma {:induction false} LabelShape()
    ensures DnsShape(LABEL) && Lower(LABEL) == LABEL
  {
    hide DnsShape, Lower;
    assert "xn--bcher-kva" + "." + "example" == LABEL;
    TwoLabels("xn--bcher-kva", "example");
  }

  lemma {:induction false} SpelledServed()
    ensures Served(OneSpelling(), SPELLED) && Normalize(OneSpelling(), SPELLED) == Some(LABEL)
  {
    hide DnsShape;
    LabelShape();
    assert OneSpelling().domains[0] == LABEL;
  }

  /** A tenant with an internationalized domain, configured in ASCII as it must be, and an account that gives
      the domain in its own script: the account is taken, and neither checked nor counted. */
  lemma {:induction false} SpellingMissed(limits: Limits)
    requires limits.tenants == [Tenant(None, [LABEL], Some(1))]
    requires Indexed(limits.tenants, 1, limits.byDomain)
    ensures var a := User(SPELLED, 0);
            && WellFormed(OneSpelling(), a) && ParsedDomain(OneSpelling(), a.addresses[0]) == Some(LABEL)
            && Found(limits, a.addresses) == [] && Count(limits.tenants[0], [a]) == 0
  {
    hide Found, Lower, WellFormed, ParsedDomain, Normalize, Served, Tally, InTenant, DomainOf, Fits, Indexed,
      DomainsLower, DnsShape;
    var t, a := limits.tenants[0], User(SPELLED, 0);
    SpelledServed();
    SpelledFits();
    FitsLess(SPELLED, 1, 2);
    UserParsed(OneSpelling(), SPELLED, 0);
    NotLabel();
    LabelShape();
    OneDomain(limits, LABEL);
    DomainAfterAt(Decimal(0), SPELLED);
    FoundSingle(limits, a.addresses[0]);
    UserInTenant(t, SPELLED, 0);
    TallyOne(InTenant(t), a);
  }

  /** Two such accounts in turn, where one is allowed. */
  lemma {:induction false} SpellingPassed(limits: Limits) returns (events: seq<Event>)
    requires limits.tenants == [Tenant(None, [LABEL], Some(1))]
    requires Indexed(limits.tenants, 1, limits.byDomain)
    ensures Possible(OneSpelling(), limits, EMPTY, events, 1)
    ensures Held(AsciiOwner(OneSpelling()), limits.tenants[0], All(Run(limits, EMPTY, events))) == 2
  {
    hide Lower, Normalize, Served, DomainsLower, DnsShape, Fits, Possible, Run, Indexed, Mine, Tally;
    SpelledServed();
    SpelledFits();
    NotLabel();
    LabelShape();
    OneDomain(limits, LABEL);
    events := SpellingUnbounded(OneSpelling(), limits, 0, SPELLED, 2);
  }

  lemma {:induction false} OneDomain(limits: Limits, d: string)
    requires limits.tenants == [Tenant(None, [d], Some(1))] && Lower(d) == d
    requires Indexed(limits.tenants, 1, limits.byDomain)
    ensures DomainsLower(limits.tenants[0]) == {d} && forall e :: e in limits.byDomain ==> e == d
  {
    hide Lower;
    assert DomainsLower(limits.tenants[0]) == {d};
  }

  lemma {:induction false} LabelServed()
    ensures Served(OneSpelling(), LABEL) && Fits(LABEL, 2)
  {
    hide DnsShape, Encode;
    LabelShape();
    LabelPlain();
    EncodeAtMost(LABEL);
    assert OneSpelling().domains[0] == LABEL;
  }

  lemma {:induction false} LabelPlain()
    ensures LABEL != SPELLED && '@' !in LABEL && forall i :: 0 <= i < |LABEL| ==> !ControlOrSpace(LABEL[i])
  {
    assert LABEL[0] == 'x' && SPELLED[0] == 'b';
  }

  /** Two creations at once take a tenant with a cap of one to two accounts. */
  lemma {:induction false} CapPassed(limits: Limits) returns (events: seq<Event>)
    requires limits.tenants == [Tenant(None, [LABEL], Some(1))]
    requires Indexed(limits.tenants, 1, limits.byDomain)
    ensures Possible(OneSpelling(), limits, EMPTY, events, 2)
    ensures Count(limits.tenants[0], All(Run(limits, EMPTY, events))) == 2
  {
    hide Lower, DnsShape, Served, Fits, DomainsLower, Possible, Run, Count;
    LabelShape();
    LabelServed();
    OneDomain(limits, LABEL);
    assert Claimed(limits.tenants, 1, LABEL);
    assert LastClaim(limits.tenants, 1, LABEL, limits.byDomain[LABEL]);
    events := CapReached(OneSpelling(), limits, LABEL, 2);
  }

  /** So do two creations in turn where another tenant claims the domain too. */
  lemma {:induction false} SharedPassed(limits: Limits) returns (events: seq<Event>)
    requires limits.tenants == [Tenant(None, [LABEL], Some(1)), Tenant(None, [LABEL], None)]
    requires Indexed(limits.tenants, 2, limits.byDomain)
    ensures Possible(OneSpelling(), limits, EMPTY, events, 1)
    ensures Count(limits.tenants[0], All(Run(limits, EMPTY, events))) == 2
  {
    hide Lower, DnsShape, Served, Fits, Possible, Run, Count;
    LabelShape();
    LabelServed();
    assert LABEL in limits.tenants[0].domains && LABEL in limits.tenants[1].domains;
    assert LABEL in DomainsLower(limits.tenants[0]) && LABEL in DomainsLower(limits.tenants[1]);
    LaterClaim(limits, 0, 1, LABEL);
    events := SharedDomainUnbounded(OneSpelling(), limits, 0, LABEL, 2);
  }

  lemma {:induction false} NotLabel()
    ensures Lower(SPELLED) != LABEL && '@' !in SPELLED
  {
    assert Lower(SPELLED)[0] == 'b' && LABEL[0] == 'x';
  }

  lemma {:induction false} SpelledFits()
    ensures Fits(SPELLED, 2)
  {
    hide Encode;
    EncodeAtMost(SPELLED);
  }

  lemma {:induction false} EncodeAtMost(s: string)
    ensures |Encode(s)| <= 4 * |s|
  {
    if s != "" {
      EncodeAtMost(s[1..]);
    }
  }
}
