/** Tenant account caps: the domain index against a linear scan, the check made before an account is
    created, and the account store. */
module Tenants {
  import opened Text
  import opened Addresses

  datatype Tenant = Tenant(name: Option<string>, domains: seq<string>, maxAccounts: Option<nat>)

  datatype Account = Account(name: string, addresses: seq<string>)

  /** The configured tenants and the position of each lower-cased domain's tenant. */
  datatype Limits = Limits(tenants: seq<Tenant>, byDomain: map<string, nat>)

  function DomainsLower(t: Tenant): set<string> {
    set d | d in t.domains :: Lower(d)
  }

  /** Whether one of the tenant's domains holds the address, in any case. */
  predicate Owns(t: Tenant, address: string) {
    DomainOf(address).Some? && Lower(DomainOf(address).value) in DomainsLower(t)
  }

  predicate Touches(t: Tenant, addresses: seq<string>) {
    exists i :: 0 <= i < |addresses| && Owns(t, addresses[i])
  }

  /** A tenant owns the addresses whose domain is one of its own, in any case. */
  lemma {:induction false} OwnsMeaning(t: Tenant, user: string, d: string)
    requires '@' !in d
    ensures Owns(t, user + "@" + d) <==> exists i :: 0 <= i < |t.domains| && SameLetters(t.domains[i], d)
  {
    hide Lower, SameLetters, DomainOf;
    DomainAfterAt(user, d);
    if Lower(d) in DomainsLower(t) {
      var raw :| raw in t.domains && Lower(raw) == Lower(d);
      var i :| 0 <= i < |t.domains| && t.domains[i] == raw;
      LowerMeaning(raw, d);
    }
    if i :| 0 <= i < |t.domains| && SameLetters(t.domains[i], d) {
      LowerMeaning(t.domains[i], d);
      assert t.domains[i] in t.domains;
    }
  }

  // ----- the index -----

  /** Tenant `i` is the last of the first `n` that claims `d`. */
  predicate LastClaim(tenants: seq<Tenant>, n: nat, d: string, i: nat) {
    && i < n <= |tenants| && d in DomainsLower(tenants[i])
    && forall j :: i < j < n ==> d !in DomainsLower(tenants[j])
  }

  predicate Claimed(tenants: seq<Tenant>, n: nat, d: string)
    requires n <= |tenants|
  {
    exists i :: 0 <= i < n && d in DomainsLower(tenants[i])
  }

  ghost predicate Indexed(tenants: seq<Tenant>, n: nat, byDomain: map<string, nat>)
    requires n <= |tenants|
  {
    && (forall d :: d in byDomain <==> Claimed(tenants, n, d))
    && (forall d :: d in byDomain ==> LastClaim(tenants, n, d, byDomain[d]))
  }

  lemma {:induction false} IndexStep(tenants: seq<Tenant>, n: nat, before: map<string, nat>, after: map<string, nat>)
    requires n < |tenants| && Indexed(tenants, n, before)
    requires after == before + map d | d in DomainsLower(tenants[n]) :: n
    ensures Indexed(tenants, n + 1, after)
  {
    hide DomainsLower;
    forall d
      ensures Claimed(tenants, n + 1, d) <==> Claimed(tenants, n, d) || d in DomainsLower(tenants[n])
    {
    }
  }

  lemma {:induction false} InsertOne(before: map<string, nat>, done: set<string>, d: string, index: nat)
    ensures (before + map x | x in done :: index)[d := index] == before + map x | x in done + {d} :: index
  {
  }

  /** Points every one of a tenant's domains at it, in whatever order they come. */
  method InsertAll(byDomain: map<string, nat>, domains: set<string>, index: nat) returns (m: map<string, nat>)
    ensures m == byDomain + map d | d in domains :: index
  {
    m := byDomain;
    var rest := domains;
    ghost var done: set<string> := {};
    while rest != {}
      invariant done + rest == domains
      invariant m == byDomain + map d | d in done :: index
    {
      var domain :| domain in rest;
      InsertOne(byDomain, done, domain, index);
      m := m[domain := index];
      rest, done := rest - {domain}, done + {domain};
    }
    assert done == domains;
  }

  lemma {:induction false} NothingIndexed(tenants: seq<Tenant>)
    ensures Indexed(tenants, 0, map[])
  {
  }

  /** Builds the index: of several tenants that claim a domain the last is found. */
  method FromConfig(tenants: seq<Tenant>) returns (limits: Limits)
    ensures limits.tenants == tenants
    ensures Indexed(tenants, |tenants|, limits.byDomain)
  {
    hide Indexed, DomainsLower;
    var byDomain: map<string, nat> := map[];
    NothingIndexed(tenants);
    if tenants == [] {
      return Limits([], byDomain);
    }
    for index := 0 to |tenants|
      invariant Indexed(tenants, index, byDomain)
    {
      var more := InsertAll(byDomain, DomainsLower(tenants[index]), index);
      IndexStep(tenants, index, byDomain, more);
      byDomain := more;
    }
    limits := Limits(tenants, byDomain);
  }

  /** No domain is claimed by two tenants, in any case. */
  predicate Disjoint(tenants: seq<Tenant>) {
    forall i, j :: 0 <= i < j < |tenants| ==> DomainsLower(tenants[i]) !! DomainsLower(tenants[j])
  }

  /** That is, no domain of one is a domain of another. */
  lemma {:induction false} DisjointMeaning(tenants: seq<Tenant>)
    ensures Disjoint(tenants) <==>
            forall i, j, a, b :: 0 <= i < j < |tenants| && a in tenants[i].domains && b in tenants[j].domains ==>
              !SameLetters(a, b)
  {
    hide Lower, SameLetters, DomainsLower;
    forall i, j | 0 <= i < j < |tenants|
      ensures DomainsLower(tenants[i]) !! DomainsLower(tenants[j]) <==>
              forall a, b :: a in tenants[i].domains && b in tenants[j].domains ==> !SameLetters(a, b)
    {
      DomainsApart(tenants[i], tenants[j]);
    }
  }

  lemma {:induction false} DomainsApart(t: Tenant, u: Tenant)
    ensures DomainsLower(t) !! DomainsLower(u) <==>
            forall a, b :: a in t.domains && b in u.domains ==> !SameLetters(a, b)
  {
    hide Lower, SameLetters;
    forall a: string, b: string
      ensures Lower(a) == Lower(b) <==> SameLetters(a, b)
    {
      LowerMeaning(a, b);
    }
    if d :| d in DomainsLower(t) && d in DomainsLower(u) {
      var a :| a in t.domains && Lower(a) == d;
      var b :| b in u.domains && Lower(b) == d;
      assert SameLetters(a, b);
    }
    if a, b :| a in t.domains && b in u.domains && SameLetters(a, b) {
      assert Lower(a) in DomainsLower(t) && Lower(b) in DomainsLower(u);
    }
  }

  /** The claims a configuration makes, in file order. */
  function Claims(tenants: seq<Tenant>, n: nat): set<string>
    requires n <= |tenants|
  {
    set i, d | 0 <= i < n && d in DomainsLower(tenants[i]) :: d
  }

  /** The domain part of the configuration check: a domain already claimed, in any case, is refused. */
  method ValidateClaims(tenants: seq<Tenant>) returns (ok: bool)
    ensures ok <==> Disjoint(tenants) && forall t :: t in tenants ==> Distinct(t.domains)
  {
    var owned: set<string> := {};
    for index := 0 to |tenants|
      invariant owned == Claims(tenants, index)
      invariant Disjoint(tenants[..index])
      invariant forall i :: 0 <= i < index ==> Distinct(tenants[i].domains)
    {
      hide DomainsLower, Disjoint;
      var t := tenants[index];
      ghost var before := owned;
      for k := 0 to |t.domains|
        invariant owned == before + ClaimedHere(t, k)
        invariant before !! ClaimedHere(t, k)
        invariant DistinctUpTo(t.domains, k)
      {
        if Lower(t.domains[k]) in owned {
          Refused(tenants, index, k, before);
          return false;
        }
        owned := owned + {Lower(t.domains[k])};
      }
      AllClaimed(t);
      ClaimsStep(tenants, index);
      DisjointStep(tenants, index);
    }
    assert tenants[..|tenants|] == tenants;
    ok := true;
  }

  predicate DistinctUpTo(domains: seq<string>, k: nat)
    requires k <= |domains|
  {
    forall i, j :: 0 <= i < j < k ==> Lower(domains[i]) != Lower(domains[j])
  }

  predicate Distinct(domains: seq<string>) {
    DistinctUpTo(domains, |domains|)
  }

  function ClaimedHere(t: Tenant, k: nat): set<string>
    requires k <= |t.domains|
  {
    set i | 0 <= i < k :: Lower(t.domains[i])
  }

  lemma {:induction false} AllClaimed(t: Tenant)
    ensures ClaimedHere(t, |t.domains|) == DomainsLower(t)
  {
    forall d | d in DomainsLower(t)
      ensures d in ClaimedHere(t, |t.domains|)
    {
      var raw :| raw in t.domains && Lower(raw) == d;
      var i :| 0 <= i < |t.domains| && t.domains[i] == raw;
    }
  }

  lemma {:induction false} ClaimsStep(tenants: seq<Tenant>, n: nat)
    requires n < |tenants|
    ensures Claims(tenants, n + 1) == Claims(tenants, n) + DomainsLower(tenants[n])
  {
  }

  lemma {:induction false} DisjointStep(tenants: seq<Tenant>, n: nat)
    requires n < |tenants| && Disjoint(tenants[..n]) && Claims(tenants, n) !! DomainsLower(tenants[n])
    ensures Disjoint(tenants[..n + 1])
  {
    hide DomainsLower;
    var more := tenants[..n + 1];
    forall i, j | 0 <= i < j < |more|
      ensures DomainsLower(more[i]) !! DomainsLower(more[j])
    {
      if j < n {
        assert more[i] == tenants[..n][i] && more[j] == tenants[..n][j];
      } else {
        assert DomainsLower(tenants[i]) <= Claims(tenants, n);
      }
    }
  }

  lemma {:induction false} Refused(tenants: seq<Tenant>, n: nat, k: nat, before: set<string>)
    requires n < |tenants| && k < |tenants[n].domains| && before == Claims(tenants, n)
    requires Lower(tenants[n].domains[k]) in before + ClaimedHere(tenants[n], k)
    ensures !(Disjoint(tenants) && forall t :: t in tenants ==> Distinct(t.domains))
  {
    var t := tenants[n];
    var d := Lower(t.domains[k]);
    assert t in tenants;
    if d in before {
      var i :| 0 <= i < n && d in DomainsLower(tenants[i]);
      assert t.domains[k] in t.domains;
      assert d in DomainsLower(t);
    } else {
      var i :| 0 <= i < k && Lower(t.domains[i]) == d;
      assert !Distinct(t.domains);
    }
  }

  // ----- lookup -----

  /** The tenants an account's addresses lead to, each once, in the order of the addresses. */
  function Found(limits: Limits, addresses: seq<string>): seq<nat> {
    if addresses == [] then []
    else
      var n := |addresses| - 1;
      var before := Found(limits, addresses[..n]);
      var index := Lookup(limits, addresses[n]);
      if index.Some? && index.value !in before then before + [index.value] else before
  }

  function Lookup(limits: Limits, address: string): Option<nat> {
    match DomainOf(address)
    case None => None
    case Some(d) => if Lower(d) in limits.byDomain then Some(limits.byDomain[Lower(d)]) else None
  }

  method TenantsForAddresses(limits: Limits, addresses: seq<string>) returns (result: seq<nat>)
    ensures result == Found(limits, addresses)
  {
    var seen: set<nat> := {};
    result := [];
    for i := 0 to |addresses|
      invariant result == Found(limits, addresses[..i])
      invariant forall x :: x in seen <==> x in result
    {
      hide DomainOf, Lower;
      assert addresses[..i + 1][..i] == addresses[..i];
      var split := DomainOf(addresses[i]);
      if split.None? {
        continue;
      }
      var domain := Lower(split.value);
      if domain in limits.byDomain {
        var index := limits.byDomain[domain];
        if index !in seen {
          seen := seen + {index};
          result := result + [index];
        }
      }
    }
    assert addresses[..|addresses|] == addresses;
  }

  lemma {:induction false} FoundMeaning(limits: Limits, addresses: seq<string>, x: nat)
    ensures x in Found(limits, addresses) <==>
            exists i :: 0 <= i < |addresses| && Lookup(limits, addresses[i]) == Some(x)
    ensures forall i, j :: 0 <= i < j < |Found(limits, addresses)| ==>
              Found(limits, addresses)[i] != Found(limits, addresses)[j]
  {
    hide Lookup;
    if addresses != [] {
      var n := |addresses| - 1;
      FoundMeaning(limits, addresses[..n], x);
      if x in Found(limits, addresses[..n]) {
        var i :| 0 <= i < n && Lookup(limits, addresses[..n][i]) == Some(x);
        assert Lookup(limits, addresses[i]) == Some(x);
      }
      if i :| 0 <= i < |addresses| && Lookup(limits, addresses[i]) == Some(x) {
        assert i < n ==> addresses[..n][i] == addresses[i];
      }
    }
  }

  lemma {:induction false} LookupLinear(limits: Limits, address: string, x: nat)
    requires Indexed(limits.tenants, |limits.tenants|, limits.byDomain) && Disjoint(limits.tenants)
    ensures Lookup(limits, address) == Some(x) <==> x < |limits.tenants| && Owns(limits.tenants[x], address)
  {
    hide DomainsLower, DomainOf, Lower;
    var n := |limits.tenants|;
    var split := DomainOf(address);
    if split.Some? {
      var d := Lower(split.value);
      if x < n && d in DomainsLower(limits.tenants[x]) {
        assert Claimed(limits.tenants, n, d);
        var y := limits.byDomain[d];
        assert LastClaim(limits.tenants, n, d, y);
        assert y == x;
      } else if d in limits.byDomain {
        assert LastClaim(limits.tenants, n, d, limits.byDomain[d]);
      }
    }
  }

  /** When no domain is claimed twice, the index finds exactly the tenants that own one of the addresses,
      each once. */
  lemma {:induction false} IndexIsLinearScan(limits: Limits, addresses: seq<string>, x: nat)
    requires Indexed(limits.tenants, |limits.tenants|, limits.byDomain) && Disjoint(limits.tenants)
    ensures x in Found(limits, addresses) <==> x < |limits.tenants| && Touches(limits.tenants[x], addresses)
    ensures forall i, j :: 0 <= i < j < |Found(limits, addresses)| ==>
              Found(limits, addresses)[i] != Found(limits, addresses)[j]
  {
    hide Lookup, Owns, Indexed, Disjoint, Found;
    FoundMeaning(limits, addresses, x);
    forall i | 0 <= i < |addresses|
      ensures Lookup(limits, addresses[i]) == Some(x) <==> x < |limits.tenants| && Owns(limits.tenants[x], addresses[i])
    {
      LookupLinear(limits, addresses[i], x);
    }
    if x in Found(limits, addresses) {
      var i :| 0 <= i < |addresses| && Lookup(limits, addresses[i]) == Some(x);
      assert Owns(limits.tenants[x], addresses[i]);
    }
  }

  /** Two tenants that claim one domain: the first is never found for an address there, though it owns it. */
  lemma {:induction false} SharedDomainMissed(limits: Limits, i: nat, j: nat, address: string)
    requires Indexed(limits.tenants, |limits.tenants|, limits.byDomain)
    requires i < j < |limits.tenants|
    requires Owns(limits.tenants[i], address) && Owns(limits.tenants[j], address)
    ensures Touches(limits.tenants[i], [address]) && i !in Found(limits, [address])
  {
    hide DomainsLower, DomainOf, Lower;
    var n := |limits.tenants|;
    var d := Lower(DomainOf(address).value);
    assert [address][0] == address;
    assert Claimed(limits.tenants, n, d);
    assert LastClaim(limits.tenants, n, d, limits.byDomain[d]);
    FoundMeaning(limits, [address], i);
  }

  lemma {:induction false} SharedClaim(t: Tenant, u: Tenant) returns (address: string)
    requires !(DomainsLower(t) !! DomainsLower(u))
    requires forall d :: d in t.domains ==> '@' !in d
    ensures Owns(t, address) && Owns(u, address)
  {
    hide Lower, DomainOf;
    var d :| d in DomainsLower(t) && d in DomainsLower(u);
    var raw :| raw in t.domains && Lower(raw) == d;
    LowerFacts(raw);
    DomainAfterAt("", d);
    address := "" + "@" + d;
  }

  ghost predicate Agrees(limits: Limits, addresses: seq<string>, x: nat) {
    x in Found(limits, addresses) <==> x < |limits.tenants| && Touches(limits.tenants[x], addresses)
  }

  /** The index agrees with the linear scan on every account exactly when no domain is claimed twice. A
      configured domain is a DNS name, which holds no `@`. */
  lemma {:induction false} IndexExact(limits: Limits)
    requires Indexed(limits.tenants, |limits.tenants|, limits.byDomain)
    requires NoAt(limits.tenants)
    ensures Disjoint(limits.tenants) <==> forall addresses: seq<string>, x: nat :: Agrees(limits, addresses, x)
  {
    hide Indexed, Found, Touches, Owns, DomainsLower;
    if Disjoint(limits.tenants) {
      forall addresses: seq<string>, x: nat
        ensures Agrees(limits, addresses, x)
      {
        IndexIsLinearScan(limits, addresses, x);
      }
    } else {
      var i, j :| 0 <= i < j < |limits.tenants| &&
                  !(DomainsLower(limits.tenants[i]) !! DomainsLower(limits.tenants[j]));
      assert limits.tenants[i] in limits.tenants;
      var address := SharedClaim(limits.tenants[i], limits.tenants[j]);
      SharedDomainMissed(limits, i, j, address);
      assert !Agrees(limits, [address], i);
    }
  }

  // ----- the order of the answer -----

  predicate Ascending(s: seq<nat>) {
    forall i, j :: 0 <= i < j < |s| ==> s[i] < s[j]
  }

  ghost predicate NoAt(tenants: seq<Tenant>) {
    forall t, d :: t in tenants && d in t.domains ==> '@' !in d
  }

  lemma {:induction false} KeysPlain(limits: Limits, d: string)
    requires Indexed(limits.tenants, |limits.tenants|, limits.byDomain) && NoAt(limits.tenants)
    requires d in limits.byDomain
    ensures '@' !in d && Lower(d) == d
  {
    hide Lower;
    var i :| 0 <= i < |limits.tenants| && d in DomainsLower(limits.tenants[i]);
    var raw :| raw in limits.tenants[i].domains && Lower(raw) == d;
    assert limits.tenants[i] in limits.tenants;
    LowerFacts(raw);
  }

  lemma {:induction false} FoundTwo(limits: Limits, a: string, b: string)
    requires Lookup(limits, a).Some? && Lookup(limits, b).Some? && Lookup(limits, a) != Lookup(limits, b)
    ensures Found(limits, [a, b]) == [Lookup(limits, a).value, Lookup(limits, b).value]
  {
    hide Lookup;
    assert [a, b][..1] == [a] && [a][..0] == [];
    assert Found(limits, [a]) == [Lookup(limits, a).value];
  }

  lemma {:induction false} FoundOne(limits: Limits, addresses: seq<string>)
    requires forall d, e :: d in limits.byDomain && e in limits.byDomain ==> limits.byDomain[d] == limits.byDomain[e]
    ensures |Found(limits, addresses)| <= 1
    ensures forall x :: x in Found(limits, addresses) ==> exists d :: d in limits.byDomain && limits.byDomain[d] == x
  {
    hide DomainOf, Lower;
    if addresses != [] {
      var before := addresses[..|addresses| - 1];
      FoundOne(limits, before);
      assert Found(limits, before) != [] ==> Found(limits, before)[0] in Found(limits, before);
    }
  }

  /** The tenants come in configuration order for every account exactly when the index leads to at most one
      tenant: with two, the addresses decide. */
  lemma {:induction false} ConfigOrderIff(limits: Limits)
    requires Indexed(limits.tenants, |limits.tenants|, limits.byDomain) && NoAt(limits.tenants)
    ensures (forall addresses :: Ascending(Found(limits, addresses))) <==>
            forall d, e :: d in limits.byDomain && e in limits.byDomain ==> limits.byDomain[d] == limits.byDomain[e]
  {
    hide Indexed, Lower, DomainOf, Found;
    if d, e :| d in limits.byDomain && e in limits.byDomain && limits.byDomain[d] < limits.byDomain[e] {
      KeysPlain(limits, d);
      KeysPlain(limits, e);
      DomainAfterAt("", d);
      DomainAfterAt("", e);
      FoundTwo(limits, "" + "@" + e, "" + "@" + d);
      var found := Found(limits, ["" + "@" + e, "" + "@" + d]);
      assert found[0] > found[1];
    } else {
      forall addresses
        ensures Ascending(Found(limits, addresses))
      {
        FoundOne(limits, addresses);
      }
    }
  }

  /** Two tenants with a domain each, and an account with an address in either: the second comes first. */
  lemma {:induction false} OrderReversed(limits: Limits)
    requires limits.tenants == [Tenant(None, ["a"], None), Tenant(None, ["b"], None)]
    requires Indexed(limits.tenants, 2, limits.byDomain)
    ensures Found(limits, ["x@b", "x@a"]) == [1, 0]
  {
    hide Found, DomainOf;
    var first, second := limits.tenants[0], limits.tenants[1];
    assert "a" in first.domains && "b" in second.domains && Lower("a") == "a" && Lower("b") == "b";
    assert DomainsLower(first) == {"a"} && DomainsLower(second) == {"b"};
    assert Claimed(limits.tenants, 2, "a") && Claimed(limits.tenants, 2, "b");
    assert LastClaim(limits.tenants, 2, "a", limits.byDomain["a"]);
    assert LastClaim(limits.tenants, 2, "b", limits.byDomain["b"]);
    DomainAfterAt("x", "a");
    DomainAfterAt("x", "b");
    assert "x" + "@" + "a" == "x@a" && "x" + "@" + "b" == "x@b";
    FoundTwo(limits, "x@b", "x@a");
  }

  // ----- counting -----

  function Tally(p: Account -> bool, accounts: seq<Account>): nat {
    if accounts == [] then 0
    else Tally(p, accounts[..|accounts| - 1]) + (if p(accounts[|accounts| - 1]) then 1 else 0)
  }

  function InTenant(t: Tenant): Account -> bool {
    (a: Account) => Touches(t, a.addresses)
  }

  /** Accounts with an address in the tenant's domains; each counts once. */
  function Count(t: Tenant, accounts: seq<Account>): nat {
    Tally(InTenant(t), accounts)
  }

  predicate AtCap(t: Tenant, accounts: seq<Account>) {
    t.maxAccounts.Some? && Count(t, accounts) + 1 > t.maxAccounts.value
  }

  ghost predicate Indices(limits: Limits, found: seq<nat>) {
    forall i :: 0 <= i < |found| ==> found[i] < |limits.tenants|
  }

  /** What the creation check asks: no tenant that the index finds is at its cap. */
  ghost predicate Passes(limits: Limits, accounts: seq<Account>, addresses: seq<string>) {
    forall x :: x in Found(limits, addresses) && x < |limits.tenants| ==> !AtCap(limits.tenants[x], accounts)
  }

  /** What it is for: no tenant that owns one of the addresses is at its cap. */
  ghost predicate BelowCaps(limits: Limits, accounts: seq<Account>, addresses: seq<string>) {
    forall x: nat :: x < |limits.tenants| && Touches(limits.tenants[x], addresses) ==>
                       !AtCap(limits.tenants[x], accounts)
  }

  lemma {:induction false} FoundInRange(limits: Limits, addresses: seq<string>)
    requires Indexed(limits.tenants, |limits.tenants|, limits.byDomain)
    ensures Indices(limits, Found(limits, addresses))
  {
    hide DomainOf, Lower, DomainsLower;
    if addresses != [] {
      FoundInRange(limits, addresses[..|addresses| - 1]);
    }
  }

  /** The creation check: the first tenant at its cap among those the addresses lead to, or none. */
  method CheckCreation(limits: Limits, accounts: seq<Account>, addresses: seq<string>) returns (r: Result<(), nat>)
    requires Indexed(limits.tenants, |limits.tenants|, limits.byDomain)
    ensures Indices(limits, Found(limits, addresses))
    ensures r.Ok? <==> Passes(limits, accounts, addresses)
    ensures r.Err? ==> exists k :: 0 <= k < |Found(limits, addresses)| && Found(limits, addresses)[k] == r.error
                         && AtCap(limits.tenants[r.error], accounts)
                         && forall j :: 0 <= j < k ==> !AtCap(limits.tenants[Found(limits, addresses)[j]], accounts)
  {
    hide Indexed, Found, Count;
    FoundInRange(limits, addresses);
    var found := TenantsForAddresses(limits, addresses);
    for k := 0 to |found|
      invariant forall j :: 0 <= j < k ==> !AtCap(limits.tenants[found[j]], accounts)
    {
      var t := limits.tenants[found[k]];
      if t.maxAccounts.None? {
        continue;
      }
      var projected := Count(t, accounts) + 1;
      if projected > t.maxAccounts.value {
        return Err(found[k]);
      }
    }
    r := Ok(());
  }

  /** The check passes exactly when every tenant that owns one of the addresses is below its cap. */
  lemma {:induction false} CheckMeaning(limits: Limits, accounts: seq<Account>, addresses: seq<string>)
    requires Indexed(limits.tenants, |limits.tenants|, limits.byDomain) && Disjoint(limits.tenants)
    ensures Passes(limits, accounts, addresses) <==> BelowCaps(limits, accounts, addresses)
  {
    hide Indexed, Disjoint, Found, Touches, AtCap;
    forall x: nat
      ensures x in Found(limits, addresses) <==> x < |limits.tenants| && Touches(limits.tenants[x], addresses)
    {
      IndexIsLinearScan(limits, addresses, x);
    }
  }

  // ----- the store -----

  /** Neither the name nor an address is taken; addresses compare in any case. */
  predicate Free(accounts: seq<Account>, account: Account) {
    && (forall a :: a in accounts ==> a.name != account.name)
    && (forall a, x, y :: a in accounts && x in a.addresses && y in account.addresses ==> Lower(x) != Lower(y))
  }

  /** Two accounts with a name or, in any case, an address in common. */
  predicate Clash(a: Account, b: Account) {
    a.name == b.name || exists x, y :: x in a.addresses && y in b.addresses && SameLetters(x, y)
  }

  lemma {:induction false} FreeMeaning(accounts: seq<Account>, account: Account)
    ensures Free(accounts, account) <==> forall a :: a in accounts ==> !Clash(a, account)
  {
    hide Lower, SameLetters;
    forall x: string, y: string
      ensures Lower(x) == Lower(y) <==> SameLetters(x, y)
    {
      LowerMeaning(x, y);
    }
  }

  /** A name and addresses the store takes. */
  predicate WellFormed(net: Net, account: Account) {
    && ValidName(account.name) && account.addresses != []
    && forall i :: 0 <= i < |account.addresses| ==> Accepted(net, account.addresses[i])
  }

  /** A name of 1 to 64 lower-case letters, digits and hyphens, not led by a hyphen, and at least one address,
      each of which is accepted. */
  predicate Proper(net: Net, a: Account) {
    && 1 <= |a.name| <= 64 && a.name[0] != '-' && (forall i :: 0 <= i < |a.name| ==> NameCode(a.name[i]))
    && |a.addresses| >= 1 && forall x :: x in a.addresses ==> Accepted(net, x)
  }

  lemma {:induction false} WellFormedMeaning(net: Net, account: Account)
    ensures WellFormed(net, account) <==> Proper(net, account)
  {
    hide Accepted, NameCode;
    NameMeaning(account.name);
  }

  function Without(accounts: seq<Account>, name: string): seq<Account> {
    if accounts == [] then []
    else
      var n := |accounts| - 1;
      Without(accounts[..n], name) + (if accounts[n].name != name then [accounts[n]] else [])
  }

  class AccountStore {
    const net: Net
    const fixed: seq<Account>
    var dynamic: seq<Account>

    /** The accounts of the configuration and those of the store's file. */
    constructor (net: Net, fixed: seq<Account>, dynamic: seq<Account>)
      ensures this.net == net && this.fixed == fixed && this.dynamic == dynamic
    {
      this.net := net;
      this.fixed := fixed;
      this.dynamic := dynamic;
    }

    /** Whether the store takes an account. */
    ghost predicate Takes(account: Account)
      reads this
    {
      WellFormed(net, account) && Free(fixed + dynamic, account)
    }

    /** Adds an account whose name and addresses are free. An error from writing the file comes after the
        account is in. */
    method Add(account: Account, written: bool) returns (ok: bool)
      modifies this
      ensures dynamic == if old(Takes(account)) then old(dynamic) + [account] else old(dynamic)
      ensures ok <==> old(Takes(account)) && written
    {
      if !WellFormed(net, account) || !Free(fixed + dynamic, account) {
        return false;
      }
      dynamic := dynamic + [account];
      ok := written;
    }

    /** Deletes the dynamic accounts of that name; static ones stay. An error from writing the file comes
        after the deletion. */
    method Remove(name: string, written: bool) returns (ok: bool)
      modifies this
      ensures dynamic == Without(old(dynamic), name)
      ensures ok <==> (exists a :: a in old(dynamic) && a.name == name) && written
    {
      WithoutMeaning(dynamic, name);
      var before := |dynamic|;
      dynamic := Without(dynamic, name);
      ok := |dynamic| != before && written;
    }

    /** The create call: the key's scope, the cap check, the password, then the store. */
    method Create(limits: Limits, account: Account, scope: bool, password: bool, written: bool)
      returns (ok: bool)
      requires Indexed(limits.tenants, |limits.tenants|, limits.byDomain)
      modifies this
      ensures var passed := scope && Passes(limits, fixed + old(dynamic), account.addresses) && password
                            && old(Takes(account));
              && dynamic == (if passed then old(dynamic) + [account] else old(dynamic))
              && (ok <==> passed && written)
    {
      hide Indexed, Free, Passes, WellFormed;
      if !scope {
        return false;
      }
      var check := CheckCreation(limits, fixed + dynamic, account.addresses);
      if check.Err? || !password {
        return false;
      }
      ok := Add(account, written);
    }
  }

  lemma {:induction false} WithoutMeaning(accounts: seq<Account>, name: string)
    ensures |Without(accounts, name)| <= |accounts|
    ensures |Without(accounts, name)| < |accounts| <==> exists a :: a in accounts && a.name == name
    ensures forall a :: a in Without(accounts, name) <==> a in accounts && a.name != name
  {
    if accounts != [] {
      var n := |accounts| - 1;
      WithoutMeaning(accounts[..n], name);
      assert accounts == accounts[..n] + [accounts[n]];
    }
  }
}
