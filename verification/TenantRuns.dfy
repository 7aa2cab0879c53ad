/** Tenant caps over every interleaving of account creations and deletions. */
module TenantRuns {
  import opened Text
  import opened Addresses
  import opened Tenants

  /** Creations are checked first and stored later; others may run in between. */
  datatype Event =
    | Begin(account: Account)
    | Finish(account: Account, stored: bool)
    | Delete(name: string)

  /** Static accounts never change; `pending` are the creations that passed the check. */
  datatype System = System(fixed: seq<Account>, dynamic: seq<Account>, pending: seq<Account>)

  function All(sys: System): seq<Account> {
    sys.fixed + sys.dynamic
  }

  /** `stored` is false when the password, the name or an address is refused, or the name or an address is
      taken by then. */
  ghost predicate Enabled(net: Net, sys: System, e: Event) {
    match e
    case Begin(_) => true
    case Finish(a, stored) => a in sys.pending && (stored ==> WellFormed(net, a) && Free(All(sys), a))
    case Delete(_) => true
  }

  /** Without the first occurrence of `a`. */
  function Removed(accounts: seq<Account>, a: Account): seq<Account> {
    if accounts == [] then []
    else if accounts[0] == a then accounts[1..]
    else [accounts[0]] + Removed(accounts[1..], a)
  }

  ghost function Step(limits: Limits, sys: System, e: Event): System {
    match e
    case Begin(a) =>
      if Passes(limits, All(sys), a.addresses) then sys.(pending := sys.pending + [a]) else sys
    case Finish(a, stored) =>
      System(sys.fixed, if stored then sys.dynamic + [a] else sys.dynamic, Removed(sys.pending, a))
    case Delete(name) => sys.(dynamic := Without(sys.dynamic, name))
  }

  ghost function Run(limits: Limits, sys: System, events: seq<Event>): System {
    if events == [] then sys
    else Step(limits, Run(limits, sys, events[..|events| - 1]), events[|events| - 1])
  }

  /** Every event was possible, and never more than `k` creations were between check and store. */
  ghost predicate Possible(net: Net, limits: Limits, sys: System, events: seq<Event>, k: nat) {
    && |Run(limits, sys, events).pending| <= k
    && (events == [] ||
        var before := events[..|events| - 1];
        Possible(net, limits, sys, before, k) && Enabled(net, Run(limits, sys, before), events[|events| - 1]))
  }

  // ----- counting -----

  lemma {:induction false} TallyJoin(p: Account -> bool, a: seq<Account>, b: seq<Account>)
    ensures Tally(p, a + b) == Tally(p, a) + Tally(p, b)
  {
    if b == [] {
      assert a + b == a;
    } else {
      TallyJoin(p, a, b[..|b| - 1]);
      assert (a + b)[..|a + b| - 1] == a + b[..|b| - 1];
    }
  }

  lemma {:induction false} TallyOne(p: Account -> bool, a: Account)
    ensures Tally(p, [a]) == if p(a) then 1 else 0
  {
    assert [a][..0] == [];
  }

  lemma {:induction false} TallyWithout(p: Account -> bool, accounts: seq<Account>, name: string)
    ensures Tally(p, Without(accounts, name)) <= Tally(p, accounts)
  {
    if accounts != [] {
      var n := |accounts| - 1;
      TallyWithout(p, accounts[..n], name);
      TallyJoin(p, Without(accounts[..n], name), if accounts[n].name != name then [accounts[n]] else []);
      TallyOne(p, accounts[n]);
    }
  }

  lemma {:induction false} TallyRemoved(p: Account -> bool, accounts: seq<Account>, a: Account)
    requires a in accounts
    ensures Tally(p, Removed(accounts, a)) == Tally(p, accounts) - (if p(a) then 1 else 0)
  {
    hide Tally;
    var head, rest := [accounts[0]], accounts[1..];
    assert accounts == head + rest;
    TallyJoin(p, head, rest);
    TallyOne(p, accounts[0]);
    if accounts[0] != a {
      TallyRemoved(p, rest, a);
      TallyJoin(p, head, Removed(rest, a));
    }
  }

  lemma {:induction false} TallyAtMost(p: Account -> bool, accounts: seq<Account>)
    ensures Tally(p, accounts) <= |accounts|
  {
    if accounts != [] {
      TallyAtMost(p, accounts[..|accounts| - 1]);
    }
  }

  lemma {:induction false} TallyMonotone(p: Account -> bool, q: Account -> bool, accounts: seq<Account>)
    requires forall a :: a in accounts && p(a) ==> q(a)
    ensures Tally(p, accounts) <= Tally(q, accounts)
  {
    if accounts != [] {
      TallyMonotone(p, q, accounts[..|accounts| - 1]);
    }
  }

  lemma {:induction false} TallyNone(p: Account -> bool)
    ensures Tally(p, []) == 0
  {
  }

  // ----- whose an address is -----

  /** Says of the lower-cased domains of a tenant and an address whether the address is the tenant's. */
  type Owner = (set<string>, string) -> bool

  /** By its text, as the check and the count have it. */
  function TextOwner(): Owner {
    (domains: set<string>, address: string) =>
      DomainOf(address).Some? && Lower(DomainOf(address).value) in domains
  }

  /** By the ASCII form of its domain, by which the store takes it. */
  function AsciiOwner(net: Net): Owner {
    (domains: set<string>, address: string) =>
      ParsedDomain(net, address).Some? && ParsedDomain(net, address).value in domains
  }

  function Mine(owner: Owner, t: Tenant): Account -> bool {
    (a: Account) => exists i :: 0 <= i < |a.addresses| && owner(DomainsLower(t), a.addresses[i])
  }

  /** The accounts that are the tenant's. */
  function Held(owner: Owner, t: Tenant, accounts: seq<Account>): nat {
    Tally(Mine(owner, t), accounts)
  }

  lemma {:induction false} TextMine(t: Tenant, a: Account)
    ensures Mine(TextOwner(), t)(a) <==> InTenant(t)(a)
  {
    hide DomainsLower, DomainOf, Lower;
    forall i | 0 <= i < |a.addresses|
      ensures TextOwner()(DomainsLower(t), a.addresses[i]) <==> Owns(t, a.addresses[i])
    {
    }
  }

  lemma {:induction false} TextHeld(t: Tenant, accounts: seq<Account>)
    ensures Held(TextOwner(), t, accounts) == Count(t, accounts)
  {
    hide Mine, InTenant;
    forall a: Account
      ensures Mine(TextOwner(), t)(a) <==> InTenant(t)(a)
    {
      TextMine(t, a);
    }
    TallyMonotone(Mine(TextOwner(), t), InTenant(t), accounts);
    TallyMonotone(InTenant(t), Mine(TextOwner(), t), accounts);
  }

  /** The index leads from every address the store takes to the tenants whose it is. */
  ghost predicate Traced(net: Net, limits: Limits, owner: Owner) {
    forall address: string, x: nat ::
      Accepted(net, address) && x < |limits.tenants| && owner(DomainsLower(limits.tenants[x]), address) ==>
        Lookup(limits, address) == Some(x)
  }

  /** So does it for whole accounts, and it counts them. */
  ghost predicate Sees(net: Net, limits: Limits, x: nat, mine: Account -> bool)
    requires x < |limits.tenants|
  {
    forall a: Account :: WellFormed(net, a) && mine(a) ==>
      x in Found(limits, a.addresses) && Touches(limits.tenants[x], a.addresses)
  }

  lemma {:induction false} LookupOwns(limits: Limits, address: string, x: nat)
    requires Indexed(limits.tenants, |limits.tenants|, limits.byDomain) && Lookup(limits, address) == Some(x)
    ensures x < |limits.tenants| && Owns(limits.tenants[x], address)
  {
    hide DomainsLower, DomainOf, Lower;
    var d := Lower(DomainOf(address).value);
    assert LastClaim(limits.tenants, |limits.tenants|, d, limits.byDomain[d]);
  }

  lemma {:induction false} TracedSees(net: Net, limits: Limits, owner: Owner, x: nat)
    requires Indexed(limits.tenants, |limits.tenants|, limits.byDomain) && Traced(net, limits, owner)
    requires x < |limits.tenants|
    ensures Sees(net, limits, x, Mine(owner, limits.tenants[x]))
  {
    hide Indexed, Found, Lookup, Owns, DomainsLower, Accepted;
    forall a: Account | WellFormed(net, a) && Mine(owner, limits.tenants[x])(a)
      ensures x in Found(limits, a.addresses) && Touches(limits.tenants[x], a.addresses)
    {
      var i :| 0 <= i < |a.addresses| && owner(DomainsLower(limits.tenants[x]), a.addresses[i]);
      assert Lookup(limits, a.addresses[i]) == Some(x);
      FoundMeaning(limits, a.addresses, x);
      LookupOwns(limits, a.addresses[i], x);
    }
  }

  // ----- the bound is kept -----

  function Max(a: nat, b: nat): nat {
    if a >= b then a else b
  }

  /** What a tenant's count can come to: what it was at the start, or k - 1 over its cap; a cap of zero lets
      nobody in. */
  function Bound(cap: nat, start: nat, k: nat): nat
    requires k >= 1
  {
    Max(start, if cap == 0 then 0 else cap + k - 1)
  }

  /** Those between check and store that the store may take. */
  function Coming(net: Net, mine: Account -> bool): Account -> bool {
    (a: Account) => WellFormed(net, a) && mine(a)
  }

  /** The tenant's accounts, stored and to come. */
  function Load(net: Net, mine: Account -> bool, sys: System): nat {
    Tally(mine, All(sys)) + Tally(Coming(net, mine), sys.pending)
  }

  /** Every account that is the tenant's counts as such. */
  ghost predicate Counted(t: Tenant, mine: Account -> bool, accounts: seq<Account>) {
    forall a :: a in accounts && mine(a) ==> Touches(t, a.addresses)
  }

  lemma {:induction false} BeginBounded(net: Net, limits: Limits, sys: System, a: Account, x: nat, k: nat, start: nat,
                                        mine: Account -> bool)
    requires x < |limits.tenants| && limits.tenants[x].maxAccounts.Some? && k >= 1
    requires Sees(net, limits, x, mine) && Counted(limits.tenants[x], mine, All(sys))
    requires Passes(limits, All(sys), a.addresses) && |sys.pending| < k
    requires Load(net, mine, sys) <= Bound(limits.tenants[x].maxAccounts.value, start, k)
    ensures Load(net, mine, sys.(pending := sys.pending + [a])) <= Bound(limits.tenants[x].maxAccounts.value, start, k)
  {
    hide Touches, Tally, Found, WellFormed;
    var t := limits.tenants[x];
    TallyJoin(Coming(net, mine), sys.pending, [a]);
    TallyOne(Coming(net, mine), a);
    TallyAtMost(Coming(net, mine), sys.pending);
    TallyMonotone(mine, InTenant(t), All(sys));
  }

  lemma {:induction false} StepBounded(net: Net, limits: Limits, sys: System, e: Event, x: nat, k: nat, start: nat,
                                       mine: Account -> bool)
    requires x < |limits.tenants| && limits.tenants[x].maxAccounts.Some? && k >= 1
    requires Sees(net, limits, x, mine) && Counted(limits.tenants[x], mine, All(sys))
    requires Enabled(net, sys, e) && |sys.pending| <= k && |Step(limits, sys, e).pending| <= k
    requires Load(net, mine, sys) <= Bound(limits.tenants[x].maxAccounts.value, start, k)
    ensures Load(net, mine, Step(limits, sys, e)) <= Bound(limits.tenants[x].maxAccounts.value, start, k)
    ensures Counted(limits.tenants[x], mine, All(Step(limits, sys, e)))
  {
    hide Touches, Tally, Without, Removed, Free, Passes, WellFormed, Bound, Found;
    match e
    case Begin(a) =>
      if Passes(limits, All(sys), a.addresses) {
        BeginBounded(net, limits, sys, a, x, k, start, mine);
      }
    case Finish(a, stored) =>
      TallyRemoved(Coming(net, mine), sys.pending, a);
      assert sys.fixed + (sys.dynamic + [a]) == All(sys) + [a];
      TallyJoin(mine, All(sys), [a]);
      TallyOne(mine, a);
    case Delete(name) =>
      TallyJoin(mine, sys.fixed, sys.dynamic);
      TallyJoin(mine, sys.fixed, Without(sys.dynamic, name));
      TallyWithout(mine, sys.dynamic, name);
      WithoutMeaning(sys.dynamic, name);
  }

  lemma {:induction false} RunBounded(net: Net, limits: Limits, sys: System, events: seq<Event>, x: nat, k: nat,
                                      mine: Account -> bool)
    requires x < |limits.tenants| && limits.tenants[x].maxAccounts.Some? && k >= 1
    requires Sees(net, limits, x, mine) && Counted(limits.tenants[x], mine, All(sys))
    requires sys.pending == [] && Possible(net, limits, sys, events, k)
    ensures Load(net, mine, Run(limits, sys, events))
         <= Bound(limits.tenants[x].maxAccounts.value, Tally(mine, All(sys)), k)
    ensures Counted(limits.tenants[x], mine, All(Run(limits, sys, events)))
    decreases |events|
  {
    hide Tally, Step, Enabled, All, Sees, Counted;
    if events == [] {
      TallyNone(Coming(net, mine));
    } else {
      var before, e := events[..|events| - 1], events[|events| - 1];
      RunBounded(net, limits, sys, before, x, k, mine);
      StepBounded(net, limits, Run(limits, sys, before), e, x, k, Tally(mine, All(sys)), mine);
    }
  }

  /** Whoever an address belongs to: where the index leads from every address the store takes to its tenants,
      and with at most `k` creations between check and store at any time, no tenant holds more accounts than
      its cap, or what it held at the start, by more than k - 1. */
  lemma {:induction false} HeldKept(net: Net, limits: Limits, owner: Owner, sys: System, events: seq<Event>, x: nat,
                                    k: nat)
    requires Indexed(limits.tenants, |limits.tenants|, limits.byDomain) && Traced(net, limits, owner)
    requires x < |limits.tenants| && limits.tenants[x].maxAccounts.Some? && k >= 1
    requires Counted(limits.tenants[x], Mine(owner, limits.tenants[x]), All(sys))
    requires sys.pending == [] && Possible(net, limits, sys, events, k)
    ensures var t := limits.tenants[x];
            Held(owner, t, All(Run(limits, sys, events)))
            <= Bound(t.maxAccounts.value, Held(owner, t, All(sys)), k)
  {
    hide Indexed, Traced, Possible, Run, Bound, Counted, Mine, Tally, Sees;
    TracedSees(net, limits, owner, x);
    RunBounded(net, limits, sys, events, x, k, Mine(owner, limits.tenants[x]));
  }

  lemma {:induction false} DisjointTraced(net: Net, limits: Limits)
    requires Indexed(limits.tenants, |limits.tenants|, limits.byDomain) && Disjoint(limits.tenants)
    ensures Traced(net, limits, TextOwner())
  {
    hide Indexed, Disjoint, Lookup, Accepted, DomainsLower, DomainOf, Lower;
    forall address: string, x: nat |
      Accepted(net, address) && x < |limits.tenants| && TextOwner()(DomainsLower(limits.tenants[x]), address)
      ensures Lookup(limits, address) == Some(x)
    {
      LookupLinear(limits, address, x);
    }
  }

  /** Where no domain is claimed twice, and with at most `k` creations between check and store at any time,
      no tenant's account count passes its cap, or what it was at the start, by more than k - 1; one at a
      time, caps hold. Straddling accounts count against every tenant they touch. */
  lemma {:induction false} CapsKept(net: Net, limits: Limits, sys: System, events: seq<Event>, x: nat, k: nat)
    requires Indexed(limits.tenants, |limits.tenants|, limits.byDomain) && Disjoint(limits.tenants)
    requires x < |limits.tenants| && limits.tenants[x].maxAccounts.Some? && k >= 1
    requires sys.pending == [] && Possible(net, limits, sys, events, k)
    ensures var t := limits.tenants[x];
            Count(t, All(Run(limits, sys, events))) <= Bound(t.maxAccounts.value, Count(t, All(sys)), k)
  {
    hide Indexed, Disjoint, Traced, Possible, Run, Bound, Mine, Tally, Touches;
    var t := limits.tenants[x];
    DisjointTraced(net, limits);
    forall a | a in All(sys) && Mine(TextOwner(), t)(a)
      ensures Touches(t, a.addresses)
    {
      TextMine(t, a);
    }
    HeldKept(net, limits, TextOwner(), sys, events, x, k);
    TextHeld(t, All(sys));
    TextHeld(t, All(Run(limits, sys, events)));
  }

  /** The domain is written in its ASCII form, in any case. */
  predicate InAscii(net: Net, address: string) {
    DomainOf(address).Some? && ParsedDomain(net, address) == Some(Lower(DomainOf(address).value))
  }

  lemma {:induction false} AsciiCounted(net: Net, t: Tenant, a: Account)
    requires forall i :: 0 <= i < |a.addresses| ==> InAscii(net, a.addresses[i])
    ensures Mine(AsciiOwner(net), t)(a) ==> InTenant(t)(a)
  {
    hide DomainsLower, DomainOf, Lower, ParsedDomain;
    if Mine(AsciiOwner(net), t)(a) {
      var i :| 0 <= i < |a.addresses| && AsciiOwner(net)(DomainsLower(t), a.addresses[i]);
      assert Owns(t, a.addresses[i]);
    }
  }

  /** The same for the accounts that are a tenant's by the ASCII form of their domains, in every run at whose
      end all addresses are written in that form. */
  lemma {:induction false} AsciiCapsKept(net: Net, limits: Limits, sys: System, events: seq<Event>, x: nat, k: nat)
    requires Indexed(limits.tenants, |limits.tenants|, limits.byDomain) && Disjoint(limits.tenants)
    requires x < |limits.tenants| && limits.tenants[x].maxAccounts.Some? && k >= 1
    requires sys.pending == [] && Possible(net, limits, sys, events, k)
    requires forall a, i :: a in All(Run(limits, sys, events)) && 0 <= i < |a.addresses| ==>
               InAscii(net, a.addresses[i])
    ensures var t := limits.tenants[x];
            Held(AsciiOwner(net), t, All(Run(limits, sys, events)))
            <= Bound(t.maxAccounts.value, Count(t, All(sys)), k)
  {
    hide Indexed, Disjoint, Possible, Run, Bound, Mine, InTenant, Tally, InAscii;
    var t, after := limits.tenants[x], All(Run(limits, sys, events));
    forall a | a in after && Mine(AsciiOwner(net), t)(a)
      ensures InTenant(t)(a)
    {
      AsciiCounted(net, t, a);
    }
    TallyMonotone(Mine(AsciiOwner(net), t), InTenant(t), after);
    CapsKept(net, limits, sys, events, x, k);
  }

  // ----- no two accounts clash -----

  ghost predicate NoClash(accounts: seq<Account>) {
    forall i, j :: 0 <= i < j < |accounts| ==> !Clash(accounts[i], accounts[j])
  }

  lemma {:induction false} NoClashPush(accounts: seq<Account>, a: Account)
    requires NoClash(accounts) && forall x :: x in accounts ==> !Clash(x, a)
    ensures NoClash(accounts + [a])
  {
    hide Clash;
  }

  lemma {:induction false} NoClashWithout(fixed: seq<Account>, dynamic: seq<Account>, name: string)
    requires NoClash(fixed + dynamic)
    ensures NoClash(fixed + Without(dynamic, name))
  {
    hide Clash, NoClash;
    if dynamic != [] {
      var n := |dynamic| - 1;
      var front, last := dynamic[..n], dynamic[n];
      assert Without(dynamic, name) == Without(front, name) + (if last.name != name then [last] else []);
      hide Without;
      NoClashLast(fixed + front, last, fixed + dynamic);
      NoClashWithout(fixed, front, name);
      var kept := fixed + Without(front, name);
      if last.name != name {
        WithoutMeaning(front, name);
        NoClashPush(kept, last);
        assert kept + [last] == fixed + (Without(front, name) + [last]);
      } else {
        assert Without(front, name) + [] == Without(front, name);
      }
    }
  }

  lemma {:induction false} NoClashLast(front: seq<Account>, last: Account, all: seq<Account>)
    requires all == front + [last] && NoClash(all)
    ensures NoClash(front) && forall x :: x in front ==> !Clash(x, last)
  {
    hide Clash;
    assert all[|front|] == last && forall i :: 0 <= i < |front| ==> all[i] == front[i];
  }

  lemma {:induction false} StepNoClash(net: Net, limits: Limits, sys: System, e: Event)
    requires NoClash(All(sys)) && Enabled(net, sys, e)
    ensures NoClash(All(Step(limits, sys, e)))
  {
    hide Clash, NoClash, Free, Without, Passes, WellFormed, Removed;
    match e
    case Begin(a) =>
    case Finish(a, stored) =>
      if stored {
        FreeMeaning(All(sys), a);
        NoClashPush(All(sys), a);
        assert All(sys) + [a] == sys.fixed + (sys.dynamic + [a]);
      }
    case Delete(name) => NoClashWithout(sys.fixed, sys.dynamic, name);
  }

  /** In every run no two stored accounts ever share a name or, in any case, an address. */
  lemma {:induction false} NeverClash(net: Net, limits: Limits, sys: System, events: seq<Event>, k: nat)
    requires NoClash(All(sys)) && Possible(net, limits, sys, events, k)
    ensures NoClash(All(Run(limits, sys, events)))
    decreases |events|
  {
    hide NoClash, Step, Enabled, All;
    if events != [] {
      var before := events[..|events| - 1];
      NeverClash(net, limits, sys, before, k);
      StepNoClash(net, limits, Run(limits, sys, before), events[|events| - 1]);
    }
  }

  /** In every run an account is one of those at the start, or has a proper name and proper addresses. */
  lemma {:induction false} NeverImproper(net: Net, limits: Limits, sys: System, events: seq<Event>, k: nat)
    requires Possible(net, limits, sys, events, k)
    ensures forall a :: a in All(Run(limits, sys, events)) ==> a in All(sys) || Proper(net, a)
    decreases |events|
  {
    hide Proper, WellFormed, Free, Passes, Without, Removed;
    if events != [] {
      var before := events[..|events| - 1];
      NeverImproper(net, limits, sys, before, k);
      var mid, e := Run(limits, sys, before), events[|events| - 1];
      match e
      case Begin(_) =>
      case Finish(a, _) => WellFormedMeaning(net, a);
      case Delete(name) => WithoutMeaning(mid.dynamic, name);
    }
  }
}
