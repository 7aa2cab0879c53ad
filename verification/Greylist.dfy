/** Greylisting: which delivery attempts are accepted, over every run of attempts and prunes. */
module Greylist {
  import opened Text

  /** Client address as printed, envelope sender and one recipient. */
  datatype Triplet = Triplet(ip: string, sender: string, recipient: string)

  function Key(t: Triplet): string {
    t.ip + "|" + Lower(t.sender) + "|" + Lower(t.recipient)
  }

  function Age(now: nat, first: nat): nat {
    if now >= first then now - first else 0
  }

  datatype Decision = Defer | Accept

  function Recorded(entries: map<string, nat>, key: string, now: nat): map<string, nat> {
    if key in entries then entries else entries[key := now]
  }

  function Pruned(entries: map<string, nat>, now: nat, maxAge: nat): map<string, nat> {
    map k | k in entries && Age(now, entries[k]) < maxAge :: entries[k]
  }

  function Decided(entries: map<string, nat>, key: string, now: nat, delay: nat): Decision {
    if key in entries && Age(now, entries[key]) >= delay then Accept else Defer
  }

  class MemoryGreylist {
    var entries: map<string, nat>

    constructor ()
      ensures entries == map[]
    {
      entries := map[];
    }

    method FirstSeen(key: string) returns (seen: Option<nat>)
      ensures seen == if key in entries then Some(entries[key]) else None
    {
      seen := if key in entries then Some(entries[key]) else None;
    }

    /** Remembers the first sighting only. */
    method Record(key: string, now: nat)
      modifies this
      ensures entries == Recorded(old(entries), key, now)
    {
      if key !in entries {
        entries := entries[key := now];
      }
    }

    method Prune(now: nat, maxAge: nat)
      modifies this
      ensures entries == Pruned(old(entries), now, maxAge)
    {
      entries := map k | k in entries && Age(now, entries[k]) < maxAge :: entries[k];
    }

    method Decide(t: Triplet, now: nat, delay: nat) returns (decision: Decision)
      modifies this
      ensures decision == Decided(old(entries), Key(t), now, delay)
      ensures entries == Recorded(old(entries), Key(t), now)
    {
      var key := Key(t);
      var seen := FirstSeen(key);
      match seen
      case None =>
        Record(key, now);
        decision := Defer;
      case Some(first) =>
        decision := if Age(now, first) >= delay then Accept else Defer;
    }
  }

  // ----- what a prune drops -----

  /** The entries that are not older than the limit, which is what the documentation says is kept. */
  function Documented(entries: map<string, nat>, now: nat, maxAge: nat): map<string, nat> {
    map k | k in entries && Age(now, entries[k]) <= maxAge :: entries[k]
  }

  /** A prune keeps what is documented exactly when no entry is just as old as the limit. */
  lemma {:induction false} PruneDocumented(entries: map<string, nat>, now: nat, maxAge: nat)
    ensures Pruned(entries, now, maxAge) == Documented(entries, now, maxAge) <==>
            forall k :: k in entries ==> Age(now, entries[k]) != maxAge
  {
    if k :| k in entries && Age(now, entries[k]) == maxAge {
      assert k in Documented(entries, now, maxAge) && k !in Pruned(entries, now, maxAge);
    } else {
      assert forall k :: k in Pruned(entries, now, maxAge) <==> k in Documented(entries, now, maxAge);
    }
  }

  lemma {:induction false} PruneAtLimit()
    ensures Pruned(map["k" := 0], 5, 5) == map[] && Documented(map["k" := 0], 5, 5) == map["k" := 0]
  {
  }

  // ----- what a key identifies -----

  /** The same client, and sender and recipient equal up to the case of ASCII letters. */
  predicate SameTriplet(a: Triplet, b: Triplet) {
    a.ip == b.ip && SameLetters(a.sender, b.sender) && SameLetters(a.recipient, b.recipient)
  }

  /** Such triplets share their key. */
  lemma {:induction false} SameKey(a: Triplet, b: Triplet)
    requires SameTriplet(a, b)
    ensures Key(a) == Key(b)
  {
    hide Lower, SameLetters;
    LowerMeaning(a.sender, b.sender);
    LowerMeaning(a.recipient, b.recipient);
  }

  lemma {:induction false} LowerAround(a: string, b: string)
    ensures Lower(a + "|" + b) == Lower(a) + "|" + Lower(b)
  {
    forall i | 0 <= i < |a + "|" + b|
      ensures Lower(a + "|" + b)[i] == (Lower(a) + "|" + Lower(b))[i]
    {
    }
  }

  lemma {:induction false} Regroup(a: string, b: string, c: string, d: string)
    ensures a + "|" + (b + "|" + c) + "|" + d == a + "|" + b + "|" + (c + "|" + d)
  {
  }

  lemma {:induction false} SplitAtBar(s: string) returns (a: string, b: string)
    requires '|' in s
    ensures s == a + "|" + b
  {
    var i :| 0 <= i < |s| && s[i] == '|';
    a, b := s[..i], s[i + 1..];
  }

  /** A triplet with a `|` in sender or recipient shares its key with a different triplet. */
  lemma {:induction false} OtherWithKey(t: Triplet) returns (u: Triplet)
    requires '|' in t.sender || '|' in t.recipient
    ensures u.ip == t.ip && Key(u) == Key(t) && !SameTriplet(u, t)
  {
    hide Lower;
    if '|' in t.sender {
      var a, b := SplitAtBar(t.sender);
      LowerAround(a, b);
      LowerAround(b, t.recipient);
      Regroup(t.ip, Lower(a), Lower(b), Lower(t.recipient));
      u := Triplet(t.ip, a, b + "|" + t.recipient);
      assert |u.sender| != |t.sender|;
    } else {
      var a, b := SplitAtBar(t.recipient);
      LowerAround(a, b);
      LowerAround(t.sender, a);
      Regroup(t.ip, Lower(t.sender), Lower(a), Lower(b));
      u := Triplet(t.ip, t.sender + "|" + a, b);
      assert |u.sender| != |t.sender|;
    }
  }

  lemma {:induction false} FirstBar(a: string, x: string, b: string, y: string)
    requires '|' !in a && '|' !in b && a + "|" + x == b + "|" + y
    ensures a == b && x == y
  {
    var s, t := a + "|" + x, b + "|" + y;
    assert forall i :: 0 <= i < |a| ==> s[i] == a[i] != '|';
    assert forall i :: 0 <= i < |b| ==> t[i] == b[i] != '|';
    assert s[|a|] == '|' && t[|b|] == '|';
    assert |a| == |b|;
    assert a == s[..|a|] && b == t[..|a|];
    assert x == s[|a| + 1..] && y == t[|a| + 1..];
  }

  lemma {:induction false} LastBar(a: string, x: string, b: string, y: string)
    requires '|' !in a && '|' !in x && a + "|" + x == b + "|" + y
    ensures a == b && x == y
  {
    var s, t := a + "|" + x, b + "|" + y;
    assert forall i :: 0 <= i < |a| ==> s[i] == a[i] != '|';
    assert forall i :: |a| < i < |s| ==> s[i] == x[i - |a| - 1] != '|';
    assert t[|b|] == '|';
    assert |a| == |b|;
    assert a == s[..|a|] && b == t[..|a|];
    assert x == s[|a| + 1..] && y == t[|a| + 1..];
  }

  lemma {:induction false} LowerBar(s: string)
    ensures '|' in Lower(s) <==> '|' in s
  {
    forall i | 0 <= i < |s|
      ensures Lower(s)[i] == '|' <==> s[i] == '|'
    {
    }
    if '|' in s {
      var i :| 0 <= i < |s| && s[i] == '|';
      assert Lower(s)[i] == '|';
    }
  }

  /** A key stands for exactly the triplets that differ in nothing but ASCII case of sender and recipient, if
      and only if neither holds a `|`. A printed address never does. */
  lemma {:induction false} KeyIdentifies(t: Triplet)
    requires '|' !in t.ip
    ensures (forall u: Triplet :: '|' !in u.ip ==> (Key(u) == Key(t) <==> SameTriplet(u, t))) <==>
            '|' !in t.sender && '|' !in t.recipient
  {
    hide Lower, SameLetters, Key;
    forall u: Triplet | SameTriplet(u, t)
      ensures Key(u) == Key(t)
    {
      SameKey(u, t);
    }
    if '|' in t.sender || '|' in t.recipient {
      var u := OtherWithKey(t);
    } else {
      forall u: Triplet | '|' !in u.ip && Key(u) == Key(t)
        ensures SameTriplet(u, t)
      {
        OneTriplet(t, u);
      }
    }
  }

  lemma {:induction false} OneTriplet(t: Triplet, u: Triplet)
    requires '|' !in t.ip && '|' !in t.sender && '|' !in t.recipient
    requires '|' !in u.ip && Key(u) == Key(t)
    ensures SameTriplet(u, t)
  {
    hide Lower;
    LowerBar(t.sender);
    LowerBar(t.recipient);
    var s, r := Lower(t.sender), Lower(t.recipient);
    var s', r' := Lower(u.sender), Lower(u.recipient);
    assert Key(t) == t.ip + "|" + (s + "|" + r);
    assert Key(u) == u.ip + "|" + (s' + "|" + r');
    FirstBar(t.ip, s + "|" + r, u.ip, s' + "|" + r');
    LastBar(s, r, s', r');
    LowerMeaning(u.sender, t.sender);
    LowerMeaning(u.recipient, t.recipient);
  }

  // ----- runs -----

  /** An attempt looks its key up, and records it afterwards when it found nothing; other events may come in
      between. */
  datatype Event = Look(key: string, now: nat) | Record(key: string, now: nat) | Prune(at: nat, maxAge: nat)

  /** The entries after the first `n` events. */
  function Entries(events: seq<Event>, n: nat): map<string, nat>
    requires n <= |events|
  {
    if n == 0 then map[]
    else
      var before := Entries(events, n - 1);
      match events[n - 1]
      case Look(_, _) => before
      case Record(key, now) => Recorded(before, key, now)
      case Prune(at, maxAge) => Pruned(before, at, maxAge)
  }

  /** The attempts that found nothing and have not recorded yet. */
  function Open(events: seq<Event>, n: nat): multiset<(string, nat)>
    requires n <= |events|
  {
    if n == 0 then multiset{}
    else
      var before := Open(events, n - 1);
      match events[n - 1]
      case Look(key, now) => if key in Entries(events, n - 1) then before else before + multiset{(key, now)}
      case Record(key, now) => before - multiset{(key, now)}
      case Prune(_, _) => before
  }

  /** Every record is that of an attempt that found nothing. */
  ghost predicate Orderly(events: seq<Event>) {
    forall n :: 0 <= n < |events| && events[n].Record? ==> (events[n].key, events[n].now) in Open(events, n)
  }

  /** What attempt `i` of a run is told. */
  function Told(events: seq<Event>, delay: nat, i: nat): Decision
    requires i < |events| && events[i].Look?
  {
    Decided(Entries(events, i), events[i].key, events[i].now, delay)
  }

  /** Event `j` records `key`, and no prune between it and event `i` reaches it. */
  predicate Spared(events: seq<Event>, key: string, j: nat, i: nat) {
    && j < i <= |events|
    && events[j].Record? && events[j].key == key
    && forall p :: j < p < i && events[p].Prune? ==> Age(events[p].at, events[j].now) < events[p].maxAge
  }

  /** Event `j` is the first record that still stands at event `i`: it was made when none stood. */
  ghost predicate Standing(events: seq<Event>, key: string, j: nat, i: nat)
    decreases i, 0
  {
    Spared(events, key, j, i) && NoneStanding(events, key, j)
  }

  ghost predicate NoneStanding(events: seq<Event>, key: string, i: nat)
    decreases i, 1
  {
    forall h: nat :: h < i ==> !Standing(events, key, h, i)
  }

  /** The entry a key has, if any. */
  function Entry(events: seq<Event>, key: string, n: nat): Option<nat>
    requires n <= |events|
  {
    if key in Entries(events, n) then Some(Entries(events, n)[key]) else None
  }

  lemma {:induction false} EntryStep(events: seq<Event>, key: string, n: nat)
    requires 0 < n <= |events|
    ensures var before, e := Entry(events, key, n - 1), events[n - 1];
            Entry(events, key, n) ==
            if before.None? then
              (if e.Record? && e.key == key then Some(e.now) else None)
            else if e.Prune? && Age(e.at, before.value) >= e.maxAge then None
            else before
  {
  }

  lemma {:induction false} StandingStep(events: seq<Event>, key: string, j: nat, n: nat)
    requires 0 < n <= |events|
    ensures j < n - 1 ==>
              (Standing(events, key, j, n) <==>
               && Standing(events, key, j, n - 1)
               && (events[n - 1].Prune? ==> Age(events[n - 1].at, events[j].now) < events[n - 1].maxAge))
    ensures j == n - 1 ==>
              (Standing(events, key, j, n) <==>
               && events[j].Record? && events[j].key == key
               && NoneStanding(events, key, j))
    ensures j >= n ==> !Standing(events, key, j, n)
  {
    hide NoneStanding;
    if j < n - 1 {
      assert Spared(events, key, j, n) <==>
        Spared(events, key, j, n - 1) &&
        (events[n - 1].Prune? ==> Age(events[n - 1].at, events[j].now) < events[n - 1].maxAge);
    } else if j == n - 1 {
      assert Spared(events, key, j, n) <==> events[j].Record? && events[j].key == key;
    }
  }

  /** The store holds a time for a key exactly when a first record stands, and then its time. */
  lemma {:induction false} EntriesMeaning(events: seq<Event>, key: string, n: nat)
    requires n <= |events|
    ensures forall j: nat :: Standing(events, key, j, n) ==> Entry(events, key, n) == Some(events[j].now)
    ensures Entry(events, key, n).None? <==> NoneStanding(events, key, n)
    decreases n
  {
    hide Entry, Entries, Standing, Spared;
    if n == 0 {
      NothingAtStart(events, key);
    } else {
      EntriesMeaning(events, key, n - 1);
      EntryStep(events, key, n);
      forall j: nat | Standing(events, key, j, n)
        ensures j < n <= |events| && events[j].Record? && Entry(events, key, n) == Some(events[j].now)
      {
        StandingInRange(events, key, j, n);
        StandingStep(events, key, j, n);
      }
      if Entry(events, key, n - 1).Some? {
        var j: nat :| j < n - 1 && Standing(events, key, j, n - 1);
        StandingInRange(events, key, j, n - 1);
        StandingStep(events, key, j, n);
      } else {
        StandingStep(events, key, n - 1, n);
      }
    }
  }

  lemma {:induction false} StandingInRange(events: seq<Event>, key: string, j: nat, n: nat)
    requires Standing(events, key, j, n)
    ensures j < n <= |events| && events[j].Record? && events[j].key == key
  {
  }

  lemma {:induction false} NothingAtStart(events: seq<Event>, key: string)
    ensures Entry(events, key, 0) == None
    ensures forall j: nat :: !Standing(events, key, j, 0)
    ensures NoneStanding(events, key, 0)
  {
  }

  /** An attempt is accepted exactly when a first record of its key still stands from at least the delay
      before. */
  lemma {:induction false} AcceptIff(events: seq<Event>, delay: nat, i: nat)
    requires i < |events| && events[i].Look?
    ensures Told(events, delay, i) == Accept <==>
            exists j: nat :: Standing(events, events[i].key, j, i) && Age(events[i].now, events[j].now) >= delay
  {
    EntriesMeaning(events, events[i].key, i);
  }

  /** An open attempt looked its key up before and found nothing. */
  lemma {:induction false} OpenLooked(events: seq<Event>, key: string, now: nat, n: nat) returns (h: nat)
    requires n <= |events| && (key, now) in Open(events, n)
    ensures h < n && events[h] == Look(key, now) && key !in Entries(events, h)
  {
    hide Entries;
    if (key, now) in Open(events, n - 1) {
      h := OpenLooked(events, key, now, n - 1);
    } else {
      h := n - 1;
    }
  }

  /** Behind every accept lies an earlier attempt with the same key that was deferred at least the delay
      before, however the look-ups and records of all attempts are interleaved. */
  lemma {:induction false} AcceptAfterDefer(events: seq<Event>, delay: nat, i: nat) returns (h: nat)
    requires Orderly(events) && i < |events| && events[i].Look? && Told(events, delay, i) == Accept
    ensures h < i && events[h].Look? && events[h].key == events[i].key
    ensures Told(events, delay, h) == Defer && Age(events[i].now, events[h].now) >= delay
  {
    hide Entries, Open;
    AcceptIff(events, delay, i);
    var j: nat :| Standing(events, events[i].key, j, i) && Age(events[i].now, events[j].now) >= delay;
    StandingInRange(events, events[i].key, j, i);
    h := OpenLooked(events, events[j].key, events[j].now, j);
  }

  /** A client is accepted on every retry after the delay since its record, if that was the first, as long as
      no prune finds it too old. */
  lemma {:induction false} RetryAccepted(events: seq<Event>, delay: nat, j: nat, i: nat)
    requires j < i < |events| && events[j].Record? && events[i].Look? && events[j].key == events[i].key
    requires events[j].key !in Entries(events, j)
    requires Age(events[i].now, events[j].now) >= delay
    requires forall p :: j < p < i && events[p].Prune? ==> Age(events[p].at, events[j].now) < events[p].maxAge
    ensures Told(events, delay, i) == Accept
  {
    EntriesMeaning(events, events[j].key, j);
    assert Spared(events, events[j].key, j, i);
    assert Standing(events, events[j].key, j, i);
    AcceptIff(events, delay, i);
  }

  lemma {:induction false} StillUnseen(events: seq<Event>, key: string, m: nat, n: nat)
    requires m <= n <= |events| && key !in Entries(events, m)
    requires forall p :: m <= p < n && events[p].Record? ==> events[p].key != key
    ensures key !in Entries(events, n)
    decreases n
  {
    if m < n {
      StillUnseen(events, key, m, n - 1);
    }
  }

  /** A client that found nothing and recorded with no record of the same key in between is accepted on every
      retry after the delay since that attempt, as long as no prune finds it too old. */
  lemma {:induction false} RetryUndisturbed(events: seq<Event>, delay: nat, h: nat, j: nat, i: nat)
    requires h < j < i < |events| && events[h].Look? && events[h].key !in Entries(events, h)
    requires events[j] == Record(events[h].key, events[h].now)
    requires forall p :: h < p < j && events[p].Record? ==> events[p].key != events[h].key
    requires events[i].Look? && events[i].key == events[h].key && Age(events[i].now, events[h].now) >= delay
    requires forall p :: j < p < i && events[p].Prune? ==> Age(events[p].at, events[h].now) < events[p].maxAge
    ensures Told(events, delay, h) == Defer && Told(events, delay, i) == Accept
  {
    StillUnseen(events, events[h].key, h, j);
    RetryAccepted(events, delay, j, i);
  }

  /** The same over triplets: a retry that spells sender or recipient in another case is accepted like any other. */
  lemma {:induction false} RetryOtherCase(events: seq<Event>, delay: nat, h: nat, j: nat, i: nat, t: Triplet,
                                          u: Triplet)
    requires SameTriplet(t, u)
    requires h < j < i < |events| && events[h].Look? && events[h].key == Key(t) && Key(t) !in Entries(events, h)
    requires events[j] == Record(Key(t), events[h].now)
    requires forall p :: h < p < j && events[p].Record? ==> events[p].key != Key(t)
    requires events[i].Look? && events[i].key == Key(u) && events[i].now - events[h].now >= delay
    requires forall p :: j < p < i && events[p].Prune? ==> Age(events[p].at, events[h].now) < events[p].maxAge
    ensures Told(events, delay, h) == Defer && Told(events, delay, i) == Accept
  {
    hide Key, SameTriplet, Entries;
    SameKey(t, u);
    RetryUndisturbed(events, delay, h, j, i);
  }

  /** On a clock that has gone back behind the record an attempt is accepted only if there is no delay. */
  lemma {:induction false} ClockBack(events: seq<Event>, delay: nat, j: nat, i: nat)
    requires i < |events| && events[i].Look? && Standing(events, events[i].key, j, i)
    requires events[i].now <= events[j].now
    ensures Told(events, delay, i) == Accept <==> delay == 0
  {
    EntriesMeaning(events, events[i].key, i);
  }

  /** With a record of the same key in between it need not be: two attempts at 0 and 10 both find nothing, the
      later records first, and a retry at 12 is deferred though 5 have passed since the first. */
  lemma {:induction false} RetryRaced()
    ensures Orderly(RACE) && Told(RACE, 5, 0) == Defer && Told(RACE, 5, 4) == Defer
  {
    hide Entries, Open;
    RaceEntries(RACE);
    RaceOpen(RACE);
  }

  const RACE: seq<Event> := [Look("k", 0), Look("k", 10), Record("k", 10), Record("k", 0), Look("k", 12)]

  lemma {:induction false} RaceEntries(events: seq<Event>)
    requires events == RACE
    ensures Entries(events, 0) == Entries(events, 1) == Entries(events, 2) == map[]
    ensures Entries(events, 3) == Entries(events, 4) == map["k" := 10]
  {
  }

  lemma {:induction false} RaceOpen(events: seq<Event>)
    requires events == RACE
    ensures Open(events, 2) == multiset{("k", 0), ("k", 10)} && Open(events, 3) == multiset{("k", 0)}
  {
    hide Entries;
    RaceEntries(events);
    assert Open(events, 1) == multiset{("k", 0)};
  }

  /** When the clock was read for an event; a record keeps the time of its look-up. */
  function ReadAt(e: Event): Option<nat> {
    match e
    case Look(_, now) => Some(now)
    case Record(_, _) => None
    case Prune(at, _) => Some(at)
  }

  /** On a clock that never goes back and with one age limit, every retry at least the delay and less than the
      limit after a first record's time is accepted. */
  lemma {:induction false} RetryInTime(events: seq<Event>, delay: nat, maxAge: nat, j: nat, i: nat)
    requires forall a, b :: 0 <= a <= b < |events| && ReadAt(events[a]).Some? && ReadAt(events[b]).Some? ==>
               ReadAt(events[a]).value <= ReadAt(events[b]).value
    requires forall p :: 0 <= p < |events| && events[p].Prune? ==> events[p].maxAge == maxAge
    requires j < i < |events| && events[j].Record? && events[i].Look? && events[j].key == events[i].key
    requires events[j].key !in Entries(events, j)
    requires delay <= events[i].now - events[j].now < maxAge
    ensures Told(events, delay, i) == Accept
  {
    hide Told, Entries;
    forall p | j < p < i && events[p].Prune?
      ensures Age(events[p].at, events[j].now) < events[p].maxAge
    {
      assert ReadAt(events[p]).Some? && ReadAt(events[i]).Some?;
    }
    RetryAccepted(events, delay, j, i);
  }

  /** A stored time is never replaced: it stays as it is until a prune drops it. */
  lemma {:induction false} FirstSightingStays(events: seq<Event>, key: string, m: nat, n: nat)
    requires m <= n <= |events|
    requires key in Entries(events, m)
    requires forall p :: m <= p < n && events[p].Prune? ==>
               Age(events[p].at, Entries(events, m)[key]) < events[p].maxAge
    ensures key in Entries(events, n) && Entries(events, n)[key] == Entries(events, m)[key]
    decreases n
  {
    if m < n {
      FirstSightingStays(events, key, m, n - 1);
    }
  }
}
