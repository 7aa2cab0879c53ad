/** What extraction promises: exactly the complete chains, in any header order. */
module ChainProofs {
  import opened Text
  import opened Bags
  import opened Chain

  predicate Numbered(instances: seq<Instance>) {
    forall k :: 0 <= k < |instances| ==> instances[k].instance == k + 1
  }

  function ValueOf(instance: Instance, kind: Kind): string {
    match kind
    case AuthResults => instance.authResults
    case MessageSignature => instance.messageSignature
    case Seal => instance.seal
  }

  function HeaderOf(instance: Instance, kind: Kind): RawHeader {
    RawHeader(kind, instance.instance, ValueOf(instance, kind))
  }

  /** The three headers of each instance. */
  function HeadersOf(instances: seq<Instance>): seq<RawHeader> {
    if instances == [] then []
    else
      var last := instances[|instances| - 1];
      HeadersOf(instances[..|instances| - 1])
      + [HeaderOf(last, AuthResults), HeaderOf(last, MessageSignature), HeaderOf(last, Seal)]
  }

  predicate SameKey(x: RawHeader, y: RawHeader) {
    x.kind == y.kind && x.instance == y.instance
  }

  /** No two headers share kind and instance. */
  ghost predicate NoDuplicate(hs: seq<RawHeader>) {
    forall i, j :: 0 <= i < j < |hs| ==> !SameKey(hs[i], hs[j])
  }

  ghost predicate NoZero(hs: seq<RawHeader>) {
    forall h :: h in hs ==> h.instance >= 1
  }

  /** The table holds exactly the headers of `hs`. */
  ghost predicate Holds(slots: seq<Slot>, hs: seq<RawHeader>) {
    forall h: RawHeader :: 1 <= h.instance <= |slots| ==>
      (h in hs <==> Get(slots[h.instance - 1], h.kind) == Some(h.value))
  }

  lemma {:induction false} HeadersOfMember(instances: seq<Instance>, h: RawHeader)
    requires Numbered(instances)
    ensures h in HeadersOf(instances) <==>
            1 <= h.instance <= |instances| && h.value == ValueOf(instances[h.instance - 1], h.kind)
  {
    if instances != [] {
      HeadersOfMember(instances[..|instances| - 1], h);
    }
  }

  lemma {:induction false} HeadersOfNoDuplicate(instances: seq<Instance>)
    requires Numbered(instances)
    ensures NoDuplicate(HeadersOf(instances))
  {
    if instances != [] {
      var n := |instances| - 1;
      HeadersOfNoDuplicate(instances[..n]);
      forall h | h in HeadersOf(instances[..n])
        ensures h.instance <= n
      {
        HeadersOfMember(instances[..n], h);
      }
    }
  }

  lemma {:induction false} PutGet(slots: seq<Slot>, h: RawHeader, done: seq<RawHeader>)
    requires Holds(slots, done) && 1 <= h.instance <= |slots|
    requires Get(slots[h.instance - 1], h.kind).None?
    ensures Holds(slots[h.instance - 1 := Put(slots[h.instance - 1], h.kind, h.value)], done + [h])
    ensures forall d :: d in done ==> !SameKey(d, h)
  {
  }

  /** Filling succeeds exactly when no kind and instance repeats, and then holds every header. */
  lemma {:induction false} FillMeaning(slots: seq<Slot>, done: seq<RawHeader>, hs: seq<RawHeader>)
    requires forall h :: h in hs ==> h.instance <= |slots|
    requires NoZero(hs) && NoDuplicate(done) && Holds(slots, done)
    ensures Fill(slots, hs).Full? || Fill(slots, hs).Duplicated?
    ensures Fill(slots, hs).Full? <==> NoDuplicate(done + hs)
    ensures Fill(slots, hs).Full? ==> Holds(Fill(slots, hs).slots, done + hs)
    decreases hs
  {
    if hs == [] {
      assert done + hs == done;
    } else {
      var h := hs[0];
      var slot := slots[h.instance - 1];
      if Get(slot, h.kind).Some? {
        var d := RawHeader(h.kind, h.instance, Get(slot, h.kind).value);
        assert d in done;
        var i :| 0 <= i < |done| && done[i] == d;
        assert SameKey((done + hs)[i], (done + hs)[|done|]);
      } else {
        PutGet(slots, h, done);
        assert done + [h] + hs[1..] == done + hs;
        FillMeaning(slots[h.instance - 1 := Put(slot, h.kind, h.value)], done + [h], hs[1..]);
      }
    }
  }

  ghost predicate FullSlot(slot: Slot, instance: Instance) {
    forall kind :: Get(slot, kind) == Some(ValueOf(instance, kind))
  }

  lemma {:induction false} CollectMeaning(slots: seq<Slot>, k: nat)
    requires k <= |slots|
    ensures Collect(slots, k).Chain? <==>
            forall j, kind :: k <= j < |slots| ==> Get(slots[j], kind).Some?
    ensures Collect(slots, k).Chain? ==>
              var rest := Collect(slots, k).instances;
              && |rest| == |slots| - k
              && forall j :: 0 <= j < |rest| ==> rest[j].instance == k + j + 1 && FullSlot(slots[k + j], rest[j])
    decreases |slots| - k
  {
    if k < |slots| {
      CollectMeaning(slots, k + 1);
      if slots[k].aar.None? {
        assert Get(slots[k], AuthResults).None?;
      } else if slots[k].ams.None? {
        assert Get(slots[k], MessageSignature).None?;
      } else if slots[k].seal.None? {
        assert Get(slots[k], Seal).None?;
      } else if Collect(slots, k).Chain? {
        var rest := Collect(slots, k).instances;
        forall j | 0 <= j < |rest|
          ensures rest[j].instance == k + j + 1 && FullSlot(slots[k + j], rest[j])
        {
          if j > 0 {
            assert rest[j] == Collect(slots, k + 1).instances[j - 1];
            assert slots[k + j] == slots[k + 1 + (j - 1)];
          }
        }
      }
    }
  }

  lemma {:induction false} SameSlot(slot: Slot, a: Instance, b: Instance)
    requires FullSlot(slot, a) && FullSlot(slot, b) && a.instance == b.instance
    ensures a == b
  {
    assert Get(slot, AuthResults) == Some(a.authResults) == Some(b.authResults);
    assert Get(slot, MessageSignature) == Some(a.messageSignature) == Some(b.messageSignature);
    assert Get(slot, Seal) == Some(a.seal) == Some(b.seal);
  }

  /** The filled table of a complete chain, and what is collected from it. */
  lemma {:induction false} SlotsOfChain(slots: seq<Slot>, hs: seq<RawHeader>, instances: seq<Instance>)
    requires Holds(slots, hs) && NoDuplicate(hs) && Numbered(instances) && |slots| == |instances|
    requires forall h :: h in hs <==> h in HeadersOf(instances)
    ensures Collect(slots, 0) == Chain(instances)
  {
    forall j, kind | 0 <= j < |slots|
      ensures Get(slots[j], kind) == Some(ValueOf(instances[j], kind))
    {
      HeadersOfMember(instances, HeaderOf(instances[j], kind));
      assert HeaderOf(instances[j], kind) in hs;
    }
    hide HeadersOf, Holds, NoDuplicate;
    CollectMeaning(slots, 0);
    var got := Collect(slots, 0).instances;
    forall j | 0 <= j < |got|
      ensures got[j] == instances[j]
    {
      assert FullSlot(slots[0 + j], got[j]);
      SameSlot(slots[j], got[j], instances[j]);
    }
    assert got == instances;
  }

  lemma {:induction false} NoDuplicateDistinct(hs: seq<RawHeader>)
    requires NoDuplicate(hs)
    ensures Distinct(hs)
  {
  }

  lemma {:induction false} NoDuplicateBag(a: seq<RawHeader>, b: seq<RawHeader>)
    requires multiset(a) == multiset(b) && NoDuplicate(a)
    ensures NoDuplicate(b)
  {
    forall i, j | 0 <= i < j < |b|
      ensures !SameKey(b[i], b[j])
    {
      PairInBag(b, i, j);
      var k, l := BagPair(a, b[i], b[j]);
    }
  }

  lemma {:induction false} HighestOfChain(hs: seq<RawHeader>, instances: seq<Instance>)
    requires instances != [] && Numbered(instances)
    requires forall h :: h in hs <==> h in HeadersOf(instances)
    ensures hs != [] && Highest(hs) == |instances| && NoZero(hs)
  {
    forall h | h in hs
      ensures 1 <= h.instance <= |instances|
    {
      HeadersOfMember(instances, h);
    }
    var top := HeaderOf(instances[|instances| - 1], Seal);
    HeadersOfMember(instances, top);
    assert top in hs;
  }

  lemma {:induction false} EmptyTableHolds(n: nat)
    ensures Holds(EmptyTable(n), [])
  {
  }

  lemma {:induction false} FillTable(hs: seq<RawHeader>, n: nat)
    requires NoZero(hs) && forall h :: h in hs ==> h.instance <= n
    ensures var filled := Fill(EmptyTable(n), hs);
            && (filled.Full? || filled.Duplicated?)
            && (filled.Full? <==> NoDuplicate(hs))
            && (filled.Full? ==> Holds(filled.slots, hs))
  {
    EmptyTableHolds(n);
    assert [] + hs == hs;
    FillMeaning(EmptyTable(n), [], hs);
  }

  lemma {:induction false} ExtractComplete(hs: seq<RawHeader>, instances: seq<Instance>)
    requires 1 <= |instances| <= MAX_INSTANCE && Numbered(instances)
    requires multiset(hs) == multiset(HeadersOf(instances))
    ensures ExtractHeaders(hs) == Chain(instances)
  {
    SameBagMembers(hs, HeadersOf(instances));
    HighestOfChain(hs, instances);
    HeadersOfNoDuplicate(instances);
    NoDuplicateBag(HeadersOf(instances), hs);
    FillTable(hs, |instances|);
    SlotsOfChain(Fill(EmptyTable(|instances|), hs).slots, hs, instances);
  }

  lemma {:induction false} ChainOfSlots(slots: seq<Slot>, hs: seq<RawHeader>, instances: seq<Instance>, h: RawHeader)
    requires Holds(slots, hs) && Collect(slots, 0) == Chain(instances)
    requires h in hs ==> 1 <= h.instance <= |slots|
    ensures |instances| == |slots| && Numbered(instances)
    ensures h in hs <==> h in HeadersOf(instances)
  {
    CollectMeaning(slots, 0);
    HeadersOfMember(instances, h);
    hide Collect, HeadersOf;
    if 1 <= h.instance <= |slots| {
      assert FullSlot(slots[0 + (h.instance - 1)], instances[h.instance - 1]);
    }
  }

  lemma {:induction false} ExtractSound(hs: seq<RawHeader>, instances: seq<Instance>)
    requires NoZero(hs) && ExtractHeaders(hs) == Chain(instances)
    ensures 1 <= |instances| <= MAX_INSTANCE && Numbered(instances)
    ensures multiset(hs) == multiset(HeadersOf(instances))
  {
    var n := Highest(hs);
    FillTable(hs, n);
    var slots := Fill(EmptyTable(n), hs).slots;
    CollectMeaning(slots, 0);
    assert Numbered(instances);
    forall h
      ensures h in hs <==> h in HeadersOf(instances)
    {
      ChainOfSlots(slots, hs, instances, h);
    }
    HeadersOfNoDuplicate(instances);
    NoDuplicateDistinct(hs);
    NoDuplicateDistinct(HeadersOf(instances));
    SameMembers(hs, HeadersOf(instances));
  }

  lemma {:induction false} FillNoZero(slots: seq<Slot>, hs: seq<RawHeader>)
    requires forall h :: h in hs ==> h.instance <= |slots|
    requires Fill(slots, hs).Full?
    ensures NoZero(hs)
    decreases hs
  {
    if hs != [] {
      var h := hs[0];
      FillNoZero(slots[h.instance - 1 := Put(slots[h.instance - 1], h.kind, h.value)], hs[1..]);
      assert forall x :: x in hs ==> x == h || x in hs[1..];
    }
  }

  /** Extraction yields a chain exactly when the headers are, in some order, the three
      headers of each of the instances 1..N, once each, with N at most 50. */
  lemma {:induction false} ExtractIff(hs: seq<RawHeader>, instances: seq<Instance>)
    ensures ExtractHeaders(hs) == Chain(instances) <==>
            && 1 <= |instances| <= 50
            && Numbered(instances)
            && multiset(hs) == multiset(HeadersOf(instances))
  {
    if ExtractHeaders(hs) == Chain(instances) {
      FillNoZero(EmptyTable(Highest(hs)), hs);
      ExtractSound(hs, instances);
    }
    if 1 <= |instances| <= MAX_INSTANCE && Numbered(instances) && multiset(hs) == multiset(HeadersOf(instances)) {
      ExtractComplete(hs, instances);
    }
  }

  // ----- header order -----

  lemma {:induction false} HighestBag(a: seq<RawHeader>, b: seq<RawHeader>)
    requires multiset(a) == multiset(b)
    ensures Highest(a) == Highest(b)
  {
    SameBagMembers(a, b);
  }

  lemma {:induction false} HoldsSame(s: seq<Slot>, t: seq<Slot>, a: seq<RawHeader>, b: seq<RawHeader>)
    requires |s| == |t| && Holds(s, a) && Holds(t, b)
    requires forall h :: h in a <==> h in b
    ensures s == t
  {
    forall k | 0 <= k < |s|
      ensures s[k] == t[k]
    {
      forall kind: Kind
        ensures Get(s[k], kind) == Get(t[k], kind)
      {
        if Get(s[k], kind).Some? {
          var h := RawHeader(kind, k + 1, Get(s[k], kind).value);
          assert h in a;
        } else if Get(t[k], kind).Some? {
          var h := RawHeader(kind, k + 1, Get(t[k], kind).value);
          assert h in b;
        }
      }
      assert Get(s[k], AuthResults) == s[k].aar && Get(s[k], MessageSignature) == s[k].ams && Get(s[k], Seal)
          == s[k].seal;
      assert Get(t[k], AuthResults) == t[k].aar && Get(t[k], MessageSignature) == t[k].ams && Get(t[k], Seal)
          == t[k].seal;
    }
  }

  /** Two headers with a usable instance number share kind and instance. */
  ghost predicate UsableDuplicate(hs: seq<RawHeader>) {
    exists i, j :: 0 <= i < j < |hs| && SameKey(hs[i], hs[j]) && hs[i].instance >= 1
  }

  ghost predicate InRange(hs: seq<RawHeader>) {
    1 <= Highest(hs) <= 50
  }

  /** The headers for which extraction looks at document order: an `i=0` and a duplicate elsewhere. */
  ghost predicate OrderSensitive(hs: seq<RawHeader>) {
    InRange(hs) && !NoZero(hs) && UsableDuplicate(hs)
  }

  lemma {:induction false} UsableDuplicateBag(a: seq<RawHeader>, b: seq<RawHeader>)
    requires multiset(a) == multiset(b) && UsableDuplicate(a)
    ensures UsableDuplicate(b)
  {
    var i, j :| 0 <= i < j < |a| && SameKey(a[i], a[j]) && a[i].instance >= 1;
    PairInBag(a, i, j);
    var k, l := BagPair(b, a[i], a[j]);
  }

  /** Header `k` is an `i=0`, met before any other zero and before any duplicate. */
  ghost predicate ZeroFirst(done: seq<RawHeader>, hs: seq<RawHeader>, k: int) {
    0 <= k < |hs| && hs[k].instance == 0 && NoZero(hs[..k]) && NoDuplicate(done + hs[..k])
  }

  lemma {:induction false} FillUnderflowIff(slots: seq<Slot>, done: seq<RawHeader>, hs: seq<RawHeader>)
    requires forall h :: h in hs ==> h.instance <= |slots|
    requires NoDuplicate(done) && Holds(slots, done)
    ensures Fill(slots, hs) == Underflow <==> exists k :: ZeroFirst(done, hs, k)
    decreases hs
  {
    hide Holds, NoDuplicate;
    if hs != [] {
      var h := hs[0];
      if h.instance == 0 {
        assert done + hs[..0] == done;
        assert ZeroFirst(done, hs, 0);
      } else {
        var slot := slots[h.instance - 1];
        if Get(slot, h.kind).Some? {
          forall k | ZeroFirst(done, hs, k)
            ensures false
          {
            TakenSlot(slots, done, hs[..k]);
          }
        } else {
          var next := slots[h.instance - 1 := Put(slot, h.kind, h.value)];
          PutGet(slots, h, done);
          PushNew(done, h);
          FillUnderflowIff(next, done + [h], hs[1..]);
          if Fill(slots, hs) == Underflow {
            var k :| ZeroFirst(done + [h], hs[1..], k);
            ZeroFirstShift(done, hs, k);
          } else {
            forall k
              ensures !ZeroFirst(done, hs, k)
            {
              ZeroFirstShift(done, hs, k - 1);
            }
          }
        }
      }
    }
  }

  /** A header whose slot is taken repeats one of those the table holds. */
  lemma {:induction false} TakenSlot(slots: seq<Slot>, done: seq<RawHeader>, hs: seq<RawHeader>)
    requires hs != [] && 1 <= hs[0].instance <= |slots| && Holds(slots, done)
    requires Get(slots[hs[0].instance - 1], hs[0].kind).Some?
    ensures !NoDuplicate(done + hs)
  {
    var h := hs[0];
    var d := RawHeader(h.kind, h.instance, Get(slots[h.instance - 1], h.kind).value);
    assert d in done;
    var i :| 0 <= i < |done| && done[i] == d;
    assert SameKey((done + hs)[i], (done + hs)[|done|]);
  }

  lemma {:induction false} PushNew(done: seq<RawHeader>, h: RawHeader)
    requires NoDuplicate(done) && forall d :: d in done ==> !SameKey(d, h)
    ensures NoDuplicate(done + [h])
  {
  }

  lemma {:induction false} ZeroFirstShift(done: seq<RawHeader>, hs: seq<RawHeader>, k: int)
    requires hs != [] && hs[0].instance != 0
    ensures ZeroFirst(done, hs, k + 1) <==> ZeroFirst(done + [hs[0]], hs[1..], k)
  {
    hide NoDuplicate;
    if 0 <= k < |hs| - 1 {
      assert hs[..k + 1] == [hs[0]] + hs[1..][..k];
      assert done + hs[..k + 1] == done + [hs[0]] + hs[1..][..k];
    }
  }

  /** Extraction panics exactly when the highest number is usable and an `i=0` comes before any duplicate. */
  lemma {:induction false} PanicsIff(hs: seq<RawHeader>)
    ensures ExtractHeaders(hs) == Panics <==> InRange(hs) && exists k :: ZeroFirst([], hs, k)
  {
    hide Fill, Holds, EmptyTable, ZeroFirst;
    if hs != [] && InRange(hs) {
      EmptyTableHolds(Highest(hs));
      FillUnderflowIff(EmptyTable(Highest(hs)), [], hs);
    }
  }

  /** `i=0` beside a usable number makes extraction panic wherever it stands, unless a duplicate lies elsewhere. */
  lemma {:induction false} PanicsOnZero(hs: seq<RawHeader>)
    requires InRange(hs) && !NoZero(hs) && !UsableDuplicate(hs)
    ensures ExtractHeaders(hs) == Panics
  {
    var k := FirstZero(hs);
    assert [] + hs[..k] == hs[..k];
    assert ZeroFirst([], hs, k);
    PanicsIff(hs);
  }

  lemma {:induction false} FirstZero(hs: seq<RawHeader>) returns (k: nat)
    requires !NoZero(hs)
    ensures k < |hs| && hs[k].instance == 0 && NoZero(hs[..k])
  {
    if hs[0].instance == 0 {
      k := 0;
    } else {
      var rest := FirstZero(hs[1..]);
      k := rest + 1;
      assert hs[..k] == [hs[0]] + hs[1..][..rest];
    }
  }

  /** Rearranging the headers changes nothing, not even the kind of error. */
  lemma {:induction false} HeadersAnyOrder(a: seq<RawHeader>, b: seq<RawHeader>)
    requires multiset(a) == multiset(b) && !OrderSensitive(a)
    ensures ExtractHeaders(a) == ExtractHeaders(b)
  {
    SameBagMembers(a, b);
    HighestBag(a, b);
    if a != [] && InRange(a) {
      if NoZero(a) {
        FillAnyOrder(a, b, Highest(a));
      } else {
        PanicsOnZero(a);
        if UsableDuplicate(b) {
          UsableDuplicateBag(b, a);
        }
        PanicsOnZero(b);
      }
    }
  }

  lemma {:induction false} FillAnyOrder(a: seq<RawHeader>, b: seq<RawHeader>, n: nat)
    requires multiset(a) == multiset(b) && NoZero(a)
    requires forall h :: h in a ==> h.instance <= n
    requires forall h :: h in b ==> h.instance <= n
    ensures Fill(EmptyTable(n), a) == Fill(EmptyTable(n), b)
  {
    SameBagMembers(a, b);
    FillTable(a, n);
    FillTable(b, n);
    if NoDuplicate(a) {
      NoDuplicateBag(a, b);
      HoldsSame(Fill(EmptyTable(n), a).slots, Fill(EmptyTable(n), b).slots, a, b);
    } else if NoDuplicate(b) {
      NoDuplicateBag(b, a);
    }
  }

  /** In the excluded case the order does decide: one arrangement panics, another reports a duplicate. */
  lemma {:induction false} OrderDecides(hs: seq<RawHeader>) returns (a: seq<RawHeader>, b: seq<RawHeader>)
    requires OrderSensitive(hs)
    ensures multiset(a) == multiset(hs) == multiset(b)
    ensures ExtractHeaders(a) == Panics
    ensures ExtractHeaders(b) == Broken(Duplicate)
  {
    a := ZeroToFront(hs);
    assert Fill(EmptyTable(Highest(a)), a) == Underflow;
    b := DuplicateToFront(hs);
    DuplicateFirst(b);
  }

  lemma {:induction false} ZeroToFront(hs: seq<RawHeader>) returns (a: seq<RawHeader>)
    requires InRange(hs) && !NoZero(hs)
    ensures multiset(a) == multiset(hs) && InRange(a)
    ensures a != [] && a[0].instance == 0
  {
    var n :| 0 <= n < |hs| && hs[n].instance == 0;
    a := ToFront(hs, n);
    HighestBag(hs, a);
  }

  lemma {:induction false} DuplicateToFront(hs: seq<RawHeader>) returns (b: seq<RawHeader>)
    requires InRange(hs) && UsableDuplicate(hs)
    ensures multiset(b) == multiset(hs) && InRange(b)
    ensures |b| >= 2 && SameKey(b[0], b[1]) && b[0].instance >= 1
  {
    var i, j :| 0 <= i < j < |hs| && SameKey(hs[i], hs[j]) && hs[i].instance >= 1;
    b := PairToFront(hs, i, j);
    HighestBag(hs, b);
  }

  lemma {:induction false} DuplicateFirst(b: seq<RawHeader>)
    requires |b| >= 2 && SameKey(b[0], b[1]) && b[0].instance >= 1 && InRange(b)
    ensures ExtractHeaders(b) == Broken(Duplicate)
  {
    var table := EmptyTable(Highest(b));
    var k := b[0].instance - 1;
    var next := table[k := Put(table[k], b[0].kind, b[0].value)];
    assert Get(next[k], b[1].kind).Some?;
    assert b[1..][0] == b[1];
    assert Fill(next, b[1..]) == Duplicated;
  }
}
