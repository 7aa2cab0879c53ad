/** Which error extraction reports, for every list of ARC headers. */
module ChainErrors {
  import opened Text
  import opened Chain
  import opened ChainProofs

  /** A header of that kind and number is there. */
  ghost predicate Present(hs: seq<RawHeader>, kind: Kind, n: nat) {
    exists h :: h in hs && h.kind == kind && h.instance == n
  }

  ghost predicate Complete(hs: seq<RawHeader>, n: nat) {
    Present(hs, AuthResults, n) && Present(hs, MessageSignature, n) && Present(hs, Seal, n)
  }

  ghost predicate Missing(hs: seq<RawHeader>, n: nat) {
    !Present(hs, AuthResults, n) && !Present(hs, MessageSignature, n) && !Present(hs, Seal, n)
  }

  /** Number `n` is the first without all three headers. */
  ghost predicate FirstGap(hs: seq<RawHeader>, n: nat) {
    && 1 <= n <= Highest(hs) && !Complete(hs, n)
    && forall k :: 1 <= k < n ==> Complete(hs, k)
  }

  lemma {:induction false} HeldPresent(slots: seq<Slot>, hs: seq<RawHeader>, kind: Kind, n: nat)
    requires Holds(slots, hs) && 1 <= n <= |slots|
    ensures Present(hs, kind, n) <==> Get(slots[n - 1], kind).Some?
  {
    if Get(slots[n - 1], kind).Some? {
      assert RawHeader(kind, n, Get(slots[n - 1], kind).value) in hs;
    }
  }

  lemma {:induction false} SlotPresent(slots: seq<Slot>, hs: seq<RawHeader>, n: nat)
    requires Holds(slots, hs) && 1 <= n <= |slots|
    ensures Complete(hs, n) <==> slots[n - 1].aar.Some? && slots[n - 1].ams.Some? && slots[n - 1].seal.Some?
    ensures Missing(hs, n) <==> slots[n - 1] == Slot(None, None, None)
  {
    hide Holds, Present;
    HeldPresent(slots, hs, AuthResults, n);
    HeldPresent(slots, hs, MessageSignature, n);
    HeldPresent(slots, hs, Seal, n);
  }

  /** Reading a table: the first slot that is not full decides. */
  lemma {:induction false} CollectError(slots: seq<Slot>, hs: seq<RawHeader>, k: nat)
    requires Holds(slots, hs) && k <= |slots| && forall j :: 1 <= j <= k ==> Complete(hs, j)
    ensures Collect(slots, k).Chain? ==> forall j :: 1 <= j <= |slots| ==> Complete(hs, j)
    ensures Collect(slots, k).Broken? ==>
              exists n :: 1 <= n <= |slots| && !Complete(hs, n) && (forall j :: 1 <= j < n ==> Complete(hs, j))
                && Collect(slots, k) == Broken(if Missing(hs, n) then NonContiguous else Incomplete)
    decreases |slots| - k
  {
    hide Holds, Complete, Missing;
    if k < |slots| {
      SlotPresent(slots, hs, k + 1);
      if Complete(hs, k + 1) {
        CollectError(slots, hs, k + 1);
      } else {
        assert Collect(slots, k) == Broken(if Missing(hs, k + 1) then NonContiguous else Incomplete);
      }
    }
  }

  /** A duplicate, met before any `i=0`. */
  ghost predicate DuplicateAt(done: seq<RawHeader>, hs: seq<RawHeader>, k: int) {
    && 0 <= k < |hs| && NoZero(hs[..k + 1])
    && exists i :: 0 <= i < |done| + k && SameKey((done + hs)[i], hs[k])
  }

  lemma {:induction false} FillDuplicated(slots: seq<Slot>, done: seq<RawHeader>, hs: seq<RawHeader>)
    requires forall h :: h in hs ==> h.instance <= |slots|
    requires NoDuplicate(done) && Holds(slots, done)
    ensures Fill(slots, hs) == Duplicated ==> exists k :: DuplicateAt(done, hs, k)
    ensures Fill(slots, hs).Full? ==> NoZero(hs) && NoDuplicate(done + hs) && Holds(Fill(slots, hs).slots, done + hs)
    decreases hs
  {
    if hs == [] {
      assert done + hs == done;
    } else {
      var h := hs[0];
      if h.instance > 0 {
        var slot := slots[h.instance - 1];
        if Get(slot, h.kind).Some? {
          var d := RawHeader(h.kind, h.instance, Get(slot, h.kind).value);
          assert d in done;
          var i :| 0 <= i < |done| && done[i] == d;
          assert hs[..1] == [h] && SameKey((done + hs)[i], hs[0]);
          assert DuplicateAt(done, hs, 0);
        } else {
          PutGet(slots, h, done);
          assert done + [h] + hs[1..] == done + hs;
          FillDuplicated(slots[h.instance - 1 := Put(slot, h.kind, h.value)], done + [h], hs[1..]);
          if k :| DuplicateAt(done + [h], hs[1..], k) {
            LaterDuplicate(done, hs, k);
          }
          assert NoZero(hs[1..]) ==> NoZero(hs);
        }
      }
    }
  }

  lemma {:induction false} LaterDuplicate(done: seq<RawHeader>, hs: seq<RawHeader>, k: int)
    requires hs != [] && hs[0].instance > 0 && DuplicateAt(done + [hs[0]], hs[1..], k)
    ensures DuplicateAt(done, hs, k + 1)
  {
    var h, rest := hs[0], hs[1..];
    assert done + [h] + rest == done + hs;
    assert hs[..k + 2] == [h] + rest[..k + 1] && rest[k] == hs[k + 1];
    var i :| 0 <= i < |done + [h]| + k && SameKey((done + [h] + rest)[i], rest[k]);
    assert SameKey((done + hs)[i], hs[k + 1]);
  }

  lemma {:induction false} DuplicateNotFull(hs: seq<RawHeader>, k: int)
    requires NoDuplicate(hs)
    ensures !DuplicateAt([], hs, k)
  {
    assert [] + hs == hs;
  }

  lemma {:induction false} ZeroExcludes(hs: seq<RawHeader>, j: int, k: int)
    requires ZeroFirst([], hs, j)
    ensures !DuplicateAt([], hs, k)
  {
    assert [] + hs == hs && [] + hs[..j] == hs[..j];
    forall i | 0 <= i < k < |hs| && NoZero(hs[..k + 1])
      ensures !SameKey(hs[i], hs[k])
    {
      var first := hs[..k + 1];
      assert forall x :: 0 <= x < |first| ==> first[x] == hs[x] && first[x] in first;
      assert k < j;
      assert hs[..j][i] == hs[i] && hs[..j][k] == hs[k];
    }
  }

  /** Extraction answers, for every list of headers: nothing when there are none; a bad number when all are zero
      or one is over 50; a duplicate when one is met before any `i=0`; and when there is neither, the first number
      that lacks a header decides between a gap (all three lacking) and an incomplete instance. */
  lemma {:induction false} ErrorsExact(hs: seq<RawHeader>)
    ensures ExtractHeaders(hs) == Absent <==> hs == []
    ensures ExtractHeaders(hs) == Broken(BadInstance) <==>
            hs != [] && ((forall h :: h in hs ==> h.instance == 0) || exists h :: h in hs && h.instance > 50)
    ensures ExtractHeaders(hs) == Broken(Duplicate) <==> InRange(hs) && exists k :: DuplicateAt([], hs, k)
    ensures ExtractHeaders(hs) == Broken(NonContiguous) <==>
            InRange(hs) && NoZero(hs) && NoDuplicate(hs) && exists n :: FirstGap(hs, n) && Missing(hs, n)
    ensures ExtractHeaders(hs) == Broken(Incomplete) <==>
            InRange(hs) && NoZero(hs) && NoDuplicate(hs) && exists n :: FirstGap(hs, n) && !Missing(hs, n)
    ensures ExtractHeaders(hs) != Broken(Malformed)
  {
    hide Missing, NoDuplicate, DuplicateAt, ZeroFirst, FirstGap;
    RangeMeaning(hs);
    if InRange(hs) {
      TableOutcome(hs);
    }
  }

  /** What becomes of headers whose numbers are in range. */
  lemma {:induction false} TableOutcome(hs: seq<RawHeader>)
    requires InRange(hs)
    ensures || (ExtractHeaders(hs) == Panics && !NoZero(hs) && forall k :: !DuplicateAt([], hs, k))
            || (ExtractHeaders(hs) == Broken(Duplicate) && !NoDuplicate(hs) && exists k :: DuplicateAt([], hs, k))
            || (NoZero(hs) && NoDuplicate(hs) && (forall k :: !DuplicateAt([], hs, k)) && GapDecides(hs))
  {
    hide Fill, Collect, Holds, NoDuplicate, DuplicateAt, ZeroFirst, EmptyTable, GapDecides;
    var n := Highest(hs);
    var none: seq<RawHeader> := [];
    EmptyTableHolds(n);
    NothingDuplicated();
    FillDuplicated(EmptyTable(n), none, hs);
    FillUnderflowIff(EmptyTable(n), none, hs);
    assert none + hs == hs;
    match Fill(EmptyTable(n), hs)
    case Underflow =>
      ZeroThere(hs);
      var j :| ZeroFirst(none, hs, j);
      forall k
        ensures !DuplicateAt(none, hs, k)
      {
        ZeroExcludes(hs, j, k);
      }
    case Duplicated =>
      var k :| DuplicateAt(none, hs, k);
      if NoDuplicate(hs) {
        DuplicateNotFull(hs, k);
      }
    case Full(slots) =>
      forall k
        ensures !DuplicateAt(none, hs, k)
      {
        DuplicateNotFull(hs, k);
      }
      FullOutcome(hs, slots);
  }

  /** The first gap decides the error, and there is success without one. */
  ghost predicate GapDecides(hs: seq<RawHeader>) {
    && (ExtractHeaders(hs).Chain? || ExtractHeaders(hs) == Broken(NonContiguous) ||
        ExtractHeaders(hs) == Broken(Incomplete))
    && (ExtractHeaders(hs) == Broken(NonContiguous) <==> exists n :: FirstGap(hs, n) && Missing(hs, n))
    && (ExtractHeaders(hs) == Broken(Incomplete) <==> exists n :: FirstGap(hs, n) && !Missing(hs, n))
  }

  lemma {:induction false} FullOutcome(hs: seq<RawHeader>, slots: seq<Slot>)
    requires InRange(hs) && Fill(EmptyTable(Highest(hs)), hs) == Full(slots) && Holds(slots, hs)
    ensures GapDecides(hs)
  {
    hide Fill, Collect, Holds, EmptyTable, Complete, Missing;
    assert ExtractHeaders(hs) == Collect(slots, 0);
    CollectError(slots, hs, 0);
    OneGap(hs);
    if Collect(slots, 0).Broken? {
      var n :| 1 <= n <= |slots| && !Complete(hs, n) && (forall j :: 1 <= j < n ==> Complete(hs, j))
        && Collect(slots, 0) == Broken(if Missing(hs, n) then NonContiguous else Incomplete);
      assert FirstGap(hs, n);
    }
  }

  lemma {:induction false} OneGap(hs: seq<RawHeader>)
    ensures forall m, n :: FirstGap(hs, m) && FirstGap(hs, n) ==> m == n
  {
    hide Complete;
  }

  lemma {:induction false} NothingDuplicated()
    ensures NoDuplicate([])
  {
  }

  lemma {:induction false} ZeroThere(hs: seq<RawHeader>)
    requires exists k :: ZeroFirst([], hs, k)
    ensures !NoZero(hs)
  {
    var k :| ZeroFirst([], hs, k);
    assert hs[k] in hs;
  }

  lemma {:induction false} RangeMeaning(hs: seq<RawHeader>)
    ensures hs != [] ==> (InRange(hs) <==>
              (exists h :: h in hs && h.instance > 0) && forall h :: h in hs ==> h.instance <= 50)
    ensures hs == [] ==> !InRange(hs)
  {
  }
}
