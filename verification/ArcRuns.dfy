/** ARC over any number of hops: intact chains pass. */
module ArcRuns {
  import opened Text
  import opened Utf8
  import opened Headers
  import opened Chain
  import opened FieldOrder
  import opened Signature
  import opened Scheme
  import opened Ams
  import opened Sealer
  import opened Validation
  import opened Sealing
  import opened ArcHops

  ghost predicate AllPublish(suite: Suite, dns: Dns, hops: seq<Hop>) {
    forall k :: 0 <= k < |hops| ==> Publishes(suite, dns, hops[k].sealer)
  }

  ghost predicate GoodHops(suite: Suite, hops: seq<Hop>) {
    Lawful(suite) && forall k :: 0 <= k < |hops| ==> GoodHop(suite, hops[k]) && AllPublish(suite, hops[k].dns, hops)
  }

  /** One instance per hop, in order. */
  predicate OneEach(suite: Suite, instances: seq<Instance>, hops: seq<Hop>) {
    |instances| == |hops| && forall k :: 0 <= k < |hops| ==> SealedBy(suite, instances[k], hops[k].sealer)
  }

  lemma {:induction false} ForwardSends(suite: Suite, hop: Hop, m: bytes, cv: ChainValidation)
    requires Lawful(suite) && Usable(hop.sealer, hop.results) && HasFrom(m) && |Prior(m)| < MAX_INSTANCE
    requires Validate(suite, hop.dns, m) == Status(cv)
    ensures Forward(suite, hop, m) == Some(Sent(suite, hop, m, cv))
  {
    hide SealMessage, SealedWith, Prior, HasFrom, Validate, ReadInstance, ArcHeaders, Lawful, Usable, Decode, Encode,
      HeaderLines, StartsField, NotBlank, SealedHeaders;
    HopSends(suite, hop, m, cv);
  }

  /** Up to 50 hops from a message with From and no ARC headers: one instance per hop, in order, and it
      validates to pass. */
  lemma {:induction false} ShortRunPasses(suite: Suite, view: Dns, hops: seq<Hop>, m: bytes)
    requires GoodHops(suite, hops) && AllPublish(suite, view, hops) && |hops| <= MAX_INSTANCE
    requires CleanStart(m) && HasFrom(m) && Extract(m) == Absent
    ensures Run(suite, hops, m).Some?
    ensures var out := Run(suite, hops, m).value;
            && (hops != [] ==> StartsField(out)) && CleanStart(out) && HasFrom(out)
            && OneEach(suite, Prior(out), hops)
            && Extract(out) == (if hops == [] then Absent else Chain(Prior(out)))
            && Validate(suite, view, out) == Status(if hops == [] then CvNone else CvPass)
    decreases |hops|
  {
    hide Validate, Extract, HasFrom, SealedBy, Publishes, GoodHop, StartsField, Forward, CleanStart;
    if hops == [] {
      FreshMessage(suite, view, m);
    } else {
      var front, last := hops[..|hops| - 1], hops[|hops| - 1];
      assert GoodHops(suite, front);
      ShortRunPasses(suite, view, front, m);
      ShortRunPasses(suite, last.dns, front, m);
      var mid := Run(suite, front, m).value;
      var cv := if front == [] then CvNone else CvPass;
      RunStep(suite, view, last, mid, cv);
      var out := Run(suite, hops, m).value;
      StartsClean(out);
      forall k | 0 <= k < |hops|
        ensures SealedBy(suite, Prior(out)[k], hops[k].sealer)
      {
        if k < |front| {
          assert front[k] == hops[k] && Prior(out)[k] == Prior(mid)[k];
        }
      }
    }
  }

  lemma {:induction false} FreshMessage(suite: Suite, view: Dns, m: bytes)
    requires Extract(m) == Absent
    ensures Validate(suite, view, m) == Status(CvNone) && Prior(m) == []
  {
  }

  lemma {:induction false} RunStep(suite: Suite, view: Dns, hop: Hop, m: bytes, cv: ChainValidation)
    requires GoodHop(suite, hop) && CleanStart(m) && HasFrom(m) && |Prior(m)| < MAX_INSTANCE && cv != CvFail
    requires Publishes(suite, view, hop.sealer)
    requires Validate(suite, view, m) == Status(cv) && Validate(suite, hop.dns, m) == Status(cv)
    ensures Forward(suite, hop, m).Some?
    ensures var out := Forward(suite, hop, m).value;
            && StartsField(out) && HasFrom(out)
            && Extract(out) == Chain(Prior(out)) && Validate(suite, view, out) == Status(CvPass)
            && |Prior(out)| == |Prior(m)| + 1 && Prior(out)[..|Prior(m)|] == Prior(m)
            && SealedBy(suite, Prior(out)[|Prior(m)|], hop.sealer)
  {
    hide Validate, Extract, HasFrom, SealedBy, Publishes, Forward, Sent, ReadInstance, StartsField, Lawful, Usable,
      NotBlank, FoldOf, ParseSeal;
    ForwardSends(suite, hop, m, cv);
    HopPasses(suite, view, hop, m, cv);
    NewSealReads(suite, hop, m, cv);
    var more := HopKeeps(suite, hop, m, cv);
  }

  /** A full chain is not sealed again: only the hop's other lines are added, and the chain is unchanged. */
  lemma {:induction false} FullChainRefused(suite: Suite, hop: Hop, m: bytes)
    requires PlainExtra(hop.extra) && NoArc(hop.extra) && StartsField(m)
    requires Extract(m).Chain? && |Prior(m)| == 50
    ensures forall cv :: SealMessage(suite, hop.sealer, m, hop.results, Prior(m), cv) == None
    ensures Validate(suite, hop.dns, m) != Crashed ==> Forward(suite, hop, m) == Some(hop.extra + m)
    ensures Extract(hop.extra + m) == Extract(m)
  {
    hide AmsValue, Validate, ArcHeaders;
    PriorNumbered(m);
    NextOfNumbered(Prior(m));
    NoArcInFront(hop.extra, m);
    assert [] + ArcHeaders(m).value == ArcHeaders(m).value;
  }

  // ----- runs of any length -----

  /** The hop with more lines in front of its own. */
  function HopBehind(hop: Hop, p: bytes): Hop {
    hop.(extra := p + hop.extra)
  }

  lemma {:induction false} BehindSent(suite: Suite, hop: Hop, m: bytes, cv: ChainValidation, p: bytes)
    requires HasFrom(m)
    ensures Sent(suite, HopBehind(hop, p), m, cv) == p + Sent(suite, hop, m, cv)
    ensures ReadInstance(suite, HopBehind(hop, p), m, cv) == ReadInstance(suite, hop, m, cv)
  {
    hide HasFrom, Prior, MessageFields, AarTrimmed, AmsTrimmed, SealTrimmed, Encode, FoldOf;
    var block := SealedWith(suite, hop, m, cv);
    assert p + (hop.extra + (block + m)) == (p + hop.extra) + (block + m);
  }

  lemma {:induction false} PrependLines(p: bytes, extra: bytes)
    requires HeaderLines(p) && PlainExtra(extra)
    ensures HeaderLines(p + extra)
  {
    if extra == [] {
      assert p + extra == p;
    } else if p != [] {
      BlankAtPrepend(p, extra);
      var s := p + extra;
      assert s[|s| - 2] == extra[|extra| - 2] && s[|s| - 1] == extra[|extra| - 1];
    } else {
      assert p + extra == extra;
    }
  }

  lemma {:induction false} PlainJoin(a: bytes, b: bytes)
    requires PlainExtra(a) && PlainExtra(b)
    ensures PlainExtra(a + b)
  {
    PrependLines(a, b);
    if a == [] {
      assert a + b == b;
    } else {
      assert (a + b)[0] == a[0] && (a + b)[1] == a[1];
    }
  }

  lemma {:induction false} NoArcJoin(a: bytes, b: bytes)
    requires PlainExtra(a) && NoArc(a) && PlainExtra(b) && NoArc(b)
    ensures PlainExtra(a + b) && NoArc(a + b)
  {
    hide HeaderLines, StartsField, ArcFields, Fields, Decode;
    PlainJoin(a, b);
    if b == [] {
      assert a + b == a;
    } else {
      JoinedFields(a, b);
      var x, y := Fields(Decode(a).value), Fields(Decode(b).value);
      ArcFieldsAppend(x, y);
      assert ArcFields(x).value + ArcFields(y).value == ArcFields(x).value;
    }
  }

  lemma {:induction false} JoinedFields(a: bytes, b: bytes)
    requires HeaderLines(a) && HeaderLines(b) && StartsField(b) && Decode(a).Some? && Decode(b).Some?
    ensures Decode(a + b).Some?
    ensures Fields(Decode(a + b).value) == Fields(Decode(a).value) + Fields(Decode(b).value)
  {
    hide Fields, Decode;
    FieldsPrepend(a, b);
    WholeBlock(b);
    BlankAtPrepend(a, b);
    WholeBlock(a + b);
  }

  lemma {:induction false} WholeBlock(p: bytes)
    ensures BlankAt(p).None? ==> HeaderText(p) == Decode(p)
  {
    hide Decode;
    assert p[..|p|] == p;
  }

  lemma {:induction false} BehindGood(suite: Suite, hop: Hop, p: bytes)
    requires GoodHop(suite, hop) && PlainExtra(p) && NoArc(p)
    ensures GoodHop(suite, HopBehind(hop, p))
  {
    hide Lawful, Usable, PlainExtra, NoArc;
    NoArcJoin(p, hop.extra);
  }

  /** Lines without ARC headers in front of a message that was just sealed leave it passing. */
  lemma {:induction false} BehindPasses(suite: Suite, view: Dns, hop: Hop, m: bytes, cv: ChainValidation, p: bytes)
    requires GoodHop(suite, hop) && CleanStart(m) && HasFrom(m) && |Prior(m)| < MAX_INSTANCE
    requires Publishes(suite, view, hop.sealer) && PlainExtra(p) && NoArc(p)
    requires cv != CvFail && Validate(suite, view, m) == Status(cv)
    ensures var out := p + Sent(suite, hop, m, cv);
            && StartsField(out) && HasFrom(out)
            && Extract(out) == Chain(Prior(m) + [ReadInstance(suite, hop, m, cv)])
            && Validate(suite, view, out) == Status(CvPass)
  {
    hide GoodHop, Publishes, Validate, Extract, HasFrom, Prior, ReadInstance, Sent, StartsField, PlainExtra, NoArc,
      HopBehind, NotBlank, FoldOf;
    BehindGood(suite, hop, p);
    BehindSent(suite, hop, m, cv, p);
    PublishesSame(suite, view, hop, p);
    HopPasses(suite, view, HopBehind(hop, p), m, cv);
    var more := HopKeeps(suite, HopBehind(hop, p), m, cv);
  }

  lemma {:induction false} PublishesSame(suite: Suite, view: Dns, hop: Hop, p: bytes)
    ensures Publishes(suite, view, HopBehind(hop, p).sealer) == Publishes(suite, view, hop.sealer)
  {
  }

  /** From the 50th hop on the message is the one that hop sealed, behind the later hops' other lines. */
  lemma {:induction false} LongRun(suite: Suite, hops: seq<Hop>, m: bytes) returns (p: bytes, mid: bytes)
    requires GoodHops(suite, hops) && |hops| >= MAX_INSTANCE
    requires CleanStart(m) && HasFrom(m) && Extract(m) == Absent
    ensures Run(suite, hops[..MAX_INSTANCE - 1], m) == Some(mid) && HasFrom(mid)
    ensures PlainExtra(p) && NoArc(p)
    ensures Run(suite, hops, m) == Some(p + Sent(suite, hops[MAX_INSTANCE - 1], mid, CvPass))
    decreases |hops|
  {
    hide Validate, Extract, HasFrom, Publishes, GoodHop, StartsField, Forward, Sent, PlainExtra, NoArc, OneEach,
      Prior, CleanStart;
    var front, last := hops[..|hops| - 1], hops[|hops| - 1];
    assert GoodHops(suite, front);
    if |hops| == MAX_INSTANCE {
      assert hops[..MAX_INSTANCE - 1] == front;
      ShortRunPasses(suite, last.dns, front, m);
      mid := Run(suite, front, m).value;
      GoodHopUsable(suite, last);
      ShortLength(suite, front, mid);
      ForwardSends(suite, last, mid, CvPass);
      NothingInFront();
      p := [];
      assert [] + Sent(suite, last, mid, CvPass) == Sent(suite, last, mid, CvPass);
    } else {
      assert front[..MAX_INSTANCE - 1] == hops[..MAX_INSTANCE - 1] && front[MAX_INSTANCE - 1] == hops[MAX_INSTANCE - 1];
      p, mid := LongRun(suite, front, m);
      FiftiethPasses(suite, last.dns, front, m, p, mid);
      var out := p + Sent(suite, hops[MAX_INSTANCE - 1], mid, CvPass);
      GoodHopUsable(suite, last);
      ChainPrior(out);
      ShortLength(suite, front[..MAX_INSTANCE], out);
      FullChainRefused(suite, last, out);
      NoArcJoin(last.extra, p);
      assert last.extra + out == (last.extra + p) + Sent(suite, hops[MAX_INSTANCE - 1], mid, CvPass);
      p := last.extra + p;
    }
  }

  lemma {:induction false} ShortLength(suite: Suite, hops: seq<Hop>, out: bytes)
    requires OneEach(suite, Prior(out), hops)
    ensures |Prior(out)| == |hops|
  {
  }

  lemma {:induction false} GoodHopUsable(suite: Suite, hop: Hop)
    requires GoodHop(suite, hop)
    ensures Lawful(suite) && Usable(hop.sealer, hop.results) && PlainExtra(hop.extra) && NoArc(hop.extra)
  {
  }

  lemma {:induction false} NothingInFront()
    ensures PlainExtra([]) && NoArc([])
  {
    assert Decode([]) == Some("") && Fields("") == [];
  }

  lemma {:induction false} ChainPrior(raw: bytes)
    ensures Extract(raw).Chain? ==> Prior(raw) == Extract(raw).instances
  {
  }

  lemma {:induction false} FiftiethPasses(suite: Suite, view: Dns, hops: seq<Hop>, m: bytes, p: bytes, mid: bytes)
    requires GoodHops(suite, hops) && |hops| >= MAX_INSTANCE && AllPublish(suite, view, hops)
    requires CleanStart(m) && HasFrom(m) && Extract(m) == Absent
    requires Run(suite, hops[..MAX_INSTANCE - 1], m) == Some(mid) && HasFrom(mid) && PlainExtra(p) && NoArc(p)
    ensures var out := p + Sent(suite, hops[MAX_INSTANCE - 1], mid, CvPass);
            && StartsField(out) && HasFrom(out)
            && Extract(out) == Chain(Prior(out)) && OneEach(suite, Prior(out), hops[..MAX_INSTANCE])
            && Validate(suite, view, out) == Status(CvPass)
  {
    hide Validate, Extract, HasFrom, Publishes, GoodHop, StartsField, Sent, PlainExtra, NoArc, Prior, SealedBy,
      ReadInstance, ParseSeal, CleanStart;
    var front, last := hops[..MAX_INSTANCE - 1], hops[MAX_INSTANCE - 1];
    assert GoodHops(suite, front) && AllPublish(suite, view, front);
    ShortRunPasses(suite, view, front, m);
    ShortLength(suite, front, mid);
    BehindPasses(suite, view, last, mid, CvPass, p);
    GoodHopUsable(suite, last);
    NewSealReads(suite, last, mid, CvPass);
    var out := p + Sent(suite, last, mid, CvPass);
    ChainPrior(out);
    forall k | 0 <= k < MAX_INSTANCE
      ensures SealedBy(suite, Prior(out)[k], hops[..MAX_INSTANCE][k].sealer)
    {
      if k < MAX_INSTANCE - 1 {
        assert front[k] == hops[k] && Prior(out)[k] == Prior(mid)[k];
      }
    }
  }

  /** Any run of hops, however long, from a message with From, no ARC headers and a clean start: every hop sends
      on, the result holds one instance for each of the first 50 hops, in order, and validates to pass. */
  lemma {:induction false} RunPasses(suite: Suite, view: Dns, hops: seq<Hop>, m: bytes)
    requires GoodHops(suite, hops) && AllPublish(suite, view, hops)
    requires CleanStart(m) && HasFrom(m) && Extract(m) == Absent
    ensures Run(suite, hops, m).Some?
    ensures var out := Run(suite, hops, m).value;
            && HasFrom(out)
            && OneEach(suite, Prior(out), if |hops| <= 50 then hops else hops[..50])
            && Extract(out) == (if hops == [] then Absent else Chain(Prior(out)))
            && Validate(suite, view, out) == Status(if hops == [] then CvNone else CvPass)
  {
    hide Validate, Extract, HasFrom, GoodHops, AllPublish, StartsField, Run, OneEach, Prior, Sent, PlainExtra, NoArc,
      CleanStart;
    if |hops| <= MAX_INSTANCE {
      ShortRunPasses(suite, view, hops, m);
    } else {
      var p, mid := LongRun(suite, hops, m);
      FiftiethPasses(suite, view, hops, m, p, mid);
    }
  }
}
