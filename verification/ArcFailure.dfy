/** A recorded ARC failure stays, whatever is put in front of the message later. */
module ArcFailure {
  import opened Text
  import opened Utf8
  import opened Headers
  import opened Chain
  import opened ChainProofs
  import opened FieldOrder
  import opened Signature
  import opened Scheme
  import opened Ams
  import opened Sealer
  import opened Validation
  import opened Built
  import opened Sealing
  import opened ArcHops
  import opened ArcRuns

  /** A seal header that records a `cv` its position does not call for, or cannot be parsed. */
  predicate BadSeal(suite: Suite, h: RawHeader) {
    h.kind == Seal && !CvConsistent(suite, Instance(h.instance, "", "", h.value))
  }

  /** The headers that make extraction panic: the highest number is usable, and an `i=0` comes before any
      duplicate. */
  ghost predicate MeetsZero(raw: bytes) {
    ArcHeaders(raw).Ok? && InRange(ArcHeaders(raw).value) && exists k :: ZeroFirst([], ArcHeaders(raw).value, k)
  }

  /** Validation panics exactly where extraction does. */
  lemma {:induction false} CrashesIff(suite: Suite, view: Dns, raw: bytes)
    ensures Validate(suite, view, raw) == Crashed <==> MeetsZero(raw)
  {
    hide ArcHeaders, ExtractHeaders, ZeroFirst, NewestVerifies, SealVerifies, CvValuesConsistent, HeadersOf;
    if ArcHeaders(raw).Ok? {
      var hs := ArcHeaders(raw).value;
      PanicsIff(hs);
      if ExtractHeaders(hs).Chain? {
        ExtractIff(hs, ExtractHeaders(hs).instances);
      }
    }
  }

  /** Header lines put in front of a bad seal never make the message validate: it fails, except that it
      panics on exactly the headers that make extraction panic. */
  lemma {:induction false} BadSealStays(suite: Suite, view: Dns, p: bytes, m: bytes, h: RawHeader)
    requires HeaderLines(p) && StartsField(m)
    requires ArcHeaders(m).Ok? ==> h in ArcHeaders(m).value && BadSeal(suite, h)
    ensures Validate(suite, view, p + m) == if MeetsZero(p + m) then Crashed else Status(CvFail)
  {
    hide ArcHeaders, ExtractHeaders, ParseSeal, NewestVerifies, SealVerifies, HeadersOf, MeetsZero;
    ArcHeadersPrepend(p, m);
    CrashesIff(suite, view, p + m);
    if ArcHeaders(p + m).Ok? {
      var hs := ArcHeaders(p + m).value;
      assert h in hs;
      CollectNotAbsent(hs);
      if ExtractHeaders(hs).Chain? {
        var chain := ExtractHeaders(hs).instances;
        ExtractIff(hs, chain);
        assert h in multiset(hs);
        HeadersOfMember(chain, h);
        assert !CvConsistent(suite, chain[h.instance - 1]);
      }
    }
  }

  /** Once a hop has sealed with the verdict fail, every message made by prepending header lines,
      whatever they hold, validates to fail, or panics exactly when an `i=0` among its headers calls for it. */
  lemma {:induction false} FailureIsPermanent(suite: Suite, view: Dns, hop: Hop, m: bytes, p: bytes)
    requires Lawful(suite) && Usable(hop.sealer, hop.results) && PlainExtra(hop.extra)
    requires HasFrom(m) && |Prior(m)| < MAX_INSTANCE
    requires Validate(suite, hop.dns, m) == Status(CvFail)
    requires HeaderLines(p)
    ensures Forward(suite, hop, m) == Some(Sent(suite, hop, m, CvFail))
    ensures var late := p + Sent(suite, hop, m, CvFail);
            Validate(suite, view, late) == if MeetsZero(late) then Crashed else Status(CvFail)
  {
    hide SealedWith, Prior, HasFrom, Validate, ReadInstance, ArcHeaders, SealedHeaders, Forward, HeaderLines,
      StartsField, BadSeal, PlainExtra, Lawful, Usable, MeetsZero, Sent, NotBlank, Encode, Decode, SealMessage;
    ForwardSends(suite, hop, m, CvFail);
    HopSends(suite, hop, m, CvFail);
    var block, i := SealedWith(suite, hop, m, CvFail), ReadInstance(suite, hop, m, CvFail);
    FailSealBad(suite, hop, m);
    SealAmong(suite, hop, m, CvFail);
    PrependLines(p, hop.extra);
    SentBehind(suite, hop, m, CvFail, p);
    BadSealStays(suite, view, p + hop.extra, block + m, RawHeader(Seal, i.instance, i.seal));
  }

  /** However the message starts, the new seal is among the headers read. */
  lemma {:induction false} SealAmong(suite: Suite, hop: Hop, m: bytes, cv: ChainValidation)
    requires Lawful(suite) && Usable(hop.sealer, hop.results) && HasFrom(m) && |Prior(m)| < MAX_INSTANCE
    ensures var i := ReadInstance(suite, hop, m, cv);
            var headers := ArcHeaders(SealedWith(suite, hop, m, cv) + m);
            headers.Ok? ==> RawHeader(Seal, i.instance, i.seal) in headers.value
  {
    hide Prior, HasFrom, ArcHeaders, SealedHeaders, HeaderLines, StartsField, Lawful, Usable, Encode, Decode,
      SealMessage, ReadInstance, SealedWith, Joined, NotBlank;
    if NotBlank(m) {
      HopSends(suite, hop, m, cv);
      SealHeaderAmong(ReadInstance(suite, hop, m, cv), ArcHeaders(m));
    } else {
      SealAmongBlank(suite, hop, m, cv);
    }
  }

  lemma {:induction false} SealAmongBlank(suite: Suite, hop: Hop, m: bytes, cv: ChainValidation)
    requires Lawful(suite) && Usable(hop.sealer, hop.results) && HasFrom(m) && |Prior(m)| < MAX_INSTANCE && !NotBlank(m)
    ensures var i := ReadInstance(suite, hop, m, cv);
            var headers := ArcHeaders(SealedWith(suite, hop, m, cv) + m);
            headers.Ok? ==> RawHeader(Seal, i.instance, i.seal) in headers.value
  {
    hide Prior, HasFrom, ArcHeaders, SealedHeaders, Lawful, Usable, Decode, ReadInstance, NewInstance, SealedWith,
      Joined, NotBlank, HeaderText, Body, PlainExtra, NoArc;
    NothingInFront();
    BlankHeaders(suite, hop, m, cv, []);
    var block := SealedWith(suite, hop, m, cv);
    assert [] + (block + m) == block + m;
    var w := NewInstance(suite, hop, m, cv);
    SealFirst(w);
    SameSeal(suite, hop, m, cv);
  }

  lemma {:induction false} SealFirst(i: Instance)
    ensures RawHeader(Seal, i.instance, i.seal) in SealedHeaders(i.instance, i.authResults, i.messageSignature, i.seal)
  {
  }

  lemma {:induction false} SameSeal(suite: Suite, hop: Hop, m: bytes, cv: ChainValidation)
    requires HasFrom(m)
    ensures var w, i := NewInstance(suite, hop, m, cv), ReadInstance(suite, hop, m, cv);
            w.instance == i.instance && w.seal == i.seal && w.messageSignature == i.messageSignature
  {
    hide HasFrom, NewInstance, FoldOf;
  }

  /** Sealing a message that starts with an empty line: the header block ends behind the sealed lines. */
  lemma {:induction false} BlankHeaders(suite: Suite, hop: Hop, m: bytes, cv: ChainValidation, p: bytes)
    requires Lawful(suite) && Usable(hop.sealer, hop.results) && HasFrom(m) && |Prior(m)| < MAX_INSTANCE
    requires !NotBlank(m) && PlainExtra(p) && NoArc(p)
    ensures var i := NewInstance(suite, hop, m, cv);
            var sent := p + (SealedWith(suite, hop, m, cv) + m);
            && ArcHeaders(sent) == Ok(SealedHeaders(i.instance, i.authResults, i.messageSignature, i.seal))
            && HeaderText(sent) == Decode(p + SealedWith(suite, hop, m, cv))
            && Body(sent) == m[2..]
  {
    hide Prior, MessageFields, AmsTrimmed, SealTrimmed, AarTrimmed, SealedFields, SealedHeaders, LinesText, Names,
      Encode, Decode, ArcFields, FieldTexts, Fields, Body, HeaderLines, StartsField, Usable, Lawful, Clean,
      SealMessage, SealAndSignature;
    PriorNumbered(m);
    SealSucceeds(suite, hop.sealer, m, hop.results, Prior(m), cv);
    var aar, ams, seal := SealedShape(suite, hop.sealer, m, hop.results, Prior(m), cv);
    var fs := SealedFields(aar, ams, seal);
    SealedFieldsThree(aar, ams, seal);
    LinesTextReads(fs);
    DecodeEncode(LinesText(fs));
    var block := SealedWith(suite, hop, m, cv);
    JoinExtra(p, block);
    BlockNotEmpty(p, block);
    BlockEndsAtBlank(p + block, m);
    assert p + (block + m) == (p + block) + m;
    JoinedFields(p, block);
    ArcFieldsAppend(Fields(Decode(p).value), Fields(Decode(block).value));
    NothingJoined(SealedHeaders(|Prior(m)| + 1, aar, ams, seal));
  }

  lemma {:induction false} BlockNotEmpty(p: bytes, block: bytes)
    requires StartsField(block)
    ensures p + block != []
  {
  }

  lemma {:induction false} NothingJoined(hs: seq<RawHeader>)
    ensures Joined(Ok([]), Ok(hs)) == Ok(hs)
  {
    assert [] + hs == hs;
  }

  lemma {:induction false} SentBehind(suite: Suite, hop: Hop, m: bytes, cv: ChainValidation, p: bytes)
    requires HasFrom(m)
    ensures p + Sent(suite, hop, m, cv) == (p + hop.extra) + (SealedWith(suite, hop, m, cv) + m)
  {
    hide HasFrom, SealedWith;
  }

  lemma {:induction false} SealHeaderAmong(i: Instance, rest: ArcResult)
    ensures var joined := Joined(Ok(SealedHeaders(i.instance, i.authResults, i.messageSignature, i.seal)), rest);
            joined.Ok? ==> RawHeader(Seal, i.instance, i.seal) in joined.value
  {
  }

  lemma {:induction false} FailSealBad(suite: Suite, hop: Hop, m: bytes)
    requires Lawful(suite) && Usable(hop.sealer, hop.results) && HasFrom(m) && |Prior(m)| < MAX_INSTANCE
    ensures var i := ReadInstance(suite, hop, m, CvFail);
            BadSeal(suite, RawHeader(Seal, i.instance, i.seal))
  {
    hide Prior, HasFrom, ReadInstance, ParseSeal, Lawful, Usable;
    NewSealReads(suite, hop, m, CvFail);
  }

  // ----- failure over whole runs -----

  lemma {:induction false} PlainBlock(block: bytes)
    requires HeaderLines(block) && StartsField(block)
    ensures PlainExtra(block)
  {
  }

  /** A hop only ever puts whole header lines in front of the message. */
  lemma {:induction false} ForwardPrepends(suite: Suite, hop: Hop, m: bytes) returns (p: bytes)
    requires Lawful(suite) && Usable(hop.sealer, hop.results) && PlainExtra(hop.extra)
    requires Forward(suite, hop, m).Some?
    ensures PlainExtra(p) && Forward(suite, hop, m) == Some(p + m)
  {
    hide Prior, HasFrom, Validate, SealMessage, HeaderLines, StartsField, SealedWith, Lawful, Usable, ReadInstance,
      Encode, Decode, ArcHeaders, Joined, SealedHeaders, PlainExtra, NotBlank;
    var cv := Validate(suite, hop.dns, m).cv;
    PriorNumbered(m);
    SealSucceeds(suite, hop.sealer, m, hop.results, Prior(m), cv);
    if SealMessage(suite, hop.sealer, m, hop.results, Prior(m), cv).Some? {
      HopSends(suite, hop, m, cv);
      var block := SealedWith(suite, hop, m, cv);
      PlainBlock(block);
      PlainJoin(hop.extra, block);
      p := hop.extra + block;
      assert hop.extra + (block + m) == (hop.extra + block) + m;
    } else {
      p := hop.extra;
    }
  }

  lemma {:induction false} RunPrepends(suite: Suite, hops: seq<Hop>, m: bytes) returns (p: bytes)
    requires Lawful(suite) && Run(suite, hops, m).Some?
    requires forall k :: 0 <= k < |hops| ==> Usable(hops[k].sealer, hops[k].results) && PlainExtra(hops[k].extra)
    ensures PlainExtra(p) && Run(suite, hops, m) == Some(p + m)
    decreases |hops|
  {
    hide Forward, HeaderLines, StartsField, Usable, Lawful;
    if hops == [] {
      p := [];
      assert HeaderLines(p) by {
        NoLines();
      }
      assert p + m == m;
    } else {
      var last := hops[|hops| - 1];
      var q := RunPrepends(suite, hops[..|hops| - 1], m);
      var r := ForwardPrepends(suite, last, q + m);
      PlainJoin(r, q);
      p := r + q;
      assert r + (q + m) == (r + q) + m;
    }
  }

  lemma {:induction false} NoLines()
    ensures HeaderLines([])
  {
  }

  /** After a hop has sealed with fail, no further hops, however many and whatever they add, end in a message
      that validates to pass or none: it fails, or panics where an `i=0` calls for it. */
  lemma {:induction false} RunKeepsFailure(suite: Suite, view: Dns, hop: Hop, m: bytes, hops: seq<Hop>)
    requires Lawful(suite) && Usable(hop.sealer, hop.results) && PlainExtra(hop.extra)
    requires HasFrom(m) && |Prior(m)| < MAX_INSTANCE
    requires Validate(suite, hop.dns, m) == Status(CvFail)
    requires forall k :: 0 <= k < |hops| ==> Usable(hops[k].sealer, hops[k].results) && PlainExtra(hops[k].extra)
    ensures Forward(suite, hop, m).Some?
    ensures var out := Run(suite, hops, Forward(suite, hop, m).value);
            out.Some? ==> Validate(suite, view, out.value) == if MeetsZero(out.value) then Crashed else Status(CvFail)
  {
    hide Prior, HasFrom, Validate, Forward, Sent, Run, StartsField, HeaderLines, Usable, Lawful, MeetsZero;
    FailureIsPermanent(suite, view, hop, m, []) by {
      NoLines();
    }
    var sent := Sent(suite, hop, m, CvFail);
    if Run(suite, hops, sent).Some? {
      var p := RunPrepends(suite, hops, sent);
      FailureIsPermanent(suite, view, hop, m, p);
    }
  }

  lemma {:induction false} BlockEndsAtBlank(block: bytes, m: bytes)
    requires block != [] && HeaderLines(block) && [13, 10] <= m
    ensures HeaderText(block + m) == Decode(block)
    ensures Body(block + m) == m[2..]
  {
    hide Decode;
    BlankAtEnd(block, m);
    assert (block + m)[..|block|] == block;
    assert (block + m)[|block| + 2..] == m[2..];
  }

  lemma {:induction false} BlankAtEnd(block: bytes, m: bytes)
    requires |block| >= 2 && HeaderLines(block) && [13, 10] <= m
    ensures BlankAt(block + m) == Some(|block| - 2)
    decreases |block|
  {
    var s := block + m;
    if |block| == 2 {
      assert s[..4] == BLANK;
    } else {
      assert s[1..] == block[1..] + m;
      assert |block| == 3 ==> s[..4][2] == 10;
      assert |block| >= 4 ==> s[..4] == block[..4];
      BlankAtEnd(block[1..], m);
    }
  }
}
