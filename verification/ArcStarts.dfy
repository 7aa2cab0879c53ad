/** Messages that do not begin with a header field: exactly when sealing them gives an intact chain. */
module ArcStarts {
  import opened Text
  import opened Utf8
  import opened Headers
  import opened Chain
  import opened ChainProofs
  import opened Signature
  import opened Scheme
  import opened Ams
  import opened Seals
  import opened Sealer
  import opened Validation
  import opened Built
  import opened Readback
  import opened Sealing
  import Canon
  import opened ArcHops
  import opened ArcRuns
  import opened ArcFailure

  /** Where signatures bind, a check that passes was made over the text that was signed. */
  lemma {:induction false} CheckedIsSigned(suite: Suite, dns: Dns, sealer: ArcSealer, input: string, checked: string)
    requires Binding(suite) && Publishes(suite, dns, sealer)
    requires CheckSignature(suite, dns, Lower(Compact(sealer.selector)), Lower(Compact(sealer.domain)), checked,
                            suite.sign(sealer.key, Encode(input))) == Pass
    ensures checked == input
  {
    hide Encode, Lower, Compact, FirstKey;
    DecodeEncode(input);
    DecodeEncode(checked);
  }

  lemma {:induction false} Cancel(a: string, x: string, y: string, b: string)
    requires a + x + b == a + y + b
    ensures x == y
  {
    var s, t := a + x + b, a + y + b;
    assert |x| == |y|;
    assert x == s[|a|..|a| + |x|] && y == t[|a|..|a| + |y|];
  }

  lemma {:induction false} ChainVerdict(suite: Suite, view: Dns, raw: bytes)
    requires Extract(raw).Chain? && Prior(raw) != []
    ensures Validate(suite, view, raw) == Status(CvPass) || Validate(suite, view, raw) == Status(CvFail)
  {
    hide Extract, CvValuesConsistent, NewestVerifies, SealVerifies;
  }

  // ----- continuation lines in front -----

  /** Continuation lines with a word in them change what a seal is checked against. */
  lemma {:induction false} ResultsDecide(prior: seq<Instance>, aar: string, fold: string, ams: string, stripped: string)
    requires fold != "" && Canon.IsFws(fold[0]) && Canon.Words(fold) != []
    ensures SealInput(prior, aar + fold, ams, stripped) != SealInput(prior, aar, ams, stripped)
  {
    if SealInput(prior, aar + fold, ams, stripped) == SealInput(prior, aar, ams, stripped) {
      SameInstanceText(prior, aar + fold, aar, ams, stripped);
      SameResults(aar + fold, aar, ams);
      Canon.CollapseMeaning(aar + fold, aar);
      Canon.WordsSplit(aar, fold[0], fold[1..]);
      assert aar + [fold[0]] + fold[1..] == aar + fold;
      MoreWords(Canon.Words(aar), Canon.Words(fold[1..]));
      assert false;
    }
  }

  lemma {:induction false} MoreWords(a: seq<string>, b: seq<string>)
    requires b != []
    ensures a + b != a
  {
    assert |a + b| > |a|;
  }

  lemma {:induction false} SameInstanceText(prior: seq<Instance>, x: string, y: string, ams: string, stripped: string)
    requires SealInput(prior, x, ams, stripped) == SealInput(prior, y, ams, stripped)
    ensures InstanceText(x, ams) == InstanceText(y, ams)
  {
    hide PriorText, InstanceText, Canon.CanonLine;
    Cancel(PriorText(prior), InstanceText(x, ams), InstanceText(y, ams),
           Canon.CanonLine(Canon.Relaxed, SEAL_NAME, stripped));
  }

  lemma {:induction false} SameResults(x: string, y: string, ams: string)
    requires InstanceText(x, ams) == InstanceText(y, ams)
    ensures Canon.Collapse(x) == Canon.Collapse(y)
  {
    hide Canon.Collapse;
    var a, b := Canon.CanonHeader(Canon.Relaxed, AAR_NAME, x), Canon.CanonHeader(Canon.Relaxed, AAR_NAME, y);
    var rest := Canon.CanonHeader(Canon.Relaxed, Seals.AMS_NAME, ams);
    assert "" + a + rest == InstanceText(x, ams) && "" + b + rest == InstanceText(y, ams);
    Cancel("", a, b, rest);
    var name := Lower(AAR_NAME) + ":";
    assert name + Canon.Collapse(x) + CRLF == a && name + Canon.Collapse(y) + CRLF == b;
    Cancel(name, Canon.Collapse(x), Canon.Collapse(y), CRLF);
  }

  lemma {:induction false} FoldedSealFails(suite: Suite, view: Dns, hop: Hop, m: bytes, cv: ChainValidation)
    requires Binding(suite) && GoodHop(suite, hop) && Publishes(suite, view, hop.sealer)
    requires HasFrom(m) && |Prior(m)| < MAX_INSTANCE && Canon.Words(FoldOf(m)) != []
    ensures var i := ReadInstance(suite, hop, m, cv);
            !SealVerifies(suite, view, Prior(m) + [i], i)
  {
    hide Prior, MessageFields, AarTrimmed, AmsTrimmed, ParseSeal, Names, Lawful, Publishes, Binding, PlainExtra,
      NoArc, Encode, CheckSignature, CheckedInput, Sorted, SealInput, StripB, FoldOf, Canon.Words, Trimmed, SealTags,
      OneLine;
    PriorNumbered(m);
    var prior, w, i := Prior(m), NewInstance(suite, hop, m, cv), ReadInstance(suite, hop, m, cv);
    var n := i.instance;
    var input := SealedInput(hop.sealer, n, cv, prior, w.authResults, w.messageSignature);
    var sig := suite.sign(hop.sealer.key, Encode(input));
    SealReads(suite, n, hop.sealer.domain, hop.sealer.selector, cv, sig);
    SealStripped(suite, hop.sealer, n, cv, sig);
    var chain := prior + [i];
    assert Numbered(chain);
    NumberedSorted(chain);
    CheckedUpTo(chain, n, i.seal);
    assert chain[..n - 1] == prior && chain[n - 1] == i;
    FoldOfStarts(m);
    Canon.NoWords();
    ResultsDecide(prior, w.authResults, FoldOf(m), w.messageSignature, StripB(i.seal));
    var checked := CheckedInput(Sorted(chain), n, i.seal);
    if CheckSignature(suite, view, Lower(Compact(hop.sealer.selector)), Lower(Compact(hop.sealer.domain)), checked,
        sig) == Pass {
      CheckedIsSigned(suite, view, hop.sealer, input, checked);
      assert false;
    }
  }

  /** A message that starts with continuation lines that hold a word: its sealed copy never passes. */
  lemma {:induction false} FoldFails(suite: Suite, view: Dns, hop: Hop, m: bytes, cv: ChainValidation)
    requires Binding(suite) && GoodHop(suite, hop) && Publishes(suite, view, hop.sealer)
    requires HasFrom(m) && |Prior(m)| < MAX_INSTANCE && NotBlank(m) && Canon.Words(FoldOf(m)) != []
    requires Validate(suite, view, m) == Status(CvNone) || Validate(suite, view, m) == Status(CvPass)
    ensures Validate(suite, view, Sent(suite, hop, m, cv)) == Status(CvFail)
  {
    hide Binding, GoodHop, Publishes, HasFrom, NotBlank, FoldOf, Canon.Words, Validate, Sent, ReadInstance,
      SealVerifies, Extract, CvValuesConsistent, NewestVerifies;
    HopExtracts(suite, view, hop, m, cv);
    FoldedSealFails(suite, view, hop, m, cv);
    var sent, i := Sent(suite, hop, m, cv), ReadInstance(suite, hop, m, cv);
    ChainPrior(sent);
    assert Prior(sent)[|Prior(m)|] == i;
    PassMeans(suite, view, sent);
    ChainVerdict(suite, view, sent);
  }

  // ----- an empty line in front -----

  predicate Unsigned(fields: seq<Field>) {
    forall i, n :: 0 <= i < |fields| && n in SIGNED_HEADERS ==> !Named(fields[i], n)
  }

  /** Header lines without any of the fields that are signed. */
  predicate NoSigned(p: bytes) {
    Decode(p).Some? && Unsigned(FieldPairs(Fields(Decode(p).value)))
  }

  lemma {:induction false} PickedNothing(fields: seq<Field>, used: seq<bool>, names: seq<string>)
    requires |fields| == |used| && Unsigned(fields) && forall n :: n in names ==> n in SIGNED_HEADERS
    ensures PickedText(Canon.Relaxed, fields, used, names) == ""
    decreases names
  {
    hide Named, Canon.CanonHeader;
    if names != [] {
      assert names[0] in names;
      PickedNothing(fields, used, names[1..]);
    }
  }

  lemma {:induction false} FromPickedText(fields: seq<Field>)
    requires "from" in Names(fields)
    ensures PickedText(Canon.Relaxed, fields, Unused(|fields|), SIGNED_HEADERS) != ""
  {
    hide Named, Canon.CanonHeader, LowestUnused, PickedNames;
    FromPicked(fields);
    var i := LowestUnused(fields, Unused(|fields|), SIGNED_HEADERS[0], |fields|);
    assert SIGNED_HEADERS[0] == "from" && i.Some?;
    PickedFirst(Canon.Relaxed, fields, Unused(|fields|), "from", SIGNED_HEADERS[1..], i.value);
    assert ["from"] + SIGNED_HEADERS[1..] == SIGNED_HEADERS;
  }

  /** The signed text of one field list is not that of a list without signed fields. */
  lemma {:induction false} UnsignedDiffers(fields: seq<Field>, other: seq<Field>, stripped: string)
    requires "from" in Names(fields) && Unsigned(other)
    ensures HashInput(Canon.Relaxed, other, Names(fields), stripped) !=
            HashInput(Canon.Relaxed, fields, SIGNED_HEADERS, stripped)
  {
    hide Unsigned, Canon.CanonLine, PickedText, PickedNames;
    PickedFromNames(fields, Unused(|fields|), SIGNED_HEADERS);
    PickedNothing(other, Unused(|other|), Names(fields));
    FromPickedText(fields);
    var line := Canon.CanonLine(Canon.Relaxed, Ams.AMS_NAME, stripped);
    var text := PickedText(Canon.Relaxed, fields, Unused(|fields|), SIGNED_HEADERS);
    assert |"" + line| < |text + line|;
  }

  lemma {:induction false} ArcNamesUnsigned(kind: Kind, value: string, n: string)
    requires n in SIGNED_HEADERS
    ensures !Named(Field(NameOf(kind), value), n)
  {
    SignedHeadersPlain(n);
    assert Lower(n)[0] == LowerChar(n[0]);
    assert Lower(NameOf(kind))[0] == 'a' by {
      ArcFirst(kind);
    }
  }

  lemma {:induction false} ArcFirst(kind: Kind)
    ensures Lower(NameOf(kind)) != "" && Lower(NameOf(kind))[0] == 'a'
  {
    assert NameOf(kind)[0] == 'A';
  }

  lemma {:induction false} PairOfText(f: Field)
    requires ':' !in f.name && TrimEnd(f.name) == f.name
    ensures FieldPairs([FieldText(f)]) == [f]
  {
    hide TrimEnd, SplitOnce;
    assert FieldText(f) == f.name + [':'] + f.value;
    SplitOnceAppend(f.name, ':', f.value);
    assert [FieldText(f)][1..] == [];
  }

  lemma {:induction false} SealedPairs(aar: string, ams: string, seal: string)
    ensures FieldPairs(FieldTexts(SealedFields(aar, ams, seal))) == SealedFields(aar, ams, seal)
    ensures Unsigned(SealedFields(aar, ams, seal))
  {
    hide NameOf, Named, FieldPairs, FieldText, SIGNED_HEADERS;
    var fs := SealedFields(aar, ams, seal);
    LinesOfThree(fs[0], fs[1], fs[2]);
    NameReads(Seal);
    NameReads(MessageSignature);
    NameReads(AuthResults);
    PairOfText(fs[0]);
    PairOfText(fs[1]);
    PairOfText(fs[2]);
    var a, b, c := FieldText(fs[0]), FieldText(fs[1]), FieldText(fs[2]);
    FieldPairsAppend([b], [c]);
    FieldPairsAppend([a], [b, c]);
    assert [a] + [b, c] == [a, b, c] && [b] + [c] == [b, c];
    forall i, n | 0 <= i < 3 && n in SIGNED_HEADERS
      ensures !Named(fs[i], n)
    {
      ArcNamesUnsigned(if i == 0 then Seal else if i == 1 then MessageSignature else AuthResults, fs[i].value, n);
    }
  }

  lemma {:induction false} UnsignedJoin(a: seq<Field>, b: seq<Field>)
    requires Unsigned(a) && Unsigned(b)
    ensures Unsigned(a + b)
  {
    hide Named;
    forall i, n | 0 <= i < |a + b| && n in SIGNED_HEADERS
      ensures !Named((a + b)[i], n)
    {
      assert i >= |a| ==> (a + b)[i] == b[i - |a|];
    }
  }

  /** Behind an empty first line only the hop's own lines are header, and none of them is signed. */
  lemma {:induction false} BlankFields(suite: Suite, hop: Hop, m: bytes, cv: ChainValidation)
      returns (fields: seq<Field>)
    requires GoodHop(suite, hop) && NoSigned(hop.extra) && HasFrom(m) && |Prior(m)| < MAX_INSTANCE && !NotBlank(m)
    ensures MessageFields(Sent(suite, hop, m, cv)) == Some(fields) && Unsigned(fields)
  {
    hide Prior, MessageFields, AmsTrimmed, SealTrimmed, AarTrimmed, SealedFields, LinesText, Names, Encode, Decode,
      ArcFields, FieldTexts, Fields, Body, HeaderLines, StartsField, Usable, Lawful, Clean, SealMessage,
      SealAndSignature, Unsigned, FieldPairs, NotBlank, SealedHeaders, ArcHeaders, HeaderText;
    PriorNumbered(m);
    SealSucceeds(suite, hop.sealer, m, hop.results, Prior(m), cv);
    var aar, ams, seal := SealedShape(suite, hop.sealer, m, hop.results, Prior(m), cv);
    var fs := SealedFields(aar, ams, seal);
    SealedFieldsThree(aar, ams, seal);
    LinesTextReads(fs);
    DecodeEncode(LinesText(fs));
    var block := SealedWith(suite, hop, m, cv);
    BlankHeaders(suite, hop, m, cv, hop.extra);
    JoinedFields(hop.extra, block);
    SealedPairs(aar, ams, seal);
    var front := FieldPairs(Fields(Decode(hop.extra).value));
    FieldPairsAppend(Fields(Decode(hop.extra).value), Fields(Decode(block).value));
    UnsignedJoin(front, fs);
    fields := front + fs;
    TextFields(Sent(suite, hop, m, cv));
  }

  lemma {:induction false} TextFields(raw: bytes)
    requires HeaderText(raw).Some?
    ensures MessageFields(raw) == Some(FieldPairs(Fields(HeaderText(raw).value)))
  {
  }

  lemma {:induction false} BlankNewestFails(suite: Suite, view: Dns, hop: Hop, m: bytes, cv: ChainValidation)
    requires Binding(suite) && GoodHop(suite, hop) && NoSigned(hop.extra) && Publishes(suite, view, hop.sealer)
    requires HasFrom(m) && Prior(m) == [] && !NotBlank(m)
    ensures !NewestVerifies(suite, view, [NewInstance(suite, hop, m, cv)], Sent(suite, hop, m, cv))
  {
    hide Prior, MessageFields, SealTrimmed, AarTrimmed, AmsTrimmed, Sent, ParseMessageSignature, Names, NotBlank,
      Binding, Publishes, PlainExtra, NoArc, NoSigned, Unsigned, VerifyAms, Lawful, Usable;
    var other := BlankFields(suite, hop, m, cv);
    AmsFails(suite, view, hop.sealer, hop.results, m, Sent(suite, hop, m, cv), other);
  }

  /** The new message signature does not verify on a message without the signed fields. */
  lemma {:induction false} AmsFails(
      suite: Suite, view: Dns, sealer: ArcSealer, results: string, m: bytes, later: bytes, other: seq<Field>)
    requires Binding(suite) && Lawful(suite) && Usable(sealer, results) && Publishes(suite, view, sealer) && HasFrom(m)
    requires MessageFields(later) == Some(other) && Unsigned(other)
    ensures var value := AmsTrimmed(suite, sealer, 1, MessageFields(m).value, m);
            && ParseMessageSignature(suite.decode64, value).Some?
            && VerifyAms(suite, view, ParseMessageSignature(suite.decode64, value).value, value, later) != Pass
  {
    hide MessageFields, Body, ParseMessageSignature, Names, Trimmed, HashInput, StripB, CheckSignature, AmsInput,
      AmsTags, Binding, Publishes, Unsigned, BodyHash, Encode, Lawful, OneLine, Lower, Compact;
    var fields := MessageFields(m).value;
    NamesOfFields(fields);
    PickedPlain(fields);
    var input := AmsInput(suite, sealer, 1, fields, m);
    var sig := suite.sign(sealer.key, Encode(input));
    var value := AmsTrimmed(suite, sealer, 1, fields, m);
    AmsReads(suite, 1, sealer.domain, sealer.selector, Names(fields), BodyHash(suite, m), sig);
    SignedText(suite, sealer, fields, m, results);
    UnsignedDiffers(fields, other, StripB(value));
    var checked := HashInput(Canon.Relaxed, other, Names(fields), StripB(value));
    if CheckSignature(suite, view, Lower(Compact(sealer.selector)), Lower(Compact(sealer.domain)), checked, sig)
        == Pass {
      CheckedIsSigned(suite, view, sealer, input, checked);
      assert false;
    }
  }

  lemma {:induction false} NamesOfFields(fields: seq<Field>)
    ensures Names(fields) == PickedNames(fields, Unused(|fields|), SIGNED_HEADERS)
  {
  }

  lemma {:induction false} SignedText(suite: Suite, sealer: ArcSealer, fields: seq<Field>, raw: bytes, results: string)
    requires Lawful(suite) && Usable(sealer, results) && "from" in Names(fields)
    ensures AmsInput(suite, sealer, 1, fields, raw) ==
            HashInput(Canon.Relaxed, fields, SIGNED_HEADERS, StripB(AmsTrimmed(suite, sealer, 1, fields, raw)))
  {
    hide Trimmed, HashInput, StripB, AmsTags, AmsTrimmed, BodyHash, Lawful, Usable, Names;
    AmsStripped(suite, sealer, 1, fields, raw, results);
  }

  /** A message that starts with an empty line: its sealed copy never passes. */
  lemma {:induction false} BlankFails(suite: Suite, view: Dns, hop: Hop, m: bytes, cv: ChainValidation)
    requires GoodHop(suite, hop) && NoSigned(hop.extra) && Publishes(suite, view, hop.sealer)
    requires HasFrom(m) && |Prior(m)| < MAX_INSTANCE && !NotBlank(m) && (Binding(suite) || Prior(m) != [])
    ensures Validate(suite, view, Sent(suite, hop, m, cv)) == Status(CvFail)
  {
    hide Prior, HasFrom, SealedHeaders, ExtractHeaders, CvValuesConsistent, NewestVerifies, SealVerifies, NotBlank,
      Binding, Lawful, Usable, PlainExtra, NoArc, NoSigned, Publishes, NewInstance, SealedWith, ArcHeaders,
      HeaderText, Body;
    PriorNumbered(m);
    var sent, i := Sent(suite, hop, m, cv), NewInstance(suite, hop, m, cv);
    BlankHeaders(suite, hop, m, cv, hop.extra);
    WrittenNumber(suite, hop, m, cv);
    OneSealed(i.instance, i.authResults, i.messageSignature, i.seal);
    if Prior(m) == [] {
      BlankNewestFails(suite, view, hop, m, cv);
      assert i == Instance(1, i.authResults, i.messageSignature, i.seal);
    }
  }

  lemma {:induction false} WrittenNumber(suite: Suite, hop: Hop, m: bytes, cv: ChainValidation)
    requires HasFrom(m)
    ensures NewInstance(suite, hop, m, cv).instance == |Prior(m)| + 1
  {
  }

  lemma {:induction false} OneSealed(n: nat, aar: string, ams: string, seal: string)
    requires 1 <= n <= MAX_INSTANCE
    ensures ExtractHeaders(SealedHeaders(n, aar, ams, seal)) ==
            if n == 1 then Chain([Instance(1, aar, ams, seal)]) else Broken(NonContiguous)
  {
    var hs := SealedHeaders(n, aar, ams, seal);
    hide ExtractHeaders, HeadersOf;
    if n == 1 {
      ChainGrows([], [], Instance(1, aar, ams, seal));
      assert hs + [] == hs;
    } else {
      GapAtOne(hs, n);
    }
  }

  lemma {:induction false} HeldHeader(slots: seq<Slot>, hs: seq<RawHeader>, kind: Kind)
    requires slots != [] && Holds(slots, hs) && Get(slots[0], kind).Some?
    ensures RawHeader(kind, 1, Get(slots[0], kind).value) in hs
  {
  }

  lemma {:induction false} GapAtOne(hs: seq<RawHeader>, n: nat)
    requires 2 <= n <= MAX_INSTANCE && hs != [] && NoDuplicate(hs) && forall h :: h in hs ==> h.instance == n
    ensures ExtractHeaders(hs) == Broken(NonContiguous)
  {
    FillTable(hs, n);
    var slots := Fill(EmptyTable(n), hs).slots;
    assert Highest(hs) == n by {
      assert hs[0] in hs;
    }
    forall kind: Kind
      ensures Get(slots[0], kind).None?
    {
      if Get(slots[0], kind).Some? {
        HeldHeader(slots, hs, kind);
        assert false;
      }
    }
    assert slots[0] == Slot(Get(slots[0], AuthResults), Get(slots[0], MessageSignature), Get(slots[0], Seal));
  }

  // ----- exactly -----

  /** Where signatures bind: sealing an intact message with its own verdict gives an intact message exactly when
      the message has a clean start, and one that fails otherwise. */
  lemma {:induction false} HopExact(suite: Suite, view: Dns, hop: Hop, m: bytes, cv: ChainValidation)
    requires Binding(suite) && GoodHop(suite, hop) && NoSigned(hop.extra) && Publishes(suite, view, hop.sealer)
    requires HasFrom(m) && |Prior(m)| < MAX_INSTANCE && cv != CvFail && Validate(suite, view, m) == Status(cv)
    ensures Validate(suite, view, Sent(suite, hop, m, cv)) == Status(if CleanStart(m) then CvPass else CvFail)
  {
    hide Binding, GoodHop, NoSigned, Publishes, HasFrom, Prior, Validate, Sent, NotBlank, FoldOf, Canon.Words;
    if CleanStart(m) {
      HopPasses(suite, view, hop, m, cv);
    } else if NotBlank(m) {
      FoldFails(suite, view, hop, m, cv);
    } else {
      BlankFails(suite, view, hop, m, cv);
    }
  }

  // ----- over whole runs -----

  lemma {:induction false} RunSplit(suite: Suite, first: Hop, rest: seq<Hop>, m: bytes)
    ensures Run(suite, [first] + rest, m) ==
            match Forward(suite, first, m) case None => None case Some(mid) => Run(suite, rest, mid)
    decreases |rest|
  {
    hide Forward;
    var hops := [first] + rest;
    if rest == [] {
      assert hops[..|hops| - 1] == [];
    } else {
      RunSplit(suite, first, rest[..|rest| - 1], m);
      assert hops[..|hops| - 1] == [first] + rest[..|rest| - 1];
    }
  }

  lemma {:induction false} NoSignedJoin(a: bytes, b: bytes)
    requires PlainExtra(a) && NoSigned(a) && PlainExtra(b) && NoSigned(b)
    ensures NoSigned(a + b)
  {
    hide HeaderLines, StartsField, Fields, Decode, FieldPairs, Unsigned;
    if b == [] {
      assert a + b == a;
    } else {
      JoinedFields(a, b);
      FieldPairsAppend(Fields(Decode(a).value), Fields(Decode(b).value));
      UnsignedJoin(FieldPairs(Fields(Decode(a).value)), FieldPairs(Fields(Decode(b).value)));
    }
  }

  lemma {:induction false} NothingSigned()
    ensures NoSigned([])
  {
    assert Decode([]) == Some("") && Fields("") == [];
  }

  lemma {:induction false} UnsignedNoFrom(raw: bytes, fields: seq<Field>)
    requires MessageFields(raw) == Some(fields) && Unsigned(fields)
    ensures !HasFrom(raw)
  {
    hide MessageFields, Names;
    FromPicked(fields);
    assert "from" in SIGNED_HEADERS;
  }

  /** The hop behind more lines is as good, and what it sends is the same behind them. */
  lemma {:induction false} BehindBlank(suite: Suite, view: Dns, hop: Hop, m: bytes, cv: ChainValidation, q: bytes)
    requires Binding(suite) && GoodHop(suite, hop) && NoSigned(hop.extra) && Publishes(suite, view, hop.sealer)
    requires HasFrom(m) && |Prior(m)| < MAX_INSTANCE && !NotBlank(m)
    requires PlainExtra(q) && NoArc(q) && NoSigned(q)
    ensures Validate(suite, view, q + Sent(suite, hop, m, cv)) == Status(CvFail)
    ensures !HasFrom(q + Sent(suite, hop, m, cv))
  {
    hide Binding, NoSigned, Publishes, HasFrom, Prior, Validate, Sent, NotBlank, PlainExtra, NoArc, Lawful, Usable,
      ReadInstance, MessageFields, Unsigned;
    BehindGood(suite, hop, q);
    NoSignedJoin(q, hop.extra);
    BehindSent(suite, hop, m, cv, q);
    PublishesSame(suite, view, hop, q);
    BlankFails(suite, view, HopBehind(hop, q), m, cv);
    var fields := BlankFields(suite, HopBehind(hop, q), m, cv);
    UnsignedNoFrom(q + Sent(suite, hop, m, cv), fields);
  }

  ghost predicate NoneSigned(hops: seq<Hop>) {
    forall k :: 0 <= k < |hops| ==> NoSigned(hops[k].extra)
  }

  lemma {:induction false} NoFromNoSeal(suite: Suite, hop: Hop, m: bytes)
    requires !HasFrom(m) && Validate(suite, hop.dns, m) == Status(CvFail)
    ensures Forward(suite, hop, m) == Some(hop.extra + m)
  {
    hide HasFrom, Validate, Prior, SealMessage;
    PriorNumbered(m);
    SealSucceeds(suite, hop.sealer, m, hop.results, Prior(m), CvFail);
  }

  /** Behind an empty first line the later hops find no From and only add their other lines. */
  lemma {:induction false} BlankRun(suite: Suite, hops: seq<Hop>, m: bytes) returns (q: bytes)
    requires Binding(suite) && hops != [] && GoodHops(suite, hops) && NoneSigned(hops)
    requires HasFrom(m) && Extract(m) == Absent && !NotBlank(m)
    ensures PlainExtra(q) && NoArc(q) && NoSigned(q)
    ensures Run(suite, hops, m) == Some(q + Sent(suite, hops[0], m, CvNone))
    decreases |hops|
  {
    hide Binding, NoSigned, Publishes, HasFrom, Prior, Validate, Sent, NotBlank, PlainExtra, NoArc, GoodHop, Forward,
      Extract;
    var front, last := hops[..|hops| - 1], hops[|hops| - 1];
    FreshMessage(suite, hops[0].dns, m);
    GoodHopUsable(suite, hops[0]);
    GoodHopUsable(suite, last);
    if |hops| == 1 {
      ForwardSends(suite, last, m, CvNone);
      NothingInFront();
      NothingSigned();
      q := [];
      assert front == [];
      assert [] + Sent(suite, last, m, CvNone) == Sent(suite, last, m, CvNone);
    } else {
      assert GoodHops(suite, front) && NoneSigned(front) && front[0] == hops[0];
      q := BlankRun(suite, front, m);
      var sent := Sent(suite, hops[0], m, CvNone);
      BehindBlank(suite, last.dns, hops[0], m, CvNone, q);
      NoFromNoSeal(suite, last, q + sent);
      NoArcJoin(last.extra, q);
      NoSignedJoin(last.extra, q);
      assert last.extra + (q + sent) == (last.extra + q) + sent;
      q := last.extra + q;
    }
  }

  lemma {:induction false} BlankRunFails(suite: Suite, view: Dns, hops: seq<Hop>, m: bytes)
    requires Binding(suite) && hops != [] && GoodHops(suite, hops) && AllPublish(suite, view, hops) && NoneSigned(hops)
    requires HasFrom(m) && Extract(m) == Absent && !NotBlank(m)
    ensures Run(suite, hops, m).Some? && Validate(suite, view, Run(suite, hops, m).value) == Status(CvFail)
  {
    hide Binding, NoSigned, Publishes, HasFrom, Prior, Validate, Sent, NotBlank, PlainExtra, NoArc, GoodHop, Run,
      Extract;
    var q := BlankRun(suite, hops, m);
    FreshMessage(suite, view, m);
    BehindBlank(suite, view, hops[0], m, CvNone, q);
  }

  lemma {:induction false} FoldRunFails(suite: Suite, view: Dns, hops: seq<Hop>, m: bytes)
    requires Binding(suite) && hops != [] && GoodHops(suite, hops) && AllPublish(suite, view, hops)
    requires HasFrom(m) && Extract(m) == Absent && NotBlank(m) && !CleanStart(m)
    ensures Run(suite, hops, m).Some? ==> Validate(suite, view, Run(suite, hops, m).value) != Status(CvPass)
  {
    hide Binding, Publishes, HasFrom, Validate, Sent, NotBlank, FoldOf, GoodHop, Run, Extract, Forward, PlainExtra,
      NoArc, Lawful, Usable, MeetsZero, ReadInstance, StartsField, Canon.Words;
    var first, rest := hops[0], hops[1..];
    assert hops == [first] + rest;
    FreshMessage(suite, first.dns, m);
    FreshMessage(suite, view, m);
    GoodHopUsable(suite, first);
    ForwardSends(suite, first, m, CvNone);
    RunSplit(suite, first, rest, m);
    var mid := Sent(suite, first, m, CvNone);
    if rest == [] {
      NoHops(suite, mid);
      FoldFails(suite, view, first, m, CvNone);
    } else {
      var next, more := rest[0], rest[1..];
      assert rest == [next] + more && next == hops[1];
      FreshMessage(suite, next.dns, m);
      FoldFails(suite, next.dns, first, m, CvNone);
      HopExtracts(suite, view, first, m, CvNone);
      ChainPrior(mid);
      var kept := HopKeeps(suite, first, m, CvNone);
      RunSplit(suite, next, more, mid);
      forall k | 0 <= k < |more|
        ensures Usable(more[k].sealer, more[k].results) && PlainExtra(more[k].extra)
      {
        assert more[k] == hops[k + 2];
        GoodHopUsable(suite, hops[k + 2]);
      }
      GoodHopUsable(suite, next);
      RunKeepsFailure(suite, view, next, mid, more);
    }
  }

  lemma {:induction false} NoHops(suite: Suite, m: bytes)
    ensures Run(suite, [], m) == Some(m)
  {
  }

  /** Where signatures bind: a run of hops from a message with From and no ARC headers, however long, ends in a
      message that validates to pass exactly when the first one had a clean start. */
  lemma {:induction false} RunExact(suite: Suite, view: Dns, hops: seq<Hop>, m: bytes)
    requires Binding(suite) && hops != [] && GoodHops(suite, hops) && AllPublish(suite, view, hops) && NoneSigned(hops)
    requires HasFrom(m) && Extract(m) == Absent
    ensures (Run(suite, hops, m).Some? && Validate(suite, view, Run(suite, hops, m).value) == Status(CvPass)) <==>
            CleanStart(m)
  {
    hide Binding, GoodHops, AllPublish, NoneSigned, HasFrom, Extract, Run, Validate, NotBlank, FoldOf, Canon.Words,
      OneEach, Prior;
    if CleanStart(m) {
      RunPasses(suite, view, hops, m);
    } else if NotBlank(m) {
      FoldRunFails(suite, view, hops, m);
    } else {
      BlankRunFails(suite, view, hops, m);
    }
  }
}
