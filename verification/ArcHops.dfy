/** One ARC hop: what it puts in front of a message, and that an intact chain stays intact. */
module ArcHops {
  import opened Text
  import opened Utf8
  import opened Headers
  import Canon
  import opened Chain
  import opened ChainProofs
  import opened FieldOrder
  import opened Signature
  import opened Scheme
  import opened Ams
  import opened Seals
  import opened Sealer
  import opened Validation
  import opened Built
  import opened Readback
  import opened Sealing
  import opened TagNumber

  /** One receiving host: its resolver, its sealer, the results it records and the other header lines it adds. */
  datatype Hop = Hop(dns: Dns, sealer: ArcSealer, results: string, extra: bytes)

  function Prior(raw: bytes): seq<Instance> {
    match Extract(raw)
    case Chain(instances) => instances
    case _ => []
  }

  /** Validate, seal with the verdict, and prepend; nothing when validation panics. */
  function Forward(suite: Suite, hop: Hop, raw: bytes): Option<bytes> {
    match Validate(suite, hop.dns, raw)
    case Crashed => None
    case Status(cv) =>
      match SealMessage(suite, hop.sealer, raw, hop.results, Prior(raw), cv)
      case None => Some(hop.extra + raw)
      case Some(text) => Some(hop.extra + (Encode(text) + raw))
  }

  function Run(suite: Suite, hops: seq<Hop>, raw: bytes): Option<bytes> {
    if hops == [] then Some(raw)
    else
      match Run(suite, hops[..|hops| - 1], raw)
      case None => None
      case Some(m) => Forward(suite, hops[|hops| - 1], m)
  }

  /** The other header lines of a hop: whole lines that start with a field. */
  predicate PlainExtra(extra: bytes) {
    HeaderLines(extra) && (extra == [] || StartsField(extra))
  }

  /** ... and that hold no ARC header. */
  predicate NoArc(extra: bytes) {
    Decode(extra).Some? && ArcFields(Fields(Decode(extra).value)) == Ok([])
  }

  predicate HasFrom(raw: bytes) {
    MessageFields(raw).Some? && "from" in Names(MessageFields(raw).value)
  }

  // ----- how a message starts -----

  /** The continuation lines a message starts with. */
  function FoldOf(m: bytes): string {
    match HeaderText(m)
    case None => ""
    case Some(block) => Fold(block)
  }

  predicate NotBlank(m: bytes) {
    !([13, 10] <= m)
  }

  /** No empty first line, and no continuation lines in front of the first field but blank ones. */
  predicate CleanStart(m: bytes) {
    NotBlank(m) && Canon.Words(FoldOf(m)) == []
  }

  lemma {:induction false} StartsClean(m: bytes)
    requires StartsField(m)
    ensures CleanStart(m) && FoldOf(m) == ""
  {
    hide Decode;
    if HeaderText(m).Some? {
      assert m[..HeaderEnd(m)] != [];
      DecodeFirst(m[..HeaderEnd(m)]);
      var block := HeaderText(m).value;
      assert Lines(block) == [] || !Folded(Lines(block)[0]);
    }
    Canon.NoWords();
  }

  // ----- the sealed block -----

  function SealedFields(aar: string, ams: string, seal: string): seq<Field> {
    [Field(NameOf(Seal), " " + seal), Field(NameOf(MessageSignature), " " + ams), Field(NameOf(AuthResults), " " + aar)]
  }

  function SealedHeaders(n: nat, aar: string, ams: string, seal: string): seq<RawHeader> {
    [RawHeader(Seal, n, seal), RawHeader(MessageSignature, n, ams), RawHeader(AuthResults, n, aar)]
  }

  lemma {:induction false} NextOfNumbered(prior: seq<Instance>)
    requires Numbered(prior)
    ensures HighestInstance(prior) == |prior|
    ensures NextInstance(prior) == if |prior| < MAX_INSTANCE then Some(|prior| + 1) else None
  {
    if prior != [] {
      NextOfNumbered(prior[..|prior| - 1]);
    }
  }

  lemma {:induction false} PriorNumbered(raw: bytes)
    ensures Numbered(Prior(raw)) && |Prior(raw)| <= MAX_INSTANCE
  {
    if Extract(raw).Chain? {
      ExtractIff(ArcHeaders(raw).value, Prior(raw));
    }
  }

  function AarTrimmed(sealer: ArcSealer, n: nat, results: string): string {
    Numbering(n, " " + sealer.domain + "; " + results)
  }

  lemma {:induction false} AarShape(sealer: ArcSealer, n: nat, results: string)
    requires Usable(sealer, results)
    ensures AarValue(n, sealer.domain, results) == " " + AarTrimmed(sealer, n, results)
    ensures OneLine(" " + AarTrimmed(sealer, n, results))
  {
    DecimalPlain(n);
    hide Decimal;
    assert "; " == ";" + " ";
  }

  lemma {:induction false} LinesOfThree(a: Field, b: Field, c: Field)
    ensures LinesText([a, b, c]) == HeaderLine(a.name, a.value) + HeaderLine(b.name, b.value)
        + HeaderLine(c.name, c.value)
    ensures FieldTexts([a, b, c]) == [FieldText(a), FieldText(b), FieldText(c)]
  {
    hide HeaderLine, FieldText;
    assert [a, b, c][1..] == [b, c] && [b, c][1..] == [c] && [c][1..] == [];
    assert LinesText([c]) == HeaderLine(c.name, c.value) + "";
    assert LinesText([b, c]) == HeaderLine(b.name, b.value) + LinesText([c]);
    assert FieldTexts([c]) == [FieldText(c)];
    assert FieldTexts([b, c]) == [FieldText(b)] + FieldTexts([c]);
  }

  lemma {:induction false} SealedFieldsClean(aar: string, ams: string, seal: string)
    requires OneLine(" " + aar) && OneLine(" " + ams) && OneLine(" " + seal)
    ensures forall i :: 0 <= i < 3 ==> Clean(SealedFields(aar, ams, seal)[i])
  {
    hide NameOf;
    NameReads(Seal);
    NameReads(MessageSignature);
    NameReads(AuthResults);
  }

  lemma {:induction false} SealedFieldsRead(n: nat, t1: string, t2: string, t3: string)
    requires n <= MAX_U32
    ensures ArcFields(FieldTexts(SealedFields(Numbering(n, t1), Numbering(n, t2), Numbering(n, t3))))
            == Ok(SealedHeaders(n, Numbering(n, t1), Numbering(n, t2), Numbering(n, t3)))
  {
    hide NameOf, Numbering, FieldText, PushArc;
    PushBuilt(AuthResults, n, t1);
    PushBuilt(MessageSignature, n, t2);
    PushBuilt(Seal, n, t3);
    var fs := SealedFields(Numbering(n, t1), Numbering(n, t2), Numbering(n, t3));
    LinesOfThree(fs[0], fs[1], fs[2]);
    var a, b, c := FieldText(fs[0]), FieldText(fs[1]), FieldText(fs[2]);
    assert [a, b, c][1..] == [b, c] && [b, c][1..] == [c] && [c][1..] == [];
    var hs := SealedHeaders(n, Numbering(n, t1), Numbering(n, t2), Numbering(n, t3));
    assert [hs[2]] + [] == hs[2..];
    assert ArcFields([c]) == Ok(hs[2..]);
    assert [hs[1]] + hs[2..] == hs[1..];
    assert ArcFields([b, c]) == Ok(hs[1..]);
    assert [hs[0]] + hs[1..] == hs;
  }

  lemma {:induction false} SealedTwoRead(n: nat, t2: string, t3: string)
    requires n <= MAX_U32
    ensures var fs := SealedFields("", Numbering(n, t2), Numbering(n, t3));
            ArcFields([FieldText(fs[0]), FieldText(fs[1])])
            == Ok([RawHeader(Seal, n, Numbering(n, t3)), RawHeader(MessageSignature, n, Numbering(n, t2))])
  {
    hide NameOf, Numbering, FieldText, PushArc;
    PushBuilt(MessageSignature, n, t2);
    PushBuilt(Seal, n, t3);
    var fs := SealedFields("", Numbering(n, t2), Numbering(n, t3));
    var a, b := FieldText(fs[0]), FieldText(fs[1]);
    assert [a, b][1..] == [b] && [b][1..] == [];
    var g, h := RawHeader(Seal, n, Numbering(n, t3)), RawHeader(MessageSignature, n, Numbering(n, t2));
    assert [h] + [] == [h] && [g] + [h] == [g, h];
    assert ArcFields([b]) == Ok([h]);
  }

  /** The first two lines read as a seal and a message signature. */
  predicate SealAndSignature(n: nat, ams: string, seal: string) {
    var fs := SealedFields("", ams, seal);
    ArcFields([FieldText(fs[0]), FieldText(fs[1])])
        == Ok([RawHeader(Seal, n, seal), RawHeader(MessageSignature, n, ams)])
  }

  /** The sealer's output: three lines whose trimmed values are those of the new instance. */
  lemma {:induction false} SealedShape(
      suite: Suite, sealer: ArcSealer, raw: bytes, results: string, prior: seq<Instance>, cv: ChainValidation)
    returns (aar: string, ams: string, seal: string)
    requires Lawful(suite) && Usable(sealer, results) && Numbered(prior)
    requires SealMessage(suite, sealer, raw, results, prior, cv).Some?
    ensures |prior| < MAX_INSTANCE && HasFrom(raw)
    ensures SealMessage(suite, sealer, raw, results, prior, cv) == Some(LinesText(SealedFields(aar, ams, seal)))
    ensures forall i :: 0 <= i < 3 ==> Clean(SealedFields(aar, ams, seal)[i])
    ensures ArcFields(FieldTexts(SealedFields(aar, ams, seal))) == Ok(SealedHeaders(|prior| + 1, aar, ams, seal))
    ensures SealAndSignature(|prior| + 1, ams, seal)
    ensures aar == AarTrimmed(sealer, |prior| + 1, results)
    ensures ams == AmsTrimmed(suite, sealer, |prior| + 1, MessageFields(raw).value, raw)
    ensures seal == SealTrimmed(suite, sealer, |prior| + 1, cv, prior, aar, ams)
  {
    hide AmsValue, SealValue, Numbering, HeaderLine, AmsTrimmed, SealTrimmed, HeaderValue, AarValue, Sorted,
      LinesText, FieldTexts, ArcFields, MessageFields, Names, Clean;
    NextOfNumbered(prior);
    NumberedSorted(prior);
    var n := |prior| + 1;
    var t2 := AmsBuilt(suite, sealer, n, raw, results);
    ams := Numbering(n, t2);
    HeaderValueOfLine(" " + ams);
    AarShape(sealer, n, results);
    aar := AarTrimmed(sealer, n, results);
    var t3 := SealBuilt(suite, sealer, n, cv, prior, aar, ams, results);
    seal := Numbering(n, t3);
    SealedFieldsClean(aar, ams, seal);
    SealedFieldsRead(n, " " + sealer.domain + "; " + results, t2, t3);
    SealedTwoRead(n, t2, t3);
    var fs := SealedFields(aar, ams, seal);
    LinesOfThree(fs[0], fs[1], fs[2]);
  }

  /** The results line in front of a message takes up the continuation lines the message starts with. */
  lemma {:induction false} ResultsLine(c: string, m: bytes)
    requires c != "" && !Folded(c) && OneLine(c) && NotBlank(m)
    ensures var one := Encode(c + CRLF);
            && HeaderLines(one) && StartsField(one) && StartsField(one + m)
            && HeaderText(one + m) == Both(Some(c + CRLF), HeaderText(m))
            && (HeaderText(m).Some? ==>
                  Fields(HeaderText(one + m).value) == [c + FoldOf(m)] + Fields(HeaderText(m).value))
            && Body(one + m) == Body(m)
  {
    hide Fields, Fold, Encode, Decode;
    var one := Encode(c + CRLF);
    ClearLine(c);
    DecodeEncode(c + CRLF);
    TextPrepend(one, m);
    HeaderEndPrepend(one, m);
    assert (one + m)[0] == one[0] && (one + m)[1] == one[1];
    CrlfAtLine(c);
    if HeaderText(m).Some? {
      FieldInFront(c, HeaderText(m).value);
    }
  }

  lemma {:induction false} ClearLine(c: string)
    requires c != "" && !Folded(c) && OneLine(c)
    ensures HeaderLines(Encode(c + CRLF)) && StartsField(Encode(c + CRLF))
  {
    EncodeAppend(c, CRLF);
    assert Encode(CRLF) == [13, 10] by {
      assert CRLF[1..] == "\n";
      assert Encode("\n") == [10];
    }
    EncodeOneLine(c);
    BlankNone(Encode(c));
    var first := EncodeChar(c[0]);
    assert Encode(c) == first + Encode(c[1..]);
    assert first[0] != 32 && first[0] != 9;
    assert Encode(c)[0] in Encode(c);
  }

  /** ... and reads as the results header with them. */
  lemma {:induction false} ResultsHeader(n: nat, tail: string, m: bytes)
    requires n <= MAX_U32 && OneLine(" " + Numbering(n, tail)) && NotBlank(m)
    ensures var c := FieldText(Field(NameOf(AuthResults), " " + Numbering(n, tail)));
            && c != "" && !Folded(c) && OneLine(c)
            && ArcHeaders(Encode(c + CRLF) + m) ==
               Joined(Ok([RawHeader(AuthResults, n, Numbering(n, tail) + FoldOf(m))]), ArcHeaders(m))
  {
    hide Encode, Fields, FoldOf, PushArc, NameOf, HeaderText, HeaderLines, StartsField, Body;
    var c := FieldText(Field(NameOf(AuthResults), " " + Numbering(n, tail)));
    NameReads(AuthResults);
    assert c[0] == NameOf(AuthResults)[0];
    ResultsLine(c, m);
    var fold := FoldOf(m);
    PushBuilt(AuthResults, n, tail + fold);
    assert Numbering(n, tail) + fold == Numbering(n, tail + fold);
    assert c + fold == FieldText(Field(NameOf(AuthResults), " " + Numbering(n, tail + fold)));
    OneHeader(c + fold, RawHeader(AuthResults, n, Numbering(n, tail) + fold));
    if HeaderText(m).Some? {
      ArcFieldsAppend([c + fold], Fields(HeaderText(m).value));
    }
  }

  lemma {:induction false} OneHeader(line: string, h: RawHeader)
    requires PushArc(line) == Header(h)
    ensures ArcFields([line]) == Ok([h])
  {
    hide PushArc;
    assert [line][1..] == [] && [h] + [] == [h];
  }

  /** The first two sealed lines, and all three, as bytes. */
  lemma {:induction false} SealedBytes(aar: string, ams: string, seal: string)
    requires forall i :: 0 <= i < 3 ==> Clean(SealedFields(aar, ams, seal)[i])
    ensures var fs := SealedFields(aar, ams, seal);
            var two := Encode(LinesText(fs[..2]));
            && Encode(LinesText(fs)) == two + Encode(FieldText(fs[2]) + CRLF)
            && HeaderLines(two) && StartsField(two) && Decode(two) == Some(LinesText(fs[..2]))
            && Fields(LinesText(fs[..2])) == [FieldText(fs[0]), FieldText(fs[1])]
            && HeaderLines(Encode(LinesText(fs))) && StartsField(Encode(LinesText(fs)))
            && Decode(Encode(LinesText(fs))).Some?
  {
    hide SealedFields, Encode, Decode, Fields, HeaderLines, StartsField, Clean, HeaderLine, FieldText;
    SealedFieldsThree(aar, ams, seal);
    var fs := SealedFields(aar, ams, seal);
    assert fs == [fs[0], fs[1], fs[2]] && fs[..2] == [fs[0], fs[1]];
    LinesOfThree(fs[0], fs[1], fs[2]);
    LinesOfTwo(fs[0], fs[1]);
    LinesTextReads(fs);
    LinesTextReads(fs[..2]);
    DecodeEncode(LinesText(fs));
    DecodeEncode(LinesText(fs[..2]));
    EncodeAppend(LinesText(fs[..2]), HeaderLine(fs[2].name, fs[2].value));
    LineText(fs[2]);
  }

  lemma {:induction false} LineText(f: Field)
    ensures HeaderLine(f.name, f.value) == FieldText(f) + CRLF
  {
  }

  lemma {:induction false} LinesOfTwo(a: Field, b: Field)
    ensures LinesText([a, b]) == HeaderLine(a.name, a.value) + HeaderLine(b.name, b.value)
    ensures FieldTexts([a, b]) == [FieldText(a), FieldText(b)]
  {
    hide HeaderLine, FieldText;
    assert [a, b][1..] == [b] && [b][1..] == [];
    assert LinesText([b]) == HeaderLine(b.name, b.value) + "";
    assert FieldTexts([b]) == [FieldText(b)];
  }

  /** The sealed block in front of a message: its ARC headers come first, the results header with the
      continuation lines the message starts with. */
  lemma {:induction false} SealedBlock(m: bytes, tail: string, ams: string, seal: string, n: nat)
    requires n <= MAX_U32 && NotBlank(m)
    requires forall i :: 0 <= i < 3 ==> Clean(SealedFields(Numbering(n, tail), ams, seal)[i])
    requires SealAndSignature(n, ams, seal)
    ensures var aar := Numbering(n, tail);
            ArcHeaders(Encode(LinesText(SealedFields(aar, ams, seal))) + m) ==
            Joined(Ok(SealedHeaders(n, aar + FoldOf(m), ams, seal)), ArcHeaders(m))
  {
    hide ArcHeaders, Encode, Decode, Fields, HeaderLines, StartsField, FoldOf, LinesText, Numbering, NameOf,
      ArcFields;
    var aar := Numbering(n, tail);
    var fs := SealedFields(aar, ams, seal);
    SealedBytes(aar, ams, seal);
    assert OneLine(fs[2].value);
    ResultsHeader(n, tail, m);
    var c := FieldText(fs[2]);
    ResultsLine(c, m);
    var two, one := Encode(LinesText(fs[..2])), Encode(c + CRLF);
    assert two + one + m == two + (one + m);
    ArcHeadersPrepend(two, one + m);
    JoinThree(RawHeader(Seal, n, seal), RawHeader(MessageSignature, n, ams), RawHeader(AuthResults, n, aar + FoldOf(m)),
              ArcHeaders(m));
  }

  lemma {:induction false} JoinThree(a: RawHeader, b: RawHeader, c: RawHeader, rest: ArcResult)
    ensures Joined(Ok([a, b]), Joined(Ok([c]), rest)) == Joined(Ok([a, b, c]), rest)
  {
    if rest.Ok? {
      assert [a, b] + ([c] + rest.value) == [a, b, c] + rest.value;
    }
  }

  lemma {:induction false} SealedFieldsThree(aar: string, ams: string, seal: string)
    ensures |SealedFields(aar, ams, seal)| == 3
  {
  }

  lemma {:induction false} ExtraInFront(extra: bytes, m: bytes)
    requires PlainExtra(extra) && StartsField(m)
    ensures StartsField(extra + m)
  {
    if extra == [] {
      assert extra + m == m;
    } else {
      assert (extra + m)[0] == extra[0] && (extra + m)[1] == extra[1];
    }
  }

  lemma {:induction false} NoArcInFront(extra: bytes, m: bytes)
    requires PlainExtra(extra) && NoArc(extra) && StartsField(m)
    ensures ArcHeaders(extra + m) == Joined(Ok([]), ArcHeaders(m))
  {
    hide ArcHeaders;
    ArcHeadersPrepend(extra, m);
  }

  lemma {:induction false} FromStays(p: bytes, m: bytes)
    requires HeaderLines(p) && StartsField(m) && Decode(p).Some? && HasFrom(m)
    ensures MessageFields(p + m) == Some(FieldPairs(Fields(Decode(p).value)) + MessageFields(m).value)
    ensures Body(p + m) == Body(m)
    ensures HasFrom(p + m)
  {
    hide MessageFields, Body, FieldPairs, PickedNames;
    MessageFieldsPrepend(p, m);
    HeaderEndPrepend(p, m);
    var more, fields := FieldPairs(Fields(Decode(p).value)), MessageFields(m).value;
    FromPicked(fields);
    assert forall j :: 0 <= j < |fields| ==> (more + fields)[|more| + j] == fields[j];
    FromPicked(more + fields);
  }

  /** From is signed exactly when some field is called From: it is the first name looked for. */
  lemma {:induction false} FromPicked(fields: seq<Field>)
    ensures "from" in Names(fields) <==> exists j :: 0 <= j < |fields| && Named(fields[j], "from")
  {
    hide Named;
    var used := Unused(|fields|);
    var found := LowestUnused(fields, used, "from", |fields|);
    var rest := SIGNED_HEADERS[1..];
    if found.None? {
      PickedFromNames(fields, used, rest);
      assert "from" !in rest;
    }
  }

  // ----- one hop -----

  lemma {:induction false} HeadersGrow(prior: seq<Instance>, added: Instance)
    ensures multiset(HeadersOf(prior + [added]))
            == multiset(SealedHeaders(added.instance, added.authResults, added.messageSignature, added.seal))
                + multiset(HeadersOf(prior))
  {
    var chain := prior + [added];
    assert chain[..|chain| - 1] == prior && chain[|chain| - 1] == added;
  }

  lemma {:induction false} PriorBag(prior: seq<Instance>, hs: seq<RawHeader>)
    requires prior == [] ==> hs == []
    requires prior != [] ==> ExtractHeaders(hs) == Chain(prior)
    ensures multiset(hs) == multiset(HeadersOf(prior))
  {
    if prior != [] {
      ExtractIff(hs, prior);
    }
  }

  lemma {:induction false} ChainGrows(prior: seq<Instance>, hs: seq<RawHeader>, added: Instance)
    requires Numbered(prior) && |prior| < MAX_INSTANCE && added.instance == |prior| + 1
    requires prior == [] ==> hs == []
    requires prior != [] ==> ExtractHeaders(hs) == Chain(prior)
    ensures ExtractHeaders(SealedHeaders(added.instance, added.authResults, added.messageSignature, added.seal) + hs)
            == Chain(prior + [added])
  {
    hide ExtractHeaders, SealedHeaders, HeadersOf;
    PriorBag(prior, hs);
    var three := SealedHeaders(added.instance, added.authResults, added.messageSignature, added.seal);
    HeadersGrow(prior, added);
    ExtractIff(three + hs, prior + [added]);
  }

  /** A validated message is either without ARC headers or holds its prior chain. */
  lemma {:induction false} ValidatedHeaders(suite: Suite, dns: Dns, m: bytes)
    requires Validate(suite, dns, m) == Status(CvNone) || Validate(suite, dns, m) == Status(CvPass)
    ensures ArcHeaders(m).Ok? && Numbered(Prior(m))
    ensures Validate(suite, dns, m) == Status(Expected(|Prior(m)| + 1))
    ensures Prior(m) == [] ==> ArcHeaders(m).value == []
    ensures Prior(m) != [] ==> ExtractHeaders(ArcHeaders(m).value) == Chain(Prior(m))
  {
    hide ArcHeaders, CvValuesConsistent, NewestVerifies, SealVerifies;
    PriorNumbered(m);
    if Extract(m).Chain? {
      ExtractIff(ArcHeaders(m).value, Prior(m));
    } else {
      assert Extract(m) == Absent;
      CollectNotAbsent(ArcHeaders(m).value);
    }
  }

  lemma {:induction false} CollectNotAbsent(hs: seq<RawHeader>)
    ensures ExtractHeaders(hs) == Absent <==> hs == []
  {
  }

  /** Earlier seals keep verifying when an instance is added behind them. */
  lemma {:induction false} OldSealVerifies(
      suite: Suite, dns: Dns, prior: seq<Instance>, hs: seq<RawHeader>, added: Instance, k: nat)
    requires ExtractHeaders(hs) == Chain(prior) && (forall h :: h in hs ==> FiledRight(h))
    requires Numbered(prior + [added]) && k < |prior|
    requires SealVerifies(suite, dns, prior, prior[k])
    ensures SealVerifies(suite, dns, prior + [added], (prior + [added])[k])
  {
    hide ExtractHeaders, ParseSeal, FiledRight, CheckedInput, Sorted, CheckSignature, HeadersOf;
    ExtractIff(hs, prior);
    var h := HeaderOf(prior[k], Seal);
    HeadersOfMember(prior, h);
    assert h in multiset(hs);
    SealNumber(suite.decode64, h);
    CheckedExtends(prior, [added], k + 1, prior[k].seal);
  }

  ghost predicate AllSealsVerify(suite: Suite, dns: Dns, instances: seq<Instance>) {
    forall k :: 0 <= k < |instances| ==> SealVerifies(suite, dns, instances, instances[k])
  }

  lemma {:induction false} PassMeans(suite: Suite, dns: Dns, m: bytes)
    requires Extract(m).Chain? && Prior(m) != []
    ensures Validate(suite, dns, m) == Status(CvPass) <==>
            && CvValuesConsistent(suite, Prior(m))
            && NewestVerifies(suite, dns, Prior(m), m)
            && AllSealsVerify(suite, dns, Prior(m))
  {
    hide Extract, CvValuesConsistent, NewestVerifies, SealVerifies;
  }

  /** The instance a hop adds, as it is written. */
  function NewInstance(suite: Suite, hop: Hop, m: bytes, cv: ChainValidation): Instance
    requires HasFrom(m)
  {
    var n := |Prior(m)| + 1;
    var aar := AarTrimmed(hop.sealer, n, hop.results);
    var ams := AmsTrimmed(suite, hop.sealer, n, MessageFields(m).value, m);
    Instance(n, aar, ams, SealTrimmed(suite, hop.sealer, n, cv, Prior(m), aar, ams))
  }

  function SealedWith(suite: Suite, hop: Hop, m: bytes, cv: ChainValidation): bytes
    requires HasFrom(m)
  {
    var i := NewInstance(suite, hop, m, cv);
    Encode(LinesText(SealedFields(i.authResults, i.messageSignature, i.seal)))
  }

  lemma {:induction false} SealSucceeds(suite: Suite, sealer: ArcSealer, raw: bytes, results: string,
      prior: seq<Instance>, cv: ChainValidation)
    requires Numbered(prior)
    ensures SealMessage(suite, sealer, raw, results, prior, cv).Some? <==> |prior| < MAX_INSTANCE && HasFrom(raw)
  {
    hide MessageFields, PickedNames, HashInput, Render, AmsTags, SealValue, AarValue, HeaderLine;
    NextOfNumbered(prior);
    forall value: string
      ensures HeaderValue(HeaderLine(Ams.AMS_NAME, value)).Some?
    {
      HeaderValueOfLine(value);
    }
  }

  /** The instance a hop adds, as it is read back: the results with the continuation lines behind them. */
  function ReadInstance(suite: Suite, hop: Hop, m: bytes, cv: ChainValidation): Instance
    requires HasFrom(m)
  {
    var i := NewInstance(suite, hop, m, cv);
    i.(authResults := i.authResults + FoldOf(m))
  }

  /** What a hop sends on, for any verdict it seals with. */
  lemma {:induction false} HopSends(suite: Suite, hop: Hop, m: bytes, cv: ChainValidation)
    requires Lawful(suite) && Usable(hop.sealer, hop.results)
    requires HasFrom(m) && |Prior(m)| < MAX_INSTANCE
    ensures SealMessage(suite, hop.sealer, m, hop.results, Prior(m), cv).Some?
    ensures var block := SealedWith(suite, hop, m, cv);
            && block == Encode(SealMessage(suite, hop.sealer, m, hop.results, Prior(m), cv).value)
            && HeaderLines(block) && StartsField(block) && StartsField(block + m) && Decode(block).Some?
    ensures NotBlank(m) ==>
              var i := ReadInstance(suite, hop, m, cv);
              ArcHeaders(SealedWith(suite, hop, m, cv) + m) ==
              Joined(Ok(SealedHeaders(i.instance, i.authResults, i.messageSignature, i.seal)), ArcHeaders(m))
  {
    hide SealMessage, Prior, MessageFields, AmsTrimmed, SealTrimmed, SealedFields, SealedHeaders, ArcHeaders,
      LinesText, Names, Encode, Decode, HeaderLines, StartsField, Joined, Lawful, Usable, FoldOf, Numbering,
      SealAndSignature, Clean;
    PriorNumbered(m);
    SealSucceeds(suite, hop.sealer, m, hop.results, Prior(m), cv);
    var aar, ams, seal := SealedShape(suite, hop.sealer, m, hop.results, Prior(m), cv);
    SealedBytes(aar, ams, seal);
    BlockStarts(Encode(LinesText(SealedFields(aar, ams, seal))), m);
    if NotBlank(m) {
      SealedBlock(m, " " + hop.sealer.domain + "; " + hop.results, ams, seal, |Prior(m)| + 1);
    }
  }

  lemma {:induction false} BlockStarts(block: bytes, m: bytes)
    requires HeaderLines(block) && StartsField(block)
    ensures StartsField(block + m)
  {
    assert (block + m)[0] == block[0] && (block + m)[1] == block[1];
  }

  /** The message a hop sends on when it seals with `cv`. */
  function Sent(suite: Suite, hop: Hop, m: bytes, cv: ChainValidation): bytes
    requires HasFrom(m)
  {
    hop.extra + (SealedWith(suite, hop, m, cv) + m)
  }

  ghost predicate GoodHop(suite: Suite, hop: Hop) {
    Lawful(suite) && Usable(hop.sealer, hop.results) && PlainExtra(hop.extra) && NoArc(hop.extra)
  }

  /** Sealing a validated message appends exactly one instance to its chain. */
  lemma {:induction false} HopExtracts(suite: Suite, dns: Dns, hop: Hop, m: bytes, cv: ChainValidation)
    requires GoodHop(suite, hop) && NotBlank(m) && HasFrom(m) && |Prior(m)| < MAX_INSTANCE
    requires Validate(suite, dns, m) == Status(CvNone) || Validate(suite, dns, m) == Status(CvPass)
    ensures Extract(Sent(suite, hop, m, cv)) == Chain(Prior(m) + [ReadInstance(suite, hop, m, cv)])
  {
    hide SealedWith, ReadInstance, ArcHeaders, ExtractHeaders, Prior, HasFrom, Validate, NotBlank, Lawful, Usable,
      Encode, Decode, SealMessage, HeaderLines, StartsField, SealedHeaders;
    ValidatedHeaders(suite, dns, m);
    HopSends(suite, hop, m, cv);
    var block, i := SealedWith(suite, hop, m, cv), ReadInstance(suite, hop, m, cv);
    NoArcInFront(hop.extra, block + m);
    InstanceNumber(suite, hop, m, cv);
    var three := SealedHeaders(i.instance, i.authResults, i.messageSignature, i.seal);
    ChainGrows(Prior(m), ArcHeaders(m).value, i);
    assert [] + (three + ArcHeaders(m).value) == three + ArcHeaders(m).value;
  }

  lemma {:induction false} InstanceNumber(suite: Suite, hop: Hop, m: bytes, cv: ChainValidation)
    requires HasFrom(m)
    ensures ReadInstance(suite, hop, m, cv).instance == |Prior(m)| + 1
  {
  }

  lemma {:induction false} JoinExtra(extra: bytes, block: bytes)
    requires PlainExtra(extra) && HeaderLines(block) && StartsField(block)
    requires Decode(extra).Some? && Decode(block).Some?
    ensures HeaderLines(extra + block) && Decode(extra + block).Some?
  {
    hide Decode;
    if extra == [] {
      assert extra + block == block;
    } else {
      JoinLines(extra, block);
      DecodeAppend(extra, block);
    }
  }

  lemma {:induction false} FieldsBehindLine(c: string, m: bytes) returns (more: seq<Field>)
    requires c != "" && !Folded(c) && OneLine(c) && NotBlank(m) && HasFrom(m)
    ensures var sent := Encode(c + CRLF) + m;
            MessageFields(sent) == Some(more + MessageFields(m).value) && HasFrom(sent)
  {
    hide Encode, Fields, FoldOf, FieldPairs, HeaderText, HeaderLines, StartsField, Body, Names, Named;
    ResultsLine(c, m);
    FieldPairsAppend([c + FoldOf(m)], Fields(HeaderText(m).value));
    more := FieldPairs([c + FoldOf(m)]);
    var fields := MessageFields(m).value;
    FromPicked(fields);
    assert forall j :: 0 <= j < |fields| ==> (more + fields)[|more| + j] == fields[j];
    FromPicked(more + fields);
  }

  /** The message sent on keeps From and the body, and begins with a field. */
  lemma {:induction false} HopKeeps(suite: Suite, hop: Hop, m: bytes, cv: ChainValidation) returns (more: seq<Field>)
    requires GoodHop(suite, hop) && NotBlank(m) && HasFrom(m) && |Prior(m)| < MAX_INSTANCE
    ensures var sent := Sent(suite, hop, m, cv);
            && StartsField(sent) && HasFrom(sent)
            && MessageFields(sent) == Some(more + MessageFields(m).value) && Body(sent) == Body(m)
  {
    hide Prior, Names, MessageFields, Decode, Body, HeaderLines, StartsField, Fields, FieldPairs, ArcFields, Lawful,
      Usable, Encode, SealMessage, NewInstance, SealedFields, LinesText, FieldText, NotBlank, FoldOf, Folded, OneLine,
      Clean;
    var two, c := SentParts(suite, hop, m, cv);
    ResultsLine(c, m);
    var first := FieldsBehindLine(c, m);
    var one := Encode(c + CRLF);
    JoinExtra(hop.extra, two);
    assert hop.extra + (two + one + m) == (hop.extra + two) + (one + m);
    FromStays(hop.extra + two, one + m);
    ExtraInFront(hop.extra, two + (one + m)) by {
      BlockStarts(two, one + m);
    }
    assert hop.extra + (two + (one + m)) == (hop.extra + two) + (one + m);
    var front := FieldPairs(Fields(Decode(hop.extra + two).value));
    more := front + first;
    assert front + (first + MessageFields(m).value) == more + MessageFields(m).value;
  }

  /** The block a hop writes: two lines and the results line. */
  lemma {:induction false} SentParts(suite: Suite, hop: Hop, m: bytes, cv: ChainValidation)
    returns (two: bytes, c: string)
    requires Lawful(suite) && Usable(hop.sealer, hop.results) && HasFrom(m) && |Prior(m)| < MAX_INSTANCE
    ensures SealedWith(suite, hop, m, cv) == two + Encode(c + CRLF)
    ensures HeaderLines(two) && StartsField(two) && Decode(two).Some?
    ensures c != "" && !Folded(c) && OneLine(c)
  {
    hide SealMessage, Prior, MessageFields, AmsTrimmed, SealTrimmed, AarTrimmed, ArcFields, Names, Encode, Decode,
      HeaderLines, StartsField, Lawful, Usable, SealAndSignature, Fields, LinesText, NameOf;
    PriorNumbered(m);
    SealSucceeds(suite, hop.sealer, m, hop.results, Prior(m), cv);
    var aar, ams, seal := SealedShape(suite, hop.sealer, m, hop.results, Prior(m), cv);
    SealedBytes(aar, ams, seal);
    var fs := SealedFields(aar, ams, seal);
    two, c := Encode(LinesText(fs[..2])), FieldText(fs[2]);
    CleanText(fs[2]);
  }

  lemma {:induction false} CleanText(f: Field)
    requires Clean(f)
    ensures FieldText(f) != "" && !Folded(FieldText(f)) && OneLine(FieldText(f))
  {
    assert FieldText(f)[0] == f.name[0];
  }

  lemma {:induction false} NewestPasses(suite: Suite, view: Dns, hop: Hop, m: bytes, cv: ChainValidation)
    requires GoodHop(suite, hop) && NotBlank(m) && HasFrom(m) && |Prior(m)| < MAX_INSTANCE
    requires Publishes(suite, view, hop.sealer)
    ensures NewestVerifies(suite, view, Prior(m) + [ReadInstance(suite, hop, m, cv)], Sent(suite, hop, m, cv))
  {
    hide Prior, MessageFields, Body, SealTrimmed, AarTrimmed, AmsTrimmed, Sent, VerifyAms, ParseMessageSignature,
      Names, FoldOf, NotBlank, StartsField;
    var more := HopKeeps(suite, hop, m, cv);
    AmsVerifies(suite, view, hop.sealer, |Prior(m)| + 1, m, hop.results, Sent(suite, hop, m, cv), more);
  }

  /** The instance's seal names this sealer and its own position. */
  predicate SealedBy(suite: Suite, instance: Instance, sealer: ArcSealer) {
    match ParseSeal(suite.decode64, instance.seal)
    case None => false
    case Some(seal) =>
      && seal.instance == instance.instance
      && seal.domain == Lower(Compact(sealer.domain))
      && seal.selector == Lower(Compact(sealer.selector))
  }

  /** The new seal as it is read back names its sealer, its position and the verdict. */
  lemma {:induction false} NewSealReads(suite: Suite, hop: Hop, m: bytes, cv: ChainValidation)
    requires Lawful(suite) && Usable(hop.sealer, hop.results) && HasFrom(m) && |Prior(m)| < MAX_INSTANCE
    ensures var i := ReadInstance(suite, hop, m, cv);
            && SealedBy(suite, i, hop.sealer)
            && ParseSeal(suite.decode64, i.seal).value.chainValidation == cv
  {
    hide Prior, MessageFields, AarTrimmed, AmsTrimmed, ParseSeal, Names, SealedInput, Encode, FoldOf, Lawful, OneLine;
    PriorNumbered(m);
    var i := ReadInstance(suite, hop, m, cv);
    var aar := AarTrimmed(hop.sealer, i.instance, hop.results);
    var input := SealedInput(hop.sealer, i.instance, cv, Prior(m), aar, i.messageSignature);
    SealReads(suite, i.instance, hop.sealer.domain, hop.sealer.selector, cv, suite.sign(hop.sealer.key, Encode(input)));
  }

  /** Continuation lines of white space change nothing in the canonical results. */
  lemma {:induction false} BlankFoldText(aar: string, fold: string, ams: string)
    requires Canon.Words(fold) == [] && (fold == "" || Canon.IsFws(fold[0]))
    ensures InstanceText(aar + fold, ams) == InstanceText(aar, ams)
  {
    if fold == "" {
      assert aar + fold == aar;
    } else {
      Canon.WordsSplit(aar, fold[0], fold[1..]);
      assert aar + [fold[0]] + fold[1..] == aar + fold;
      assert Canon.Words(fold[1..]) == [];
      assert Canon.Words(aar) + [] == Canon.Words(aar);
    }
  }

  lemma {:induction false} FoldStarts(lines: seq<string>)
    ensures FoldLines(lines) == "" || Canon.IsFws(FoldLines(lines)[0])
  {
  }

  lemma {:induction false} NewSealPasses(suite: Suite, view: Dns, hop: Hop, m: bytes, cv: ChainValidation)
    requires GoodHop(suite, hop) && CleanStart(m) && HasFrom(m) && |Prior(m)| < MAX_INSTANCE
    requires Publishes(suite, view, hop.sealer)
    ensures var i := ReadInstance(suite, hop, m, cv);
            SealVerifies(suite, view, Prior(m) + [i], i)
  {
    hide Prior, MessageFields, AarTrimmed, AmsTrimmed, ParseSeal, Names, SealTrimmed, Lawful, Usable, Publishes,
      PlainExtra, NoArc, SealedInput, Encode, CheckSignature, CheckedInput, Sorted, InstanceText, StripB, FoldOf,
      Numbered;
    PriorNumbered(m);
    var w, i := NewInstance(suite, hop, m, cv), ReadInstance(suite, hop, m, cv);
    SealVerifiesNew(suite, view, hop.sealer, cv, Prior(m), w.authResults, w.messageSignature, hop.results);
    FoldOfStarts(m);
    BlankFoldText(w.authResults, FoldOf(m), w.messageSignature);
    SameChecked(Prior(m), w, i);
    NewSealReads(suite, hop, m, cv);
  }

  lemma {:induction false} FoldOfStarts(m: bytes)
    ensures FoldOf(m) == "" || Canon.IsFws(FoldOf(m)[0])
  {
    hide FoldLines;
    if HeaderText(m).Some? {
      FoldStarts(Lines(HeaderText(m).value));
    }
  }

  /** Two closing instances with the same canonical text are checked alike. */
  lemma {:induction false} SameChecked(prior: seq<Instance>, a: Instance, b: Instance)
    requires Numbered(prior) && a.instance == b.instance == |prior| + 1 && a.seal == b.seal
    requires InstanceText(a.authResults, a.messageSignature) == InstanceText(b.authResults, b.messageSignature)
    ensures CheckedInput(Sorted(prior + [a]), a.instance, a.seal)
        == CheckedInput(Sorted(prior + [b]), a.instance, a.seal)
  {
    hide CheckedInput, Sorted, InstanceText, StripB;
    var n := |prior| + 1;
    NumberedSorted(prior + [a]);
    NumberedSorted(prior + [b]);
    CheckedUpTo(prior + [a], n, a.seal);
    CheckedUpTo(prior + [b], n, a.seal);
    assert (prior + [a])[..n - 1] == prior && (prior + [b])[..n - 1] == prior;
  }

  /** An intact chain stays intact: sealing it with its own verdict gives a message that validates to pass. */
  lemma {:induction false} HopPasses(suite: Suite, view: Dns, hop: Hop, m: bytes, cv: ChainValidation)
    requires GoodHop(suite, hop) && CleanStart(m) && HasFrom(m) && |Prior(m)| < MAX_INSTANCE
    requires Publishes(suite, view, hop.sealer)
    requires cv != CvFail && Validate(suite, view, m) == Status(cv)
    ensures Extract(Sent(suite, hop, m, cv)) == Chain(Prior(m) + [ReadInstance(suite, hop, m, cv)])
    ensures Validate(suite, view, Sent(suite, hop, m, cv)) == Status(CvPass)
  {
    hide SealVerifies, NewestVerifies, ParseSeal, ReadInstance, Validate, Sent, ArcHeaders, ExtractHeaders, HasFrom,
      Publishes, FoldOf, SealedBy, Lawful, Usable;
    HopExtracts(suite, view, hop, m, cv);
    ValidatedHeaders(suite, view, m);
    var prior, i := Prior(m), ReadInstance(suite, hop, m, cv);
    InstanceNumber(suite, hop, m, cv);
    var chain := prior + [i];
    NewestPasses(suite, view, hop, m, cv);
    NewSealPasses(suite, view, hop, m, cv);
    NewSealConsistent(suite, hop, m, cv);
    OldPart(suite, view, m);
    forall k | 0 <= k < |chain|
      ensures SealVerifies(suite, view, chain, chain[k]) && CvConsistent(suite, chain[k])
    {
      if k < |prior| {
        HeadersFiled(m);
        OldSealVerifies(suite, view, prior, ArcHeaders(m).value, i, k);
        assert chain[k] == prior[k];
      }
    }
    PassMeans(suite, view, Sent(suite, hop, m, cv));
  }

  lemma {:induction false} NewSealConsistent(suite: Suite, hop: Hop, m: bytes, cv: ChainValidation)
    requires Lawful(suite) && Usable(hop.sealer, hop.results) && HasFrom(m) && |Prior(m)| < MAX_INSTANCE
    ensures CvConsistent(suite, ReadInstance(suite, hop, m, cv)) <==> cv == Expected(|Prior(m)| + 1)
  {
    hide Prior, HasFrom, ParseSeal, ReadInstance;
    NewSealReads(suite, hop, m, cv);
    InstanceNumber(suite, hop, m, cv);
  }

  lemma {:induction false} HeadersFiled(m: bytes)
    requires ArcHeaders(m).Ok?
    ensures forall h :: h in ArcHeaders(m).value ==> FiledRight(h)
  {
    hide ArcFields, FiledRight;
    ArcFieldsFiled(Fields(HeaderText(m).value));
  }

  lemma {:induction false} OldPart(suite: Suite, view: Dns, m: bytes)
    requires Validate(suite, view, m) == Status(CvNone) || Validate(suite, view, m) == Status(CvPass)
    ensures CvValuesConsistent(suite, Prior(m)) && AllSealsVerify(suite, view, Prior(m))
  {
    hide Extract, SealVerifies, CvConsistent, NewestVerifies;
  }
}
