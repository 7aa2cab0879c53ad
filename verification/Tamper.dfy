/** What a seal and a message signature pin down: exactly which changes to a sealed message validation notices. */
module Tamper {
  import opened Text
  import opened Utf8
  import opened Headers
  import opened Canon
  import opened Chain
  import opened ChainProofs
  import opened Signature
  import opened Scheme
  import opened Ams
  import opened Seals
  import opened Sealer
  import opened Validation
  import opened Built
  import opened Readback
  import opened Sealing
  import opened SignedNames
  import opened ArcHops
  import opened ArcRuns
  import opened ArcStarts

  // ----- canonical lines -----

  function LineText(line: Line): string {
    line.name + ":" + Spaced(line.words)
  }

  function Rendered(lines: seq<Line>): string {
    if lines == [] then "" else LineText(lines[0]) + CRLF + Rendered(lines[1..])
  }

  predicate Proper(line: Line) {
    ':' !in line.name && CR !in line.name && AllWords(line.words)
  }

  predicate AllProper(lines: seq<Line>) {
    forall i :: 0 <= i < |lines| ==> Proper(lines[i])
  }

  lemma {:induction false} SpacedNoBreak(words: seq<string>)
    requires AllWords(words)
    ensures CR !in Spaced(words)
  {
    if |words| > 1 {
      SpacedNoBreak(words[1..]);
    }
  }

  lemma {:induction false} FirstBreak(a: string, x: string, b: string, y: string)
    requires CR !in a && CR !in b && a + CRLF + x == b + CRLF + y
    ensures a == b && x == y
  {
    var s, t := a + CRLF + x, b + CRLF + y;
    assert forall i :: 0 <= i < |a| ==> s[i] == a[i] != CR;
    assert forall i :: 0 <= i < |b| ==> t[i] == b[i] != CR;
    assert s[|a|] == CR && t[|b|] == CR;
    assert |a| == |b|;
    assert a == s[..|a|] && b == t[..|a|];
    assert x == s[|a| + 2..] && y == t[|a| + 2..];
  }

  lemma {:induction false} FirstColon(a: string, x: string, b: string, y: string)
    requires ':' !in a && ':' !in b && a + ":" + x == b + ":" + y
    ensures a == b && x == y
  {
    var s, t := a + ":" + x, b + ":" + y;
    assert forall i :: 0 <= i < |a| ==> s[i] == a[i] != ':';
    assert forall i :: 0 <= i < |b| ==> t[i] == b[i] != ':';
    assert s[|a|] == ':' && t[|b|] == ':';
    assert |a| == |b|;
    assert a == s[..|a|] && b == t[..|a|];
    assert x == s[|a| + 1..] && y == t[|a| + 1..];
  }

  lemma {:induction false} LineTextNoBreak(line: Line)
    requires Proper(line)
    ensures CR !in LineText(line)
  {
    SpacedNoBreak(line.words);
  }

  lemma {:induction false} SameLine(a: Line, b: Line)
    requires Proper(a) && Proper(b) && LineText(a) == LineText(b)
    ensures a == b
  {
    hide Spaced;
    FirstColon(a.name, Spaced(a.words), b.name, Spaced(b.words));
    WordsOfSpaced(a.words);
    WordsOfSpaced(b.words);
  }

  /** Canonical lines can be told from their text. */
  lemma {:induction false} RenderedInjective(a: seq<Line>, b: seq<Line>)
    requires AllProper(a) && AllProper(b) && Rendered(a) == Rendered(b)
    ensures a == b
  {
    hide LineText, Proper;
    if a != [] && b != [] {
      LineTextNoBreak(a[0]);
      LineTextNoBreak(b[0]);
      FirstBreak(LineText(a[0]), Rendered(a[1..]), LineText(b[0]), Rendered(b[1..]));
      SameLine(a[0], b[0]);
      RenderedInjective(a[1..], b[1..]);
      assert a == [a[0]] + a[1..] && b == [b[0]] + b[1..];
    }
  }

  lemma {:induction false} RenderedJoin(a: seq<Line>, b: seq<Line>)
    ensures Rendered(a + b) == Rendered(a) + Rendered(b)
  {
    hide LineText;
    if a == [] {
      assert a + b == b && "" + Rendered(b) == Rendered(b);
    } else {
      RenderedJoin(a[1..], b);
      assert (a + b)[1..] == a[1..] + b && (a + b)[0] == a[0];
      var line, x, y := LineText(a[0]) + CRLF, Rendered(a[1..]), Rendered(b);
      assert line + (x + y) == line + x + y;
    }
  }

  lemma {:induction false} CanonIsLine(name: string, value: string)
    ensures CanonHeader(Relaxed, name, value) == LineText(LineOf(name, value)) + CRLF
    ensures AllWords(LineOf(name, value).words)
  {
    hide Words, Spaced;
    WordsAreWords(value);
  }

  // ----- the message signature -----

  lemma {:induction false} PickedRendered(fields: seq<Field>, used: seq<bool>, names: seq<string>)
    requires |fields| == |used| && PlainHeaderNames(names)
    ensures PickedText(Relaxed, fields, used, names) == Rendered(PickedLines(fields, used, names))
    ensures AllProper(PickedLines(fields, used, names))
    decreases names
  {
    hide CanonHeader, LineText, Words, LowestUnused, Lower, PlainHeaderName;
    if names != [] {
      match LowestUnused(fields, used, names[0], |fields|)
      case None => PickedRendered(fields, used, names[1..]);
      case Some(i) =>
        PickedRendered(fields, used[i := true], names[1..]);
        var line := LineOf(fields[i].name, fields[i].value);
        CanonIsLine(fields[i].name, fields[i].value);
        PlainName(names[0]);
        var rest := PickedLines(fields, used[i := true], names[1..]);
        assert ([line] + rest)[1..] == rest;
        assert Proper(line);
    }
  }

  lemma {:induction false} PlainName(name: string)
    requires PlainHeaderName(name)
    ensures Lower(name) == name && ':' !in name && CR !in name
  {
  }

  /** The same canonical body, and the same words in the fields that are signed. */
  predicate SameContent(suite: Suite, m: bytes, other: bytes)
    requires MessageFields(m).Some? && MessageFields(other).Some?
  {
    && suite.canonBody(Relaxed, Body(other)) == suite.canonBody(Relaxed, Body(m))
    && SameFields(MessageFields(m).value, MessageFields(other).value)
  }

  /** No two bodies share a digest. */
  ghost predicate NoCollisions(s: Suite) {
    forall a, b :: s.digest(a) == s.digest(b) ==> a == b
  }

  lemma {:induction false} SameSigned(fields: seq<Field>, other: seq<Field>, names: seq<string>, stripped: string)
    requires PlainHeaderNames(names)
    ensures HashInput(Relaxed, other, names, stripped) == HashInput(Relaxed, fields, names, stripped) <==>
            SignedLines(other, names) == SignedLines(fields, names)
  {
    hide PickedText, CanonLine, Rendered, PickedLines, AllProper;
    PickedRendered(fields, Unused(|fields|), names);
    PickedRendered(other, Unused(|other|), names);
    var tail := CanonLine(Relaxed, Ams.AMS_NAME, stripped);
    var x, y := Rendered(SignedLines(other, names)), Rendered(SignedLines(fields, names));
    if x + tail == y + tail {
      assert "" + x + tail == x + tail && "" + y + tail == y + tail;
      Cancel("", x, y, tail);
      RenderedInjective(SignedLines(other, names), SignedLines(fields, names));
    }
  }

  /** Where signatures bind and digests do not collide, a new message signature verifies on a message exactly
      when it has the content that was signed. */
  lemma {:induction false} SignatureExact(suite: Suite, view: Dns, sealer: ArcSealer, n: nat, results: string,
                                          m: bytes, other: bytes)
    requires Lawful(suite) && Binding(suite) && NoCollisions(suite) && Publishes(suite, view, sealer)
    requires Usable(sealer, results) && 1 <= n <= MAX_INSTANCE && HasFrom(m) && MessageFields(other).Some?
    ensures var value := AmsTrimmed(suite, sealer, n, MessageFields(m).value, m);
            && ParseMessageSignature(suite.decode64, value).Some?
            && (VerifyAms(suite, view, ParseMessageSignature(suite.decode64, value).value, value, other) == Pass <==>
                SameContent(suite, m, other))
  {
    hide MessageFields, Body, ParseMessageSignature, Names, Trimmed, HashInput, StripB, CheckSignature, AmsInput,
      AmsTags, Binding, Publishes, Encode, OneLine, NoBreak, Lower, Compact, Lawful, SignedLines, AmsTrimmed,
      SameFields;
    var fields, theirs := MessageFields(m).value, MessageFields(other).value;
    var names := Names(fields);
    NamesOfFields(fields);
    PickedPlain(fields);
    var input := AmsInput(suite, sealer, n, fields, m);
    var value := AmsTrimmed(suite, sealer, n, fields, m);
    var sig := AmsReadsBack(suite, sealer, n, fields, m, results);
    assert [] + fields == fields;
    AmsInputSurvives(suite, sealer, n, [], fields, m, results);
    SameSigned(fields, theirs, names, StripB(value));
    SameSignedLines(fields, theirs);
    SignedChecks(suite, view, sealer, input);
    var checked := HashInput(Relaxed, theirs, names, StripB(value));
    if CheckSignature(suite, view, Lower(Compact(sealer.selector)), Lower(Compact(sealer.domain)), checked, sig)
        == Pass {
      CheckedIsSigned(suite, view, sealer, input, checked);
    }
  }

  lemma {:induction false} AmsReadsBack(suite: Suite, sealer: ArcSealer, n: nat, fields: seq<Field>, m: bytes,
                                        results: string)
    returns (sig: bytes)
    requires Lawful(suite) && Usable(sealer, results) && 1 <= n <= MAX_INSTANCE && "from" in Names(fields)
    ensures sig == suite.sign(sealer.key, Encode(AmsInput(suite, sealer, n, fields, m)))
    ensures ParseMessageSignature(suite.decode64, AmsTrimmed(suite, sealer, n, fields, m))
         == Some(AmsReading(n, sealer.domain, sealer.selector, Names(fields), BodyHash(suite, m), sig))
  {
    hide ParseMessageSignature, Names, Trimmed, AmsInput, AmsTags, Encode, OneLine, NoBreak, Lawful, BodyHash;
    NamesOfFields(fields);
    PickedPlain(fields);
    sig := suite.sign(sealer.key, Encode(AmsInput(suite, sealer, n, fields, m)));
    AmsReads(suite, n, sealer.domain, sealer.selector, Names(fields), BodyHash(suite, m), sig);
  }

  // ----- the seal -----

  function InstanceLines(authResults: string, messageSignature: string): seq<Line> {
    [LineOf(AAR_NAME, authResults), LineOf(Seals.AMS_NAME, messageSignature)]
  }

  function ChainLines(chain: seq<Instance>): seq<Line> {
    if chain == [] then []
    else
      var last := chain[|chain| - 1];
      ChainLines(chain[..|chain| - 1])
      + (InstanceLines(last.authResults, last.messageSignature) + [LineOf(SEAL_NAME, last.seal)])
  }

  lemma {:induction false} ArcLine(kind: Kind, value: string)
    ensures Proper(LineOf(NameOf(kind), value))
  {
    hide NameOf, Words;
    NameOfText(kind);
    WordsAreWords(value);
    var name := NameOf(kind);
    assert forall i :: 0 <= i < |name| ==> Lower(name)[i] == LowerChar(name[i]);
  }

  lemma {:induction false} RenderedOne(line: Line)
    ensures Rendered([line]) == LineText(line) + CRLF
  {
    hide LineText;
    assert [line][1..] == [];
    assert LineText(line) + CRLF + "" == LineText(line) + CRLF;
  }

  lemma {:induction false} InstanceRendered(authResults: string, messageSignature: string)
    ensures InstanceText(authResults, messageSignature) == Rendered(InstanceLines(authResults, messageSignature))
    ensures AllProper(InstanceLines(authResults, messageSignature))
  {
    hide CanonHeader, LineText, LineOf, Rendered, Proper;
    CanonIsLine(AAR_NAME, authResults);
    CanonIsLine(Seals.AMS_NAME, messageSignature);
    ArcLine(AuthResults, authResults);
    ArcLine(MessageSignature, messageSignature);
    var a, b := LineOf(AAR_NAME, authResults), LineOf(Seals.AMS_NAME, messageSignature);
    RenderedOne(a);
    RenderedOne(b);
    RenderedJoin([a], [b]);
    assert [a] + [b] == [a, b];
  }

  lemma {:induction false} ProperJoin(a: seq<Line>, b: seq<Line>)
    requires AllProper(a) && AllProper(b)
    ensures AllProper(a + b)
  {
    hide Proper;
  }

  lemma {:induction false} ChainRendered(chain: seq<Instance>)
    ensures PriorText(chain) == Rendered(ChainLines(chain)) && AllProper(ChainLines(chain))
  {
    hide CanonHeader, LineText, LineOf, Rendered, Proper, InstanceText, InstanceLines;
    if chain == [] {
      NothingRendered();
    } else {
      var front, last := chain[..|chain| - 1], chain[|chain| - 1];
      ChainRendered(front);
      InstanceRendered(last.authResults, last.messageSignature);
      CanonIsLine(SEAL_NAME, last.seal);
      ArcLine(Seal, last.seal);
      var two, one := InstanceLines(last.authResults, last.messageSignature), [LineOf(SEAL_NAME, last.seal)];
      RenderedOne(LineOf(SEAL_NAME, last.seal));
      RenderedJoin(two, one);
      RenderedJoin(ChainLines(front), two + one);
      ProperJoin(two, one);
      ProperJoin(ChainLines(front), two + one);
    }
  }

  lemma {:induction false} NothingRendered()
    ensures Rendered([]) == ""
  {
  }

  /** The same words in all three headers. */
  predicate SameWords(a: Instance, b: Instance) {
    && Words(a.authResults) == Words(b.authResults) && Words(a.messageSignature) == Words(b.messageSignature)
    && Words(a.seal) == Words(b.seal)
  }

  predicate SameChain(a: seq<Instance>, b: seq<Instance>) {
    |a| == |b| && forall k :: 0 <= k < |a| ==> SameWords(a[k], b[k])
  }

  lemma {:induction false} ChainLength(chain: seq<Instance>)
    ensures |ChainLines(chain)| == 3 * |chain|
  {
    if chain != [] {
      ChainLength(chain[..|chain| - 1]);
    }
  }

  lemma {:induction false} SplitLines(a: seq<Line>, x: seq<Line>, b: seq<Line>, y: seq<Line>)
    requires |x| == |y| && a + x == b + y
    ensures a == b && x == y
  {
    assert |a| == |b|;
    assert a == (a + x)[..|a|] && b == (b + y)[..|a|];
    assert x == (a + x)[|a|..] && y == (b + y)[|a|..];
  }

  lemma {:induction false} ChainMeaning(a: seq<Instance>, b: seq<Instance>)
    ensures ChainLines(a) == ChainLines(b) <==> SameChain(a, b)
  {
    hide Words, Lower;
    ChainLength(a);
    ChainLength(b);
    if |a| == |b| && a != [] {
      var m := |a| - 1;
      ChainMeaning(a[..m], b[..m]);
      var x := InstanceLines(a[m].authResults, a[m].messageSignature) + [LineOf(SEAL_NAME, a[m].seal)];
      var y := InstanceLines(b[m].authResults, b[m].messageSignature) + [LineOf(SEAL_NAME, b[m].seal)];
      LastMeaning(a[m], b[m]);
      if ChainLines(a) == ChainLines(b) {
        SplitLines(ChainLines(a[..m]), x, ChainLines(b[..m]), y);
        FrontSame(a, b, m);
      }
      assert SameChain(a, b) ==> SameChain(a[..m], b[..m]);
    }
  }

  lemma {:induction false} FrontSame(a: seq<Instance>, b: seq<Instance>, m: nat)
    requires |a| == |b| == m + 1 && SameChain(a[..m], b[..m]) && SameWords(a[m], b[m])
    ensures SameChain(a, b)
  {
    hide SameWords;
    forall k | 0 <= k < |a|
      ensures SameWords(a[k], b[k])
    {
      assert k < m ==> a[k] == a[..m][k] && b[k] == b[..m][k];
    }
  }

  lemma {:induction false} LastMeaning(a: Instance, b: Instance)
    ensures SameWords(a, b) <==>
            (InstanceLines(a.authResults, a.messageSignature) + [LineOf(SEAL_NAME, a.seal)]
             == InstanceLines(b.authResults, b.messageSignature) + [LineOf(SEAL_NAME, b.seal)])
  {
    hide Words, Lower;
    var x := InstanceLines(a.authResults, a.messageSignature) + [LineOf(SEAL_NAME, a.seal)];
    var y := InstanceLines(b.authResults, b.messageSignature) + [LineOf(SEAL_NAME, b.seal)];
    assert x[0].words == Words(a.authResults) && x[1].words == Words(a.messageSignature) && x[2].words == Words(a.seal);
    assert y[0].words == Words(b.authResults) && y[1].words == Words(b.messageSignature) && y[2].words == Words(b.seal);
  }

  /** The text a seal signs tells the words of every header it covers. */
  lemma {:induction false} SealInputMeaning(prior: seq<Instance>, aar: string, ams: string, theirs: seq<Instance>,
                                            aar': string, ams': string, stripped: string)
    ensures SealInput(theirs, aar', ams', stripped) == SealInput(prior, aar, ams, stripped) <==>
            SameChain(theirs, prior) && Words(aar') == Words(aar) && Words(ams') == Words(ams)
  {
    hide PriorText, InstanceText, CanonLine, Rendered, ChainLines, SameChain, Words, Lower, Proper;
    ChainRendered(prior);
    ChainRendered(theirs);
    InstanceRendered(aar, ams);
    InstanceRendered(aar', ams');
    ChainMeaning(theirs, prior);
    var x, y := ChainLines(theirs) + InstanceLines(aar', ams'), ChainLines(prior) + InstanceLines(aar, ams);
    RenderedJoin(ChainLines(theirs), InstanceLines(aar', ams'));
    RenderedJoin(ChainLines(prior), InstanceLines(aar, ams));
    ProperJoin(ChainLines(theirs), InstanceLines(aar', ams'));
    ProperJoin(ChainLines(prior), InstanceLines(aar, ams));
    var tail := CanonLine(Relaxed, SEAL_NAME, stripped);
    TwoMeaning(aar, ams, aar', ams');
    if Rendered(x) + tail == Rendered(y) + tail {
      assert "" + Rendered(x) + tail == Rendered(x) + tail && "" + Rendered(y) + tail == Rendered(y) + tail;
      Cancel("", Rendered(x), Rendered(y), tail);
      RenderedInjective(x, y);
      SplitLines(ChainLines(theirs), InstanceLines(aar', ams'), ChainLines(prior), InstanceLines(aar, ams));
    }
  }

  lemma {:induction false} TwoMeaning(aar: string, ams: string, aar': string, ams': string)
    ensures InstanceLines(aar', ams') == InstanceLines(aar, ams) <==>
            Words(aar') == Words(aar) && Words(ams') == Words(ams)
  {
    hide Words, Lower;
    var x, y := InstanceLines(aar', ams'), InstanceLines(aar, ams);
    assert x[0].words == Words(aar') && x[1].words == Words(ams');
    assert y[0].words == Words(aar) && y[1].words == Words(ams);
  }

  /** Where signatures bind, a seal verifies in a chain exactly when every header of the instances before it, and
      the two it closes, have the words they had when it was made; later instances do not matter. */
  lemma {:induction false} SealExact(suite: Suite, view: Dns, sealer: ArcSealer, cv: ChainValidation,
                                     prior: seq<Instance>, aar: string, ams: string, results: string,
                                     chain: seq<Instance>)
    requires Lawful(suite) && Binding(suite) && Publishes(suite, view, sealer) && Usable(sealer, results)
    requires Numbered(prior) && Numbered(chain) && |prior| < |chain| <= MAX_INSTANCE
    requires chain[|prior|].seal == SealTrimmed(suite, sealer, |prior| + 1, cv, prior, aar, ams)
    ensures SealVerifies(suite, view, chain, chain[|prior|]) <==>
            && SameChain(chain[..|prior|], prior)
            && Words(chain[|prior|].authResults) == Words(aar)
            && Words(chain[|prior|].messageSignature) == Words(ams)
  {
    hide ParseSeal, Trimmed, SealTags, StripB, CheckSignature, SealInput, CheckedInput, Sorted, SameChain, Words,
      Lawful, Binding, Publishes, OneLine, NoBreak, Encode, Lower, Compact;
    var n := |prior| + 1;
    var value := chain[|prior|].seal;
    var input := SealedInput(sealer, n, cv, prior, aar, ams);
    var sig := suite.sign(sealer.key, Encode(input));
    SealReads(suite, n, sealer.domain, sealer.selector, cv, sig);
    NumberedSorted(chain);
    CheckedUpTo(chain, n, value);
    SealStripped(suite, sealer, n, cv, sig);
    SealInputMeaning(prior, aar, ams, chain[..n - 1], chain[n - 1].authResults, chain[n - 1].messageSignature,
                     StripB(value));
    SignedChecks(suite, view, sealer, input);
    var checked := CheckedInput(Sorted(chain), n, value);
    if CheckSignature(suite, view, Lower(Compact(sealer.selector)), Lower(Compact(sealer.domain)), checked, sig)
        == Pass {
      CheckedIsSigned(suite, view, sealer, input, checked);
    }
  }

  // ----- sealed messages -----

  /** Where signatures bind: a message that validates to pass and carries, at any place in its chain, the seal a
      hop made has the words in all headers of the chain up to there that the hop saw and wrote. */
  lemma {:induction false} HistoryFixed(suite: Suite, view: Dns, hop: Hop, m: bytes, cv: ChainValidation, other: bytes)
    requires Binding(suite) && GoodHop(suite, hop) && Publishes(suite, view, hop.sealer)
    requires HasFrom(m) && |Prior(m)| < MAX_INSTANCE && |Prior(m)| < |Prior(other)|
    requires Prior(other)[|Prior(m)|].seal == NewInstance(suite, hop, m, cv).seal
    requires Validate(suite, view, other) == Status(CvPass)
    ensures SameChain(Prior(other)[..|Prior(m)|], Prior(m))
    ensures SameWords(Prior(other)[|Prior(m)|], NewInstance(suite, hop, m, cv))
  {
    hide Binding, Lawful, Usable, PlainExtra, NoArc, Publishes, HasFrom, Prior, Validate, SameChain, Words, SealTrimmed,
      AmsTrimmed, AarTrimmed, CvValuesConsistent, NewestVerifies, SealVerifies, Extract;
    var i := NewInstance(suite, hop, m, cv);
    PriorNumbered(m);
    PriorNumbered(other);
    HasChain(other);
    PassMeans(suite, view, other);
    SealExact(suite, view, hop.sealer, cv, Prior(m), i.authResults, i.messageSignature, hop.results, Prior(other));
  }

  lemma {:induction false} HasChain(raw: bytes)
    requires Prior(raw) != []
    ensures Extract(raw).Chain?
  {
  }

  lemma {:induction false} ChainFields(raw: bytes)
    requires Extract(raw).Chain?
    ensures MessageFields(raw).Some?
  {
  }

  /** Where signatures bind and digests do not collide: a message with the ARC headers of an intact message that
      a hop has sealed passes exactly when it has the sealed message's content, and fails otherwise. */
  lemma {:induction false} ContentExact(suite: Suite, view: Dns, hop: Hop, m: bytes, cv: ChainValidation, other: bytes)
    requires Binding(suite) && NoCollisions(suite) && GoodHop(suite, hop) && Publishes(suite, view, hop.sealer)
    requires CleanStart(m) && HasFrom(m) && |Prior(m)| < MAX_INSTANCE
    requires cv != CvFail && Validate(suite, view, m) == Status(cv)
    requires Extract(other) == Extract(Sent(suite, hop, m, cv))
    ensures MessageFields(other).Some?
    ensures Validate(suite, view, other) == Status(if SameContent(suite, m, other) then CvPass else CvFail)
  {
    hide Binding, NoCollisions, Lawful, Usable, PlainExtra, NoArc, Publishes, CleanStart, HasFrom, Validate, Sent,
      CvValuesConsistent, SealVerifies, Extract, MessageFields, VerifyAms, ParseMessageSignature, SameContent;
    var sent, i := Sent(suite, hop, m, cv), ReadInstance(suite, hop, m, cv);
    HopPasses(suite, view, hop, m, cv);
    ChainPrior(sent);
    ChainPrior(other);
    PassMeans(suite, view, sent);
    PassMeans(suite, view, other);
    ChainVerdict(suite, view, other);
    ChainFields(other);
    NewestContent(suite, view, hop, m, cv, other);
  }

  lemma {:induction false} NewestContent(suite: Suite, view: Dns, hop: Hop, m: bytes, cv: ChainValidation,
                                         other: bytes)
    requires Binding(suite) && NoCollisions(suite) && GoodHop(suite, hop) && Publishes(suite, view, hop.sealer)
    requires HasFrom(m) && |Prior(m)| < MAX_INSTANCE && MessageFields(other).Some?
    ensures NewestVerifies(suite, view, Prior(m) + [ReadInstance(suite, hop, m, cv)], other) <==>
            SameContent(suite, m, other)
  {
    hide Binding, NoCollisions, Lawful, Usable, PlainExtra, NoArc, Publishes, Prior, MessageFields, Body, Names,
      VerifyAms, ParseMessageSignature, SignedLines, AmsTrimmed, SealTrimmed, AarTrimmed, FoldOf;
    SignatureExact(suite, view, hop.sealer, |Prior(m)| + 1, hop.results, m, other);
  }

  /** So a change to the words of the last From, To, Cc, Subject, Date or Message-ID, or to the canonical body, of
      a sealed message makes validation fail. */
  lemma {:induction false} ChangeFails(suite: Suite, view: Dns, hop: Hop, m: bytes, cv: ChainValidation, other: bytes,
                                       name: string)
    requires Binding(suite) && NoCollisions(suite) && GoodHop(suite, hop) && Publishes(suite, view, hop.sealer)
    requires CleanStart(m) && HasFrom(m) && |Prior(m)| < MAX_INSTANCE
    requires cv != CvFail && Validate(suite, view, m) == Status(cv)
    requires Extract(other) == Extract(Sent(suite, hop, m, cv)) && MessageFields(other).Some?
    requires name in {"from", "to", "cc", "subject", "date", "message-id"}
    requires || suite.canonBody(Relaxed, Body(other)) != suite.canonBody(Relaxed, Body(m))
             || (LastWords(MessageFields(m).value, name).Some? &&
                 LastWords(MessageFields(other).value, name) != LastWords(MessageFields(m).value, name))
    ensures Validate(suite, view, other) == Status(CvFail)
  {
    hide Binding, NoCollisions, GoodHop, Publishes, CleanStart, Validate, Sent, Extract, Prior, MessageFields, Body,
      LastWords, Names;
    ContentExact(suite, view, hop, m, cv, other);
  }
}
