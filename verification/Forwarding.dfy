/** Sealing a forwarded copy with the status its chain records, without validating it. */
module Forwarding {
  import opened Text
  import opened Utf8
  import opened Headers
  import Canon
  import opened Chain
  import opened ChainProofs
  import opened Signature
  import opened TagNumber
  import opened Scheme
  import opened Sealer
  import opened Built
  import opened Readback
  import opened Seals
  import opened Ams
  import opened Sealing
  import opened Validation
  import opened ArcHops
  import opened ArcRuns
  import opened ArcStarts

  /** The status to seal with: none for a fresh chain, else what the newest seal records, fail if nothing. */
  function RecordedCv(prior: seq<Instance>): ChainValidation {
    if prior == [] then CvNone
    else
      match ChainStatus(prior)
      case None => CvFail
      case Some(cv) => cv
  }

  /** The newest instance was sealed by the domain itself. */
  predicate OwnSeal(prior: seq<Instance>, domain: string) {
    prior != [] && match Tag(prior[|prior| - 1].seal, "d")
                   case None => false
                   case Some(d) => Lower(d) == Lower(domain)
  }

  /** What comes before the first empty line of a text. */
  function HeadText(s: string): string {
    if |s| < 4 then s
    else if s[..4] == CRLF + CRLF then ""
    else [s[0]] + HeadText(s[1..])
  }

  function FirstNamed(lines: seq<string>, field: string): Option<string> {
    if lines == [] then None
    else
      match SplitOnce(lines[0], ':')
      case Some((name, value)) =>
        if Lower(Trim(name)) == Lower(field) then Some(Trim(value)) else FirstNamed(lines[1..], field)
      case None => FirstNamed(lines[1..], field)
  }

  /** The results to record: those the message carries in its first line of that name, or none. */
  function CopyResults(text: string): string {
    match FirstNamed(Lines(HeadText(text)), "authentication-results")
    case None => "none"
    case Some(results) => results
  }

  /** The header lines to put in front of a forwarded copy; nothing behind an own seal. `text` is the message
      with what is not UTF-8 replaced. */
  function ArcSeal(suite: Suite, sealer: ArcSealer, raw: bytes, text: string): Option<string> {
    var prior := Prior(raw);
    if OwnSeal(prior, sealer.domain) then None
    else SealMessage(suite, sealer, raw, CopyResults(text), prior, RecordedCv(prior))
  }

  lemma {:induction false} OneLinePart(s: string, lo: nat, hi: nat)
    requires OneLine(s) && lo <= hi <= |s|
    ensures OneLine(s[lo..hi])
  {
    forall i | 0 < i < hi - lo
      ensures !(s[lo..hi][i - 1] == CR && s[lo..hi][i] == LF)
    {
      assert !(s[lo + i - 1] == CR && s[lo + i] == LF);
    }
  }

  lemma {:induction false} UpToCrlf(s: string)
    ensures CrlfAt(s).None? ==> OneLine(s)
    ensures CrlfAt(s).Some? ==> OneLine(s[..CrlfAt(s).value])
  {
    if |s| >= 2 && !(s[0] == CR && s[1] == LF) {
      var rest := s[1..];
      UpToCrlf(rest);
      var part := if CrlfAt(s).None? then s else s[..CrlfAt(s).value];
      var short := if CrlfAt(rest).None? then rest else rest[..CrlfAt(rest).value];
      assert part == [s[0]] + short;
      forall i | 0 < i < |part|
        ensures !(part[i - 1] == CR && part[i] == LF)
      {
        assert i > 1 ==> part[i - 1] == short[i - 2] && part[i] == short[i - 1];
      }
    }
  }

  lemma {:induction false} LinesAreLines(s: string)
    ensures forall line :: line in Lines(s) ==> OneLine(line)
    decreases |s|
  {
    hide OneLine;
    if s != "" {
      UpToCrlf(s);
      if CrlfAt(s).Some? {
        LinesAreLines(s[CrlfAt(s).value + 2..]);
      }
    }
  }

  lemma {:induction false} TrimOneLine(s: string)
    requires OneLine(s)
    ensures OneLine(Trim(s))
  {
    hide OneLine;
    StartOneLine(s);
    EndOneLine(TrimStart(s));
  }

  lemma {:induction false} StartOneLine(s: string)
    requires OneLine(s)
    ensures OneLine(TrimStart(s))
  {
    hide OneLine;
    if s != "" && IsWhitespace(s[0]) {
      OneLinePart(s, 1, |s|);
      assert s[1..|s|] == s[1..];
      StartOneLine(s[1..]);
    }
  }

  lemma {:induction false} EndOneLine(s: string)
    requires OneLine(s)
    ensures OneLine(TrimEnd(s))
  {
    hide OneLine;
    if s != "" && IsWhitespace(s[|s| - 1]) {
      OneLinePart(s, 0, |s| - 1);
      assert s[0..|s| - 1] == s[..|s| - 1];
      EndOneLine(s[..|s| - 1]);
    }
  }

  lemma {:induction false} NamedOneLine(lines: seq<string>, field: string)
    requires forall line :: line in lines ==> OneLine(line)
    ensures FirstNamed(lines, field).Some? ==> OneLine(FirstNamed(lines, field).value)
  {
    hide OneLine, Trim, Lower;
    if lines != [] {
      assert lines[0] in lines;
      NamedOneLine(lines[1..], field);
      match IndexOf(lines[0], ':')
      case None =>
      case Some(i) =>
        OneLinePart(lines[0], i + 1, |lines[0]|);
        assert lines[0][i + 1..|lines[0]|] == lines[0][i + 1..];
        TrimOneLine(lines[0][i + 1..]);
    }
  }

  /** The results of a copy fit on one line, though they may hold a lone CR or LF. */
  lemma {:induction false} ResultsOneLine(text: string)
    ensures OneLine(CopyResults(text))
  {
    hide FirstNamed, Lines;
    LinesAreLines(HeadText(text));
    NamedOneLine(Lines(HeadText(text)), "authentication-results");
  }

  /** A validated chain of one instance records none: it is never read as pass. */
  lemma {:induction false} SingleRecordsNone(suite: Suite, view: Dns, m: bytes)
    requires Validate(suite, view, m) == Status(CvPass) && |Prior(m)| == 1
    ensures RecordedCv(Prior(m)) != CvPass
  {
    hide ParseSeal, Tag, ParseCv, NewestVerifies, SealVerifies, ExtractHeaders, ArcHeaders, HeadersOf;
    var prior := Prior(m);
    PriorNumbered(m);
    assert CvConsistent(suite, prior[0]);
    if RecordedCv(prior) == CvPass {
      SealCv(suite.decode64, prior[0].seal);
    }
  }

  /** The sealer's own names fit in a tag list. */
  predicate Configured(sealer: ArcSealer) {
    Usable(sealer, "none")
  }

  lemma {:induction false} CopyUsable(sealer: ArcSealer, text: string)
    requires Configured(sealer)
    ensures Usable(sealer, CopyResults(text))
  {
    ResultsOneLine(text);
  }

  /** What a copy is: the message behind the lines a hop would seal it with. */
  lemma {:induction false} CopyIs(suite: Suite, view: Dns, sealer: ArcSealer, text: string, m: bytes)
    requires Lawful(suite) && Configured(sealer) && HasFrom(m) && |Prior(m)| < MAX_INSTANCE
    requires !OwnSeal(Prior(m), sealer.domain)
    ensures GoodHop(suite, CopyHop(view, sealer, text)) && NoSigned([])
    ensures ArcSeal(suite, sealer, m, text).Some?
    ensures Encode(ArcSeal(suite, sealer, m, text).value) + m ==
            Sent(suite, CopyHop(view, sealer, text), m, RecordedCv(Prior(m)))
  {
    hide Lawful, Usable, Configured, HasFrom, Prior, OwnSeal, SealMessage, Encode, SealedWith, ReadInstance, ArcHeaders,
      SealedHeaders, HeaderLines, StartsField, Decode, RecordedCv, NotBlank, CopyResults, PlainExtra, NoArc, NoSigned;
    var hop, cv := CopyHop(view, sealer, text), RecordedCv(Prior(m));
    CopyUsable(sealer, text);
    NothingInFront();
    NothingSigned();
    HopSends(suite, hop, m, cv);
    var block := SealedWith(suite, hop, m, cv);
    assert [] + (block + m) == block + m;
  }

  function CopyHop(view: Dns, sealer: ArcSealer, text: string): Hop {
    Hop(view, sealer, CopyResults(text), [])
  }

  /** Sealing a copy of an intact message keeps it intact exactly when the message has a clean start, and is
      fresh or its newest seal records pass; otherwise the copy fails. */
  lemma {:induction false} ForwardedCopy(suite: Suite, view: Dns, sealer: ArcSealer, text: string, m: bytes)
    requires Lawful(suite) && Configured(sealer) && Publishes(suite, view, sealer)
    requires HasFrom(m) && |Prior(m)| < MAX_INSTANCE && !OwnSeal(Prior(m), sealer.domain)
    requires Validate(suite, view, m) == Status(CvNone) || Validate(suite, view, m) == Status(CvPass)
    requires CleanStart(m) || Binding(suite)
    ensures ArcSeal(suite, sealer, m, text).Some?
    ensures Validate(suite, view, Encode(ArcSeal(suite, sealer, m, text).value) + m) ==
            Status(if CleanStart(m) && (Prior(m) == [] || RecordedCv(Prior(m)) == CvPass) then CvPass else CvFail)
  {
    hide Lawful, Configured, Publishes, HasFrom, Prior, OwnSeal, Validate, Encode, Sent, GoodHop, RecordedCv, ArcSeal,
      NotBlank, FoldOf, Binding, NoSigned, CopyResults, Extract, ReadInstance, Canon.Words;
    var hop, cv := CopyHop(view, sealer, text), RecordedCv(Prior(m));
    CopyIs(suite, view, sealer, text, m);
    FreshRecords(m);
    if !NotBlank(m) {
      BlankFails(suite, view, hop, m, cv);
    } else if !CleanStart(m) {
      FoldFails(suite, view, hop, m, cv);
    } else if Prior(m) == [] || cv == CvPass {
      ValidatedPrior(suite, view, m);
      HopPasses(suite, view, hop, m, cv);
    } else {
      WrongCvFails(suite, view, hop, m, cv);
    }
  }

  /** So forwarding an intact chain of a single instance always breaks it: the second seal says none where pass
      is called for. */
  lemma {:induction false} SingleBreaks(suite: Suite, view: Dns, sealer: ArcSealer, text: string, m: bytes)
    requires Lawful(suite) && Configured(sealer) && Publishes(suite, view, sealer)
    requires HasFrom(m) && |Prior(m)| == 1 && !OwnSeal(Prior(m), sealer.domain)
    requires Validate(suite, view, m) == Status(CvPass)
    ensures ArcSeal(suite, sealer, m, text).Some?
    ensures Validate(suite, view, Encode(ArcSeal(suite, sealer, m, text).value) + m) == Status(CvFail)
  {
    hide Lawful, Configured, Publishes, HasFrom, Prior, OwnSeal, Validate, Encode, Sent, GoodHop, RecordedCv, ArcSeal,
      NotBlank, NoSigned, CopyResults, Binding;
    var hop, cv := CopyHop(view, sealer, text), RecordedCv(Prior(m));
    CopyIs(suite, view, sealer, text, m);
    SingleRecordsNone(suite, view, m);
    if NotBlank(m) {
      WrongCvFails(suite, view, hop, m, cv);
    } else {
      BlankFails(suite, view, hop, m, cv);
    }
  }

  lemma {:induction false} FreshRecords(m: bytes)
    ensures Prior(m) == [] ==> RecordedCv(Prior(m)) == CvNone
  {
    hide Prior;
  }

  /** The verdict on an intact message says whether it has a chain. */
  lemma {:induction false} ValidatedPrior(suite: Suite, view: Dns, m: bytes)
    requires Validate(suite, view, m) == Status(CvNone) || Validate(suite, view, m) == Status(CvPass)
    ensures Validate(suite, view, m) == Status(if Prior(m) == [] then CvNone else CvPass)
  {
    hide CvValuesConsistent, NewestVerifies, SealVerifies, Extract;
  }

  /** A seal that records another status than its position calls for breaks the chain it joins. */
  lemma {:induction false} WrongCvFails(suite: Suite, view: Dns, hop: Hop, m: bytes, cv: ChainValidation)
    requires GoodHop(suite, hop) && NotBlank(m) && HasFrom(m) && 0 < |Prior(m)| < MAX_INSTANCE && cv != CvPass
    requires Validate(suite, view, m) == Status(CvNone) || Validate(suite, view, m) == Status(CvPass)
    ensures Validate(suite, view, Sent(suite, hop, m, cv)) == Status(CvFail)
  {
    hide NotBlank, HasFrom, Prior, Sent, ReadInstance, CvConsistent, SealVerifies, NewestVerifies, Extract, Lawful,
      Usable;
    var i := ReadInstance(suite, hop, m, cv);
    HopExtracts(suite, view, hop, m, cv);
    NewSealConsistent(suite, hop, m, cv);
    var chain := Prior(m) + [i];
    assert chain[|Prior(m)|] == i;
  }

  // ----- when a copy is left unsealed -----

  lemma {:induction false} SealNames(n: nat, domain: string, selector: string, cv: ChainValidation, sig: string)
    ensures Lookup(SealTags(n, domain, selector, cv) + [TagPair("b", sig)], "d") == Some(domain)
  {
    hide Decimal, CvText;
    var tags := SealTags(n, domain, selector, cv) + [TagPair("b", sig)];
    var rest := tags[1..][1..];
    assert rest[0] == TagPair("d", domain);
    assert Lookup(rest, "d") == Some(domain);
    assert Lookup(tags[1..], "d") == Some(domain);
  }

  /** The newest seal is the copier's own exactly when the hop that made it has the same domain, in any case. */
  lemma {:induction false} OwnSealExact(suite: Suite, hop: Hop, m: bytes, cv: ChainValidation, domain: string)
    requires Lawful(suite) && Usable(hop.sealer, hop.results) && HasFrom(m) && |Prior(m)| < MAX_INSTANCE
    ensures OwnSeal(Prior(m) + [ReadInstance(suite, hop, m, cv)], domain) <==>
            SameLetters(Trim(hop.sealer.domain), domain)
  {
    hide Prior, MessageFields, AarTrimmed, AmsTrimmed, Names, SealedInput, Encode, FoldOf, OneLine, NoBreak, Trimmed,
      SealTags, Tag, Lower, Trim, SameLetters, Lookup, Lawful;
    PriorNumbered(m);
    var i := ReadInstance(suite, hop, m, cv);
    var sealer, n := hop.sealer, i.instance;
    var aar := AarTrimmed(sealer, n, hop.results);
    var sig := suite.sign(sealer.key, Encode(SealedInput(sealer, n, cv, Prior(m), aar, i.messageSignature)));
    var tags := SealTags(n, sealer.domain, sealer.selector, cv) + [TagPair("b", suite.encode64(sig))];
    assert i.seal == Trimmed(tags);
    Base64Reads(suite, sig);
    SealTagsPlain(n, sealer.domain, sealer.selector, cv, suite.encode64(sig));
    SealNames(n, sealer.domain, sealer.selector, cv, suite.encode64(sig));
    LowerD();
    TagRendered(tags, "d");
    LowerMeaning(Trim(sealer.domain), domain);
  }

  lemma {:induction false} LowerD()
    ensures Lower("d") == "d"
  {
  }

  /** A copy is left unsealed exactly behind an own seal, at 50 instances, or without From. */
  lemma {:induction false} LeftUnsealed(suite: Suite, sealer: ArcSealer, raw: bytes, text: string)
    ensures ArcSeal(suite, sealer, raw, text) == None <==>
            OwnSeal(Prior(raw), sealer.domain) || |Prior(raw)| == 50 || !HasFrom(raw)
  {
    hide Prior, OwnSeal, SealMessage, HasFrom, CopyResults, RecordedCv;
    PriorNumbered(raw);
    SealSucceeds(suite, sealer, raw, CopyResults(text), Prior(raw), RecordedCv(Prior(raw)));
  }

  // ----- which results a copy records -----

  /** A line of the Authentication-Results header, in any case and with white space around the name. */
  predicate ResultsLineNamed(line: string) {
    match SplitOnce(line, ':')
    case None => false
    case Some((name, _)) => SameLetters(Trim(name), "Authentication-Results")
  }

  lemma {:induction false} LowerResultsName()
    ensures Lower("Authentication-Results") == "authentication-results"
    ensures Lower("authentication-results") == "authentication-results"
  {
  }

  lemma {:induction false} FirstNamedMeaning(before: seq<string>, line: string, after: seq<string>)
    requires forall i :: 0 <= i < |before| ==> !ResultsLineNamed(before[i])
    requires ResultsLineNamed(line)
    ensures FirstNamed(before + [line] + after, "authentication-results") == Some(Trim(SplitOnce(line, ':').value.1))
  {
    hide SplitOnce, Trim, Lower, SameLetters;
    LowerResultsName();
    var lines := before + [line] + after;
    if before == [] {
      LowerMeaning(Trim(SplitOnce(line, ':').value.0), "Authentication-Results");
    } else {
      assert lines[1..] == before[1..] + [line] + after;
      FirstNamedMeaning(before[1..], line, after);
      assert !ResultsLineNamed(before[0]);
      if SplitOnce(before[0], ':').Some? {
        LowerMeaning(Trim(SplitOnce(before[0], ':').value.0), "Authentication-Results");
      }
    }
  }

  lemma {:induction false} NoneNamed(lines: seq<string>)
    requires forall i :: 0 <= i < |lines| ==> !ResultsLineNamed(lines[i])
    ensures FirstNamed(lines, "authentication-results") == None
  {
    hide SplitOnce, Trim, Lower, SameLetters;
    LowerResultsName();
    if lines != [] {
      NoneNamed(lines[1..]);
      assert !ResultsLineNamed(lines[0]);
      if SplitOnce(lines[0], ':').Some? {
        LowerMeaning(Trim(SplitOnce(lines[0], ':').value.0), "Authentication-Results");
      }
    }
  }

  /** An empty line: CRLF twice. */
  predicate EmptyAt(s: string, i: int) {
    0 <= i <= |s| - 4 && s[i] == '\r' && s[i + 1] == '\n' && s[i + 2] == '\r' && s[i + 3] == '\n'
  }

  lemma {:induction false} HeadMeaning(s: string, p: int)
    ensures EmptyAt(s, p) && (forall i :: 0 <= i < p ==> !EmptyAt(s, i)) ==> HeadText(s) == s[..p]
    ensures (forall i :: !EmptyAt(s, i)) ==> HeadText(s) == s
  {
    if |s| >= 4 {
      assert s[..4] == [s[0], s[1], s[2], s[3]];
      assert s[..4] == CRLF + CRLF <==> EmptyAt(s, 0);
      if !EmptyAt(s, 0) {
        var rest := s[1..];
        HeadMeaning(rest, p - 1);
        forall i | i > 0
          ensures EmptyAt(s, i) <==> EmptyAt(rest, i - 1)
        {
        }
        forall i
          ensures EmptyAt(rest, i) <==> i >= 0 && EmptyAt(s, i + 1)
        {
        }
        if EmptyAt(s, p) {
          assert s[..p] == [s[0]] + rest[..p - 1];
        }
        assert s == [s[0]] + rest;
      }
    }
  }

  /** The results of a copy are the trimmed value of the first line of that name before the first empty line,
      or `none`. */
  lemma {:induction false} ResultsMeaning(text: string, before: seq<string>, line: string, after: seq<string>)
    requires forall i :: 0 <= i < |before| ==> !ResultsLineNamed(before[i])
    ensures Lines(HeadText(text)) == before + [line] + after && ResultsLineNamed(line) ==>
              CopyResults(text) == Trim(SplitOnce(line, ':').value.1)
    ensures Lines(HeadText(text)) == before ==> CopyResults(text) == "none"
  {
    hide SplitOnce, Trim, Lower, SameLetters, FirstNamed, HeadText, Lines;
    if ResultsLineNamed(line) {
      FirstNamedMeaning(before, line, after);
    }
    NoneNamed(before);
  }

  // ----- what a copy of a sealed message comes to -----

  lemma {:induction false} SealStatus(n: nat, domain: string, selector: string, cv: ChainValidation, sig: string)
    ensures Lookup(SealTags(n, domain, selector, cv) + [TagPair("b", sig)], "cv") == Some(CvText(cv))
  {
    hide Decimal, CvText;
    var tags := SealTags(n, domain, selector, cv) + [TagPair("b", sig)];
    var rest := tags[1..][1..][1..][1..];
    assert rest[0] == TagPair("cv", CvText(cv));
    assert Lookup(rest, "cv") == Some(CvText(cv));
    assert Lookup(tags[1..][1..][1..], "cv") == Some(CvText(cv));
    assert Lookup(tags[1..][1..], "cv") == Some(CvText(cv));
  }

  lemma {:induction false} CvReads(cv: ChainValidation)
    ensures ParseCv(Trim(CvText(cv))) == Some(cv) && Lower("cv") == "cv"
  {
    PlainTrim(CvText(cv));
    assert Lower(CvText(cv)) == CvText(cv);
  }

  /** The status a hop sealed with is the one read from its seal later. */
  lemma {:induction false} RecordedBack(suite: Suite, hop: Hop, m: bytes, cv: ChainValidation)
    requires Lawful(suite) && Usable(hop.sealer, hop.results) && HasFrom(m) && |Prior(m)| < MAX_INSTANCE
    ensures RecordedCv(Prior(m) + [ReadInstance(suite, hop, m, cv)]) == cv
  {
    hide Prior, MessageFields, AarTrimmed, AmsTrimmed, Names, SealedInput, Encode, FoldOf, OneLine, NoBreak, Trimmed,
      SealTags, Tag, Lower, Trim, Lookup, Lawful, ParseCv;
    PriorNumbered(m);
    var i := ReadInstance(suite, hop, m, cv);
    var sealer, n := hop.sealer, i.instance;
    var aar := AarTrimmed(sealer, n, hop.results);
    var sig := suite.sign(sealer.key, Encode(SealedInput(sealer, n, cv, Prior(m), aar, i.messageSignature)));
    var tags := SealTags(n, sealer.domain, sealer.selector, cv) + [TagPair("b", suite.encode64(sig))];
    assert i.seal == Trimmed(tags);
    Base64Reads(suite, sig);
    SealTagsPlain(n, sealer.domain, sealer.selector, cv, suite.encode64(sig));
    SealStatus(n, sealer.domain, sealer.selector, cv, suite.encode64(sig));
    CvReads(cv);
    TagRendered(tags, "cv");
  }

  /** An intact message that one hop has sealed, copied by a host of another domain: the copy is intact exactly
      when the message had a chain before that hop. */
  lemma {:induction false} CopyOfSealed(suite: Suite, view: Dns, hop: Hop, m: bytes, cv: ChainValidation,
                                        sealer: ArcSealer, text: string)
    requires GoodHop(suite, hop) && CleanStart(m) && HasFrom(m) && |Prior(m)| < 49
    requires Publishes(suite, view, hop.sealer) && cv != CvFail && Validate(suite, view, m) == Status(cv)
    requires Configured(sealer) && Publishes(suite, view, sealer)
    requires !SameLetters(Trim(hop.sealer.domain), sealer.domain)
    ensures var sent := Sent(suite, hop, m, cv);
            && ArcSeal(suite, sealer, sent, text).Some?
            && Validate(suite, view, Encode(ArcSeal(suite, sealer, sent, text).value) + sent) ==
               Status(if Prior(m) == [] then CvFail else CvPass)
  {
    hide Configured, Publishes, HasFrom, Validate, Encode, Sent, RecordedCv, ArcSeal, Extract, ReadInstance,
      SameLetters, Trim, OwnSeal, CleanStart, StartsField, Lawful, Usable, PlainExtra, NoArc;
    var sent, i := Sent(suite, hop, m, cv), ReadInstance(suite, hop, m, cv);
    HopPasses(suite, view, hop, m, cv);
    ChainPrior(sent);
    StartOfClean(m);
    var more := HopKeeps(suite, hop, m, cv);
    StartsClean(sent);
    OwnSealExact(suite, hop, m, cv, sealer.domain);
    RecordedBack(suite, hop, m, cv);
    ValidatedPrior(suite, view, m);
    ForwardedCopy(suite, view, sealer, text, sent);
  }

  lemma {:induction false} StartOfClean(m: bytes)
    requires CleanStart(m)
    ensures NotBlank(m)
  {
  }
}
