/** What the readers of ARC headers accept, said in plain texts and numbers. */
module ArcReading {
  import opened Text
  import opened Utf8
  import opened Canon
  import opened Chain
  import opened Signature
  import opened Ams
  import opened Built

  // ----- names and statuses -----

  /** Header names count in any ASCII case. */
  lemma {:induction false} KindMeaning(name: string)
    ensures KindOf(name) == Some(AuthResults) <==> SameLetters(name, "ARC-Authentication-Results")
    ensures KindOf(name) == Some(MessageSignature) <==> SameLetters(name, "ARC-Message-Signature")
    ensures KindOf(name) == Some(Seal) <==> SameLetters(name, "ARC-Seal")
  {
    hide Lower, SameLetters;
    LowerMeaning(name, "ARC-Authentication-Results");
    LowerMeaning(name, "ARC-Message-Signature");
    LowerMeaning(name, "ARC-Seal");
    SpelledNames();
    assert |"arc-authentication-results"| == 26 && |"arc-message-signature"| == 21 && |"arc-seal"| == 8;
  }

  lemma {:induction false} SpelledNames()
    ensures Lower("ARC-Authentication-Results") == "arc-authentication-results"
    ensures Lower("ARC-Message-Signature") == "arc-message-signature"
    ensures Lower("ARC-Seal") == "arc-seal"
  {
    hide Lower;
    LowerAar();
    LowerAms();
    LowerSeal();
  }

  lemma {:induction false} LowerSeal()
    ensures Lower("ARC-Seal") == "arc-seal"
  {
  }

  /** A status is none, pass or fail, in any case and with white space around it. */
  lemma {:induction false} CvMeaning(value: string)
    ensures ParseCv(value) == Some(CvNone) <==> SameLetters(Trim(value), "none")
    ensures ParseCv(value) == Some(CvPass) <==> SameLetters(Trim(value), "pass")
    ensures ParseCv(value) == Some(CvFail) <==> SameLetters(Trim(value), "fail")
  {
    hide Lower, SameLetters, Trim;
    LowerMeaning(Trim(value), "none");
    LowerMeaning(Trim(value), "pass");
    LowerMeaning(Trim(value), "fail");
    SpelledStatuses();
    assert "none"[0] == 'n' && "pass"[0] == 'p' && "fail"[0] == 'f';
  }

  lemma {:induction false} SpelledStatuses()
    ensures Lower("none") == "none" && Lower("pass") == "pass" && Lower("fail") == "fail"
  {
  }

  lemma {:induction false} StatusesWritten()
    ensures CvText(CvNone) == "none" && CvText(CvPass) == "pass" && CvText(CvFail) == "fail"
  {
  }

  // ----- one field -----

  predicate ArcName(name: string) {
    || SameLetters(name, "ARC-Authentication-Results") || SameLetters(name, "ARC-Message-Signature")
    || SameLetters(name, "ARC-Seal")
  }

  lemma {:induction false} ColonSplits(name: string, ws: string, value: string)
    requires ':' !in name && Blank(ws) && (name == "" || !IsWhitespace(name[|name| - 1]))
    ensures SplitOnce(name + ws + ":" + value, ':') == Some((name + ws, value)) && TrimEnd(name + ws) == name
  {
    assert ':' !in ws by {
      assert !IsWhitespace(':');
    }
    SplitOnceAppend(name + ws, ':', value);
    if name == "" {
      assert name + ws == ws;
      BlankTrims(ws);
    } else {
      TrimEndAppend(name, ws);
      BlankTrims(ws);
      assert name + "" == name;
    }
  }

  lemma {:induction false} BlankTrims(ws: string)
    requires Blank(ws)
    ensures TrimEnd(ws) == ""
  {
    if ws != "" {
      BlankTrims(ws[..|ws| - 1]);
    }
  }

  /** A field counts as an ARC header by its name alone, white space before the colon or not. */
  lemma {:induction false} OtherSkipped(name: string, ws: string, value: string)
    requires ':' !in name && Blank(ws) && (name == "" || !IsWhitespace(name[|name| - 1]))
    ensures PushArc(name + ws + ":" + value) == Skip <==> !ArcName(name)
  {
    hide SplitOnce, TrimEnd, Tag, ParseUnsigned, KindOf, SameLetters, TrimStart;
    ColonSplits(name, ws, value);
    KindMeaning(name);
    KindsOnly(name);
  }

  function Spelled(kind: Kind): string {
    match kind
    case AuthResults => "ARC-Authentication-Results"
    case MessageSignature => "ARC-Message-Signature"
    case Seal => "ARC-Seal"
  }

  /** Without a 32-bit number behind `i=` it is malformed, else it is filed under that number. */
  lemma {:induction false} PushMeaning(kind: Kind, name: string, ws: string, value: string)
    requires ':' !in name && Blank(ws) && (name == "" || !IsWhitespace(name[|name| - 1]))
    requires SameLetters(name, Spelled(kind))
    ensures PushArc(name + ws + ":" + value) ==
            match Tag(TrimStart(value), "i")
            case None => Bad
            case Some(i) =>
              match ParseUnsigned(i, 4_294_967_295)
              case None => Bad
              case Some(n) => Header(RawHeader(kind, n, TrimStart(value)))
  {
    hide SplitOnce, TrimEnd, Tag, ParseUnsigned, KindOf, SameLetters, TrimStart;
    ColonSplits(name, ws, value);
    KindMeaning(name);
  }

  lemma {:induction false} KindsOnly(name: string)
    ensures KindOf(name).Some? <==>
            KindOf(name) == Some(AuthResults) || KindOf(name) == Some(MessageSignature) || KindOf(name) == Some(Seal)
  {
  }

  /** Extraction calls a message malformed exactly when its header block is not UTF-8 or some field is. */
  lemma {:induction false} MalformedIff(fields: seq<string>)
    ensures ArcFields(fields).Err? <==> exists k :: 0 <= k < |fields| && PushArc(fields[k]) == Bad
    ensures ArcFields(fields).Err? ==> ArcFields(fields) == Err(Malformed)
  {
    hide PushArc;
    if fields != [] {
      MalformedIff(fields[1..]);
      if k :| 0 <= k < |fields[1..]| && PushArc(fields[1..][k]) == Bad {
        assert fields[k + 1] == fields[1..][k];
      }
      if k :| 0 <= k < |fields| && PushArc(fields[k]) == Bad {
        assert k > 0 ==> fields[k] == fields[1..][k - 1];
      }
    }
  }

  /** The fields of a message have their names without the white space before the colon. */
  lemma {:induction false} PairMeaning(name: string, ws: string, value: string)
    requires ':' !in name && Blank(ws) && (name == "" || !IsWhitespace(name[|name| - 1]))
    ensures FieldPairs([name + ws + ":" + value]) == [Field(name, value)]
  {
    hide SplitOnce, TrimEnd;
    ColonSplits(name, ws, value);
    assert [name + ws + ":" + value][1..] == [];
  }

  // ----- tags -----

  lemma {:induction false} InstanceMeaning(text: string)
    ensures ParseInstance(text).Some? <==>
            ParseUnsigned(text, 4_294_967_295).Some? && 1 <= ParseUnsigned(text, 4_294_967_295).value <= 50
    ensures ParseInstance(text).Some? ==> ParseInstance(text) == ParseUnsigned(text, 4_294_967_295)
  {
  }

  lemma {:induction false} AlgorithmMeaning(text: string)
    ensures ParseAlgorithm(text) == Some(RsaSha256) <==> text == "rsa-sha256"
    ensures ParseAlgorithm(text) == Some(Ed25519Sha256) <==> text == "ed25519-sha256"
  {
    assert "rsa-sha256"[0] == 'r' && "ed25519-sha256"[0] == 'e';
  }

  lemma {:induction false} ModeMeaning(text: string)
    ensures ParseMode(text) == Some(Simple) <==> text == "simple"
    ensures ParseMode(text) == Some(Relaxed) <==> text == "relaxed"
  {
    assert "simple"[0] == 's' && "relaxed"[0] == 'r';
  }

  lemma {:induction false} PairOfModes(header: string, body: string)
    requires '/' !in header
    ensures ParseModes(Some(header + "/" + body)).Some? <==> ParseMode(header).Some? && ParseMode(body).Some?
    ensures ParseMode(header).Some? && ParseMode(body).Some? ==>
              ParseModes(Some(header + "/" + body)) == Some((ParseMode(header).value, ParseMode(body).value))
  {
    hide SplitOnce;
    SplitOnceAppend(header, '/', body);
  }

  /** The `c=` tag: header mode before the slash, body mode behind; the body is simple when not given, and both
      are when there is no tag. */
  lemma {:induction false} ModesMeaning()
    ensures ParseModes(None) == Some((Simple, Simple))
    ensures ParseModes(Some("simple")) == Some((Simple, Simple))
    ensures ParseModes(Some("relaxed")) == Some((Relaxed, Simple))
    ensures ParseModes(Some("simple/simple")) == Some((Simple, Simple))
    ensures ParseModes(Some("simple/relaxed")) == Some((Simple, Relaxed))
    ensures ParseModes(Some("relaxed/simple")) == Some((Relaxed, Simple))
    ensures ParseModes(Some("relaxed/relaxed")) == Some((Relaxed, Relaxed))
  {
    hide SplitOnce, ParseMode, ParseModes;
    ModeMeaning("simple");
    ModeMeaning("relaxed");
    PairOfModes("simple", "simple");
    PairOfModes("simple", "relaxed");
    PairOfModes("relaxed", "simple");
    PairOfModes("relaxed", "relaxed");
    assert "simple" + "/" + "simple" == "simple/simple" && "simple" + "/" + "relaxed" == "simple/relaxed";
    assert "relaxed" + "/" + "simple" == "relaxed/simple" && "relaxed" + "/" + "relaxed" == "relaxed/relaxed";
    SingleMode("simple");
    SingleMode("relaxed");
    NoModes();
  }

  lemma {:induction false} NoModes()
    ensures ParseModes(None) == Some((Simple, Simple))
  {
  }

  lemma {:induction false} SingleMode(text: string)
    requires '/' !in text && ParseMode(text).Some?
    ensures ParseModes(Some(text)) == Some((ParseMode(text).value, Simple))
  {
    assert IndexOf(text, '/').None?;
    ModeMeaning("simple");
  }

  /** Any other `c=` is refused. */
  lemma {:induction false} OtherModes(c: string)
    requires c !in {"simple", "relaxed", "simple/simple", "simple/relaxed", "relaxed/simple", "relaxed/relaxed"}
    ensures ParseModes(Some(c)) == None
  {
    match IndexOf(c, '/')
    case None =>
    case Some(i) =>
      var header, body := c[..i], c[i + 1..];
      assert c == header + "/" + body;
      assert "simple" + "/" + "simple" == "simple/simple" && "simple" + "/" + "relaxed" == "simple/relaxed";
      assert "relaxed" + "/" + "simple" == "relaxed/simple" && "relaxed" + "/" + "relaxed" == "relaxed/relaxed";
  }

  /** A timestamp that is given must be a number of 64 bits. */
  lemma {:induction false} TimestampMeaning(decode64: string -> Option<bytes>, value: string, tags: seq<TagPair>,
                                            t: string)
    requires ParseTags(Split(value, ';')) == Some(tags) && Lookup(tags, "t") == Some(t)
    ensures ParseUnsigned(t, 18_446_744_073_709_551_615).None? ==>
              ParseMessageSignature(decode64, value) == None && ParseSeal(decode64, value) == None
    ensures ParseMessageSignature(decode64, value).Some? ==>
              ParseMessageSignature(decode64, value).value.timestamp == ParseUnsigned(t, 18_446_744_073_709_551_615)
    ensures ParseSeal(decode64, value).Some? ==>
              ParseSeal(decode64, value).value.timestamp == ParseUnsigned(t, 18_446_744_073_709_551_615)
  {
    hide ParseTags, Lookup, ParseUnsigned, Split, ParseInstance, ParseAlgorithm, ParseModes, ParseCv, LowerAll;
  }

  /** A message signature that is read has a number from 1 to 50, covers From, and no ARC header. */
  lemma {:induction false} SignatureSound(decode64: string -> Option<bytes>, value: string)
    requires ParseMessageSignature(decode64, value).Some?
    ensures var sig := ParseMessageSignature(decode64, value).value;
            && 1 <= sig.instance <= 50 && "from" in sig.signedHeaders
            && forall n :: n in sig.signedHeaders ==> !("arc-" <= n)
  {
    hide ParseTags, Split, Lookup, ParseUnsigned, ParseAlgorithm, ParseModes, ParseTimestamp, LowerAll;
  }

  lemma {:induction false} LowerAllAt(names: seq<string>, k: nat)
    requires k < |names|
    ensures LowerAll(names)[k] == Lower(names[k])
  {
    if k > 0 {
      LowerAllAt(names[1..], k - 1);
    }
  }

  /** A list that names an ARC header, in any case, is refused. */
  lemma {:induction false} ArcCoverRefused(decode64: string -> Option<bytes>, value: string, tags: seq<TagPair>,
                                           h: string, k: nat)
    requires ParseTags(Split(value, ';')) == Some(tags) && Lookup(tags, "h") == Some(h)
    requires k < |Split(h, ':')| && |Split(h, ':')[k]| >= 4 && SameLetters(Split(h, ':')[k][..4], "arc-")
    ensures ParseMessageSignature(decode64, value) == None
  {
    hide ParseTags, Split, Lookup, ParseInstance, ParseAlgorithm, ParseModes, ParseTimestamp, LowerAll;
    var name := Split(h, ':')[k];
    LowerAllAt(Split(h, ':'), k);
    LowerMeaning(name[..4], "arc-");
    assert Lower("arc-") == "arc-";
    assert Lower(name)[..4] == Lower(name[..4]);
    assert "arc-" <= LowerAll(Split(h, ':'))[k];
    assert CoversArc(LowerAll(Split(h, ':')));
  }

  /** So is one that does not name From. */
  lemma {:induction false} FromCoverNeeded(decode64: string -> Option<bytes>, value: string, tags: seq<TagPair>,
                                           h: string)
    requires ParseTags(Split(value, ';')) == Some(tags) && Lookup(tags, "h") == Some(h)
    requires forall k :: 0 <= k < |Split(h, ':')| ==> !SameLetters(Split(h, ':')[k], "from")
    ensures ParseMessageSignature(decode64, value) == None
  {
    hide ParseTags, Split, Lookup, ParseInstance, ParseAlgorithm, ParseModes, ParseTimestamp, LowerAll, SameLetters,
      CoversArc;
    var names := Split(h, ':');
    forall k | 0 <= k < |names|
      ensures LowerAll(names)[k] != "from"
    {
      LowerAllAt(names, k);
      LowerMeaning(names[k], "from");
      assert Lower("from") == "from";
    }
  }

  /** A seal with a list of headers or a body hash is refused, and one that is read has a number from 1 to 50. */
  lemma {:induction false} SealSound(decode64: string -> Option<bytes>, value: string, tags: seq<TagPair>)
    requires ParseTags(Split(value, ';')) == Some(tags)
    ensures Lookup(tags, "h").Some? || Lookup(tags, "bh").Some? ==> ParseSeal(decode64, value) == None
    ensures ParseSeal(decode64, value).Some? ==> 1 <= ParseSeal(decode64, value).value.instance <= 50
  {
    hide ParseTags, Split, Lookup, ParseUnsigned, ParseAlgorithm, ParseTimestamp, ParseCv;
  }

  // ----- words -----

  /** White space between words is a space, tab, CR or LF, and nothing else. */
  lemma {:induction false} WordMeaning(s: string)
    ensures Words(s) == [s] <==> s != "" && forall i :: 0 <= i < |s| ==> s[i] !in {' ', '\t', '\r', '\n'}
  {
    hide Words;
    if s != "" && forall i :: 0 <= i < |s| ==> s[i] !in {' ', '\t', '\r', '\n'} {
      WordFirst(s, "");
      NoWords();
      assert s + "" == s && [s] + [] == [s];
    }
    if Words(s) == [s] {
      WordsAreWords(s);
      assert Word([s][0]);
    }
  }
}
