/** The very texts that are written and signed (section 4.1 of RFC 8617). */
module Wire {
  import opened Text
  import opened Utf8
  import opened Headers
  import opened Canon
  import opened Chain
  import opened ChainProofs
  import opened Signature
  import opened Scheme
  import opened Ams
  import opened Seals
  import opened Sealer
  import opened Sealing
  import opened ArcHops
  import opened SignedNames
  import opened ArcReading

  /** Pieces with semicolons between, each behind a space. */
  function Pieces(pieces: seq<string>): string {
    if pieces == [] then ""
    else " " + pieces[0] + (if |pieces| == 1 then "" else ";" + Pieces(pieces[1..]))
  }

  function PiecesOf(tags: seq<TagPair>): (r: seq<string>)
    ensures |r| == |tags| && forall k :: 0 <= k < |tags| ==> r[k] == tags[k].name + "=" + tags[k].val
  {
    if tags == [] then [] else [tags[0].name + "=" + tags[0].val] + PiecesOf(tags[1..])
  }

  lemma {:induction false} RenderedPieces(tags: seq<TagPair>)
    requires tags != []
    ensures Render(tags) == Pieces(PiecesOf(tags))
  {
    var t := tags[0];
    assert Part(t) == " " + (t.name + "=" + t.val);
    var piece := t.name + "=" + t.val;
    if |tags| == 1 {
      assert PiecesOf(tags) == [piece];
      assert Pieces([piece]) == " " + piece + "";
    } else {
      RenderedPieces(tags[1..]);
      assert PiecesOf(tags)[1..] == PiecesOf(tags[1..]) && PiecesOf(tags)[0] == piece;
      assert Parts(tags)[1..] == Parts(tags[1..]);
      assert " " + piece + [';'] + Render(tags[1..]) == " " + piece + (";" + Render(tags[1..]));
    }
  }

  // ----- message signatures -----

  /** The value of a message signature. */
  function SignatureText(n: nat, domain: string, selector: string, names: seq<string>, hash: string, b: string): string
    requires names != []
  {
    Pieces(["i=" + Decimal(n), "a=ed25519-sha256", "c=relaxed/relaxed", "d=" + domain, "s=" + selector,
            "h=" + Join(names, ':'), "bh=" + hash, "b=" + b])
  }

  /** The line of the last field of that name, if there is one. */
  function FieldLine(fields: seq<Field>, name: string): string {
    match LastWords(fields, name)
    case None => ""
    case Some(words) => name + ":" + Spaced(words) + "\r\n"
  }

  function FieldLines(fields: seq<Field>, names: seq<string>): string {
    if names == [] then "" else FieldLine(fields, names[0]) + FieldLines(fields, names[1..])
  }

  /** What it signs: the lines of six fields, then its own with an empty `b`. */
  function SignedText(fields: seq<Field>, value: string): string {
    FieldLines(fields, ["from", "to", "cc", "subject", "date", "message-id"])
    + ("arc-message-signature:" + Spaced(Words(value)))
  }

  lemma {:induction false} PickedFieldLines(fields: seq<Field>, used: seq<bool>, names: seq<string>)
    requires |fields| == |used| && Apart(names) && Untaken(fields, used, names)
    requires forall n :: n in names ==> Lower(n) == n
    ensures PickedText(Relaxed, fields, used, names) == FieldLines(fields, names)
    decreases names
  {
    hide LastWords, Apart, Untaken, Lower, Words, Spaced;
    if names != [] {
      HeadUntaken(fields, used, names);
      match LowestUnused(fields, used, names[0], |fields|)
      case None =>
        RestUntaken(fields, used, names);
        PickedFieldLines(fields, used, names[1..]);
        assert "" + FieldLines(fields, names[1..]) == FieldLines(fields, names[1..]);
      case Some(i) =>
        StillUntaken(fields, used, names, i);
        PickedFieldLines(fields, used[i := true], names[1..]);
        assert Lower(fields[i].name) == names[0];
    }
  }

  lemma {:induction false} SixLower()
    ensures forall n :: n in ["from", "to", "cc", "subject", "date", "message-id"] ==> Lower(n) == n
  {
  }

  lemma {:induction false} SignedTextWritten(fields: seq<Field>, value: string)
    ensures HashInput(Relaxed, fields, SIGNED_HEADERS, value) == SignedText(fields, value)
  {
    SixApart();
    SixLower();
    SpelledNames();
    hide LastWords, Apart, Untaken, Lower, Words, Spaced, FieldLines, PickedText;
    NothingTaken(fields, SIGNED_HEADERS);
    PickedFieldLines(fields, Unused(|fields|), SIGNED_HEADERS);
    assert SIGNED_HEADERS == ["from", "to", "cc", "subject", "date", "message-id"];
    LineWritten(Ams.AMS_NAME, value);
  }

  lemma {:induction false} LineWritten(name: string, value: string)
    ensures CanonLine(Relaxed, name, value) == Lower(name) + ":" + Spaced(Words(value))
    ensures CanonHeader(Relaxed, name, value) == Lower(name) + ":" + Spaced(Words(value)) + "\r\n"
  {
    hide Lower, Words, Spaced;
  }

  lemma {:induction false} FixedPieces()
    ensures "i" + "=" == "i=" && "d" + "=" == "d=" && "s" + "=" == "s=" && "h" + "=" == "h=" && "bh" + "=" == "bh="
    ensures "cv" + "=" == "cv=" && "b" + "=" == "b=" && "a" + "=" + "ed25519-sha256" == "a=ed25519-sha256"
    ensures "c" + "=" + "relaxed/relaxed" == "c=relaxed/relaxed"
  {
  }

  lemma {:induction false} SignaturePieces(n: nat, domain: string, selector: string, names: seq<string>, hash: string,
                                           b: string)
    requires names != []
    ensures Render(AmsTags(n, domain, selector, names, hash) + [TagPair("b", b)])
         == SignatureText(n, domain, selector, names, hash, b)
  {
    hide Decimal, Join, Render, Pieces, PiecesOf;
    var tags := AmsTags(n, domain, selector, names, hash) + [TagPair("b", b)];
    RenderedPieces(tags);
    FixedPieces();
    assert PiecesOf(tags) == ["i=" + Decimal(n), "a=ed25519-sha256", "c=relaxed/relaxed", "d=" + domain,
                              "s=" + selector, "h=" + Join(names, ':'), "bh=" + hash, "b=" + b];
  }

  /** A new message signature is written so, and signs exactly that. */
  lemma {:induction false} SignatureWritten(suite: Suite, key: Key, n: nat, domain: string, selector: string,
                                            raw: bytes)
    requires MessageFields(raw).Some? && "from" in Names(MessageFields(raw).value)
    ensures var fields := MessageFields(raw).value;
            var hash := suite.encode64(suite.digest(suite.canonBody(Relaxed, Body(raw))));
            var empty := SignatureText(n, domain, selector, Names(fields), hash, "");
            AmsValue(suite, key, n, domain, selector, raw) ==
            Some(SignatureText(n, domain, selector, Names(fields), hash,
                               suite.encode64(suite.sign(key, Encode(SignedText(fields, empty))))))
  {
    hide MessageFields, HashInput, SignedText, PickedNames, Render, SignatureText, AmsTags, Encode;
    var fields := MessageFields(raw).value;
    var names := Names(fields);
    var hash := suite.encode64(suite.digest(suite.canonBody(Relaxed, Body(raw))));
    var empty := SignatureText(n, domain, selector, names, hash, "");
    SignaturePieces(n, domain, selector, names, hash, "");
    SignedTextWritten(fields, empty);
    SignaturePieces(n, domain, selector, names, hash,
                    suite.encode64(suite.sign(key, Encode(SignedText(fields, empty)))));
  }

  // ----- seals -----

  /** The value of a seal. */
  function SealText(n: nat, domain: string, selector: string, cv: string, b: string): string {
    Pieces(["i=" + Decimal(n), "a=ed25519-sha256", "d=" + domain, "s=" + selector, "cv=" + cv, "b=" + b])
  }

  /** The three lines of an instance, the last without its end. */
  function InstanceLinesText(authResults: string, messageSignature: string, seal: string): string {
    "arc-authentication-results:" + Spaced(Words(authResults)) + "\r\n"
    + ("arc-message-signature:" + Spaced(Words(messageSignature)) + "\r\n")
    + ("arc-seal:" + Spaced(Words(seal)))
  }

  /** What a seal signs: the lines of every instance in turn, its own with an empty `b` last. */
  function ClosedText(prior: seq<Instance>, authResults: string, messageSignature: string, seal: string): string {
    if prior == [] then InstanceLinesText(authResults, messageSignature, seal)
    else
      var last := prior[|prior| - 1];
      ClosedText(prior[..|prior| - 1], last.authResults, last.messageSignature, last.seal) + "\r\n"
      + InstanceLinesText(authResults, messageSignature, seal)
  }

  lemma {:induction false} OwnLinesWritten(authResults: string, messageSignature: string, seal: string)
    ensures InstanceText(authResults, messageSignature) + CanonLine(Relaxed, SEAL_NAME, seal)
         == InstanceLinesText(authResults, messageSignature, seal)
    ensures InstanceText(authResults, messageSignature) + CanonHeader(Relaxed, SEAL_NAME, seal)
         == InstanceLinesText(authResults, messageSignature, seal) + "\r\n"
  {
    SpelledNames();
    hide Lower, Words, Spaced;
    LineWritten(AAR_NAME, authResults);
    LineWritten(Seals.AMS_NAME, messageSignature);
    LineWritten(SEAL_NAME, seal);
    hide CanonHeader, CanonLine;
    var a, m := CanonHeader(Relaxed, AAR_NAME, authResults), CanonHeader(Relaxed, Seals.AMS_NAME, messageSignature);
    var line := CanonLine(Relaxed, SEAL_NAME, seal);
    assert a + m + (line + "\r\n") == a + m + line + "\r\n";
  }

  lemma {:induction false} ClosedWritten(prior: seq<Instance>, authResults: string, messageSignature: string,
                                         seal: string)
    ensures SealInput(prior, authResults, messageSignature, seal)
         == ClosedText(prior, authResults, messageSignature, seal)
    decreases prior
  {
    hide InstanceText, CanonHeader, CanonLine, InstanceLinesText;
    OwnLinesWritten(authResults, messageSignature, seal);
    var own := InstanceText(authResults, messageSignature);
    var line := CanonLine(Relaxed, SEAL_NAME, seal);
    if prior == [] {
      assert "" + own + line == own + line;
    } else {
      var front, last := prior[..|prior| - 1], prior[|prior| - 1];
      ClosedWritten(front, last.authResults, last.messageSignature, last.seal);
      OwnLinesWritten(last.authResults, last.messageSignature, last.seal);
      var text, before := InstanceText(last.authResults, last.messageSignature), PriorText(front);
      var whole, bare := CanonHeader(Relaxed, SEAL_NAME, last.seal), CanonLine(Relaxed, SEAL_NAME, last.seal);
      assert before + (text + whole) == before + text + bare + "\r\n" by {
        assert before + (text + bare + "\r\n") == before + text + bare + "\r\n";
      }
      assert PriorText(prior) + own + line == PriorText(prior) + (own + line);
    }
  }

  lemma {:induction false} SealPieces(n: nat, domain: string, selector: string, cv: ChainValidation, b: string)
    ensures Render(SealTags(n, domain, selector, cv) + [TagPair("b", b)])
         == SealText(n, domain, selector, CvText(cv), b)
  {
    hide Decimal, Render, Pieces, PiecesOf, CvText;
    var tags := SealTags(n, domain, selector, cv) + [TagPair("b", b)];
    RenderedPieces(tags);
    FixedPieces();
    assert PiecesOf(tags) == ["i=" + Decimal(n), "a=ed25519-sha256", "d=" + domain, "s=" + selector, "cv=" + CvText(cv),
                              "b=" + b];
  }

  /** A new seal is written so, and signs exactly that. */
  lemma {:induction false} SealWritten(suite: Suite, key: Key, n: nat, domain: string, selector: string,
                                       cv: ChainValidation, prior: seq<Instance>, authResults: string,
                                       messageSignature: string)
    requires Numbered(prior)
    ensures var empty := SealText(n, domain, selector, CvText(cv), "");
            SealValue(suite, key, n, domain, selector, cv, prior, authResults, messageSignature) ==
            SealText(n, domain, selector, CvText(cv),
                     suite.encode64(suite.sign(key, Encode(ClosedText(prior, authResults, messageSignature, empty)))))
  {
    hide SealInput, ClosedText, Render, SealText, SealTags, Encode, Sorted, CvText;
    var empty := SealText(n, domain, selector, CvText(cv), "");
    NumberedSorted(prior);
    SealPieces(n, domain, selector, cv, "");
    ClosedWritten(prior, authResults, messageSignature, empty);
    SealPieces(n, domain, selector, cv,
               suite.encode64(suite.sign(key, Encode(ClosedText(prior, authResults, messageSignature, empty)))));
  }

  /** A seal of any sender passes exactly when the key at its place verifies that text, up to its own instance. */
  lemma {:induction false} SealCheckExact(suite: Suite, dns: Dns, seal: SealSig, value: string, chain: seq<Instance>)
    requires Numbered(chain) && 1 <= seal.instance <= |chain|
    ensures var own := chain[seal.instance - 1];
            VerifySeal(suite, dns, seal, value, chain) == Pass <==>
            match dns(seal.selector + "._domainkey." + seal.domain)
            case TemporaryFailure => false
            case Texts(texts) =>
              match FirstKey(suite.decode64, texts)
              case None => false
              case Some(key) =>
                suite.verifies(key, Encode(ClosedText(chain[..seal.instance - 1], own.authResults, own.messageSignature,
                                                      StripB(value))), seal.signature)
    ensures VerifySeal(suite, dns, seal, value, chain) == TempError <==>
            dns(seal.selector + "._domainkey." + seal.domain).TemporaryFailure?
    ensures VerifySeal(suite, dns, seal, value, chain) == PermError <==>
            match dns(seal.selector + "._domainkey." + seal.domain)
            case TemporaryFailure => false
            case Texts(texts) => FirstKey(suite.decode64, texts).None?
  {
    hide CheckedInput, SealInput, ClosedText, FirstKey, Encode, StripB, Sorted;
    var own := chain[seal.instance - 1];
    NumberedSorted(chain);
    CheckedUpTo(chain, seal.instance, value);
    ClosedWritten(chain[..seal.instance - 1], own.authResults, own.messageSignature, StripB(value));
  }

  // ----- the sealed block -----

  /** The value of the results header. */
  function ResultsText(n: nat, domain: string, results: string): string {
    Pieces(["i=" + Decimal(n), domain, results])
  }

  lemma {:induction false} ResultsWritten(n: nat, domain: string, results: string)
    ensures AarValue(n, domain, results) == ResultsText(n, domain, results)
  {
    hide Decimal;
    var number := Decimal(n);
    assert Pieces([results]) == " " + results + "";
    assert [domain, results][1..] == [results] && ["i=" + number, domain, results][1..] == [domain, results];
    var last := ";" + Pieces([results]);
    assert Pieces([domain, results]) == " " + domain + last;
    assert "; " == ";" + " " && " i=" == " " + "i=";
  }

  /** Sealing a message writes these three lines: the seal over the whole chain, the message signature over the
      message, and the results. Nothing is written without From or at 50 instances. */
  lemma {:induction false} SealedWritten(suite: Suite, sealer: ArcSealer, raw: bytes, results: string,
                                         prior: seq<Instance>, cv: ChainValidation)
    requires Numbered(prior)
    ensures SealMessage(suite, sealer, raw, results, prior, cv).Some? <==> HasFrom(raw) && |prior| < 50
    ensures HasFrom(raw) && |prior| < 50 ==>
              var n, fields := |prior| + 1, MessageFields(raw).value;
              var hash := suite.encode64(suite.digest(suite.canonBody(Relaxed, Body(raw))));
              var unsigned := SignatureText(n, sealer.domain, sealer.selector, Names(fields), hash, "");
              var ams := SignatureText(n, sealer.domain, sealer.selector, Names(fields), hash,
                                       suite.encode64(suite.sign(sealer.key, Encode(SignedText(fields, unsigned)))));
              var aar := ResultsText(n, sealer.domain, results);
              var unsealed := SealText(n, sealer.domain, sealer.selector, CvText(cv), "");
              var seal := SealText(n, sealer.domain, sealer.selector, CvText(cv),
                                   suite.encode64(suite.sign(sealer.key,
                                                             Encode(ClosedText(prior, aar, ams, unsealed)))));
              SealMessage(suite, sealer, raw, results, prior, cv) ==
              Some("ARC-Seal:" + seal + "\r\n" + ("ARC-Message-Signature:" + ams + "\r\n")
                   + ("ARC-Authentication-Results:" + aar + "\r\n"))
  {
    LineSpelled();
    hide HasFrom, SignatureText, ResultsText, SealText, ClosedText, SignedText, AmsValue, AarValue, SealValue, CvText,
      HeaderValue, Encode, Decimal, HighestInstance, MessageFields, Names;
    NextOfNumbered(prior);
    SealedOrNot(suite, sealer.key, |prior| + 1, sealer.domain, sealer.selector, raw);
    if HasFrom(raw) && |prior| < 50 {
      var n := |prior| + 1;
      var built := AmsValue(suite, sealer.key, n, sealer.domain, sealer.selector, raw).value;
      HeaderValueOfLine(built);
      ResultsWritten(n, sealer.domain, results);
      SignatureWritten(suite, sealer.key, n, sealer.domain, sealer.selector, raw);
      SealWritten(suite, sealer.key, n, sealer.domain, sealer.selector, cv, prior,
                  AarValue(n, sealer.domain, results), built);
    }
  }

  lemma {:induction false} LineSpelled()
    ensures SEAL_NAME + ":" == "ARC-Seal:" && Ams.AMS_NAME + ":" == "ARC-Message-Signature:"
    ensures AAR_NAME + ":" == "ARC-Authentication-Results:" && CRLF == "\r\n"
  {
  }

  lemma {:induction false} SealedOrNot(suite: Suite, key: Key, n: nat, domain: string, selector: string, raw: bytes)
    ensures AmsValue(suite, key, n, domain, selector, raw).Some? <==> HasFrom(raw)
    ensures HasFrom(raw) ==> MessageFields(raw).Some? && "from" in Names(MessageFields(raw).value)
  {
    hide MessageFields, PickedNames, HashInput, Render, Encode;
  }
}
