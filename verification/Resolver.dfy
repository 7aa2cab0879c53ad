/** What chain validation asks the resolver: the key records of the newest message signature and of every seal. */
module Resolver {
  import opened Text
  import opened Utf8
  import opened Chain
  import opened Signature
  import opened Scheme
  import opened Ams
  import opened Seals
  import opened Sealer
  import opened Sealing
  import opened Validation
  import opened ArcHops

  /** Two resolvers give the same answer about one key. */
  predicate SameAt(a: Dns, b: Dns, selector: string, domain: string) {
    a(selector + "._domainkey." + domain) == b(selector + "._domainkey." + domain)
  }

  predicate SameForSignature(suite: Suite, a: Dns, b: Dns, value: string) {
    match ParseMessageSignature(suite.decode64, value)
    case None => true
    case Some(ams) => SameAt(a, b, ams.selector, ams.domain)
  }

  predicate SameForSeal(suite: Suite, a: Dns, b: Dns, value: string) {
    match ParseSeal(suite.decode64, value)
    case None => true
    case Some(seal) => SameAt(a, b, seal.selector, seal.domain)
  }

  /** Two resolvers agree about the newest message signature and every seal of a message. */
  predicate SameKeys(suite: Suite, a: Dns, b: Dns, raw: bytes) {
    var chain := Prior(raw);
    && (chain != [] ==> SameForSignature(suite, a, b, chain[|chain| - 1].messageSignature))
    && forall k :: 0 <= k < |chain| ==> SameForSeal(suite, a, b, chain[k].seal)
  }

  lemma {:induction false} SameCheck(suite: Suite, a: Dns, b: Dns, selector: string, domain: string, input: string,
                                     signature: bytes)
    requires SameAt(a, b, selector, domain)
    ensures CheckSignature(suite, a, selector, domain, input, signature) ==
            CheckSignature(suite, b, selector, domain, input, signature)
  {
  }

  /** Validation asks for nothing else: the verdict depends on the resolver only through those records. */
  lemma {:induction false} VerdictFromKeys(suite: Suite, a: Dns, b: Dns, raw: bytes)
    requires SameKeys(suite, a, b, raw)
    ensures Validate(suite, a, raw) == Validate(suite, b, raw)
  {
    hide Extract, CvConsistent, ParseSeal, ParseMessageSignature, CheckSignature, HashInput, StripB, MessageFields,
      CheckedInput, Sorted, SameAt;
    var chain := Prior(raw);
    if chain != [] {
      var newest := chain[|chain| - 1].messageSignature;
      match ParseMessageSignature(suite.decode64, newest)
      case None =>
      case Some(ams) =>
        match MessageFields(raw)
        case None =>
        case Some(fields) =>
          SameCheck(suite, a, b, ams.selector, ams.domain,
                    HashInput(ams.headerCanon, fields, ams.signedHeaders, StripB(newest)), ams.signature);
    }
    forall k | 0 <= k < |chain|
      ensures SealVerifies(suite, a, chain, chain[k]) <==> SealVerifies(suite, b, chain, chain[k])
    {
      assert SameForSeal(suite, a, b, chain[k].seal);
      match ParseSeal(suite.decode64, chain[k].seal)
      case None =>
      case Some(seal) =>
        SameCheck(suite, a, b, seal.selector, seal.domain,
                  CheckedInput(Sorted(chain), seal.instance, chain[k].seal), seal.signature);
    }
  }

  // ----- a key record -----

  /** Without a `p=` piece a text is no key record. */
  predicate NoKey(text: string) {
    forall i :: 0 <= i < |Split(text, ';')| ==> !("p=" <= Trim(Split(text, ';')[i]))
  }

  lemma {:induction false} NoKeyIn(decode64: string -> Option<bytes>, parts: seq<string>)
    requires forall i :: 0 <= i < |parts| ==> !("p=" <= Trim(parts[i]))
    ensures ParseKeyIn(decode64, parts) == None
  {
    if parts != [] {
      NoKeyIn(decode64, parts[1..]);
    }
  }

  /** The record of an Ed25519 key (section 4 of RFC 8463); white space may be anywhere in its data. */
  ghost predicate KeyRecord(suite: Suite, key: bytes, text: string) {
    exists data :: Compact(data) == suite.encode64(key) && text == "v=DKIM1; k=ed25519; p=" + data
  }

  lemma {:induction false} SplitThree(a: string, b: string, c: string)
    requires ';' !in a && ';' !in b && ';' !in c
    ensures Split(a + [';'] + (b + [';'] + c), ';') == [a, b, c]
  {
    SplitAppend(a, ';', b + [';'] + c);
    SplitAppend(b, ';', c);
    assert Split(c, ';') == [c];
    assert [a] + ([b] + [c]) == [a, b, c];
  }

  lemma {:induction false} RecordParts(data: string)
    requires ';' !in data
    ensures Split("v=DKIM1; k=ed25519; p=" + data, ';') == ["v=DKIM1", " k=ed25519", " p=" + data]
  {
    hide Split;
    SplitThree("v=DKIM1", " k=ed25519", " p=" + data);
    assert "v=DKIM1" + [';'] + (" k=ed25519" + [';'] + (" p=" + data)) == "v=DKIM1; k=ed25519; p=" + data;
  }

  lemma {:induction false} CompactKeeps(s: string, c: char)
    requires c in s && !IsWhitespace(c)
    ensures c in Compact(s)
  {
    if s[0] != c {
      CompactKeeps(s[1..], c);
    }
  }

  lemma {:induction false} DataPart(data: string)
    requires Base64Text(Compact(data))
    ensures ';' !in data && Trim(" p=" + data) == "p=" + TrimEnd(data)
    ensures Compact(("p=" + TrimEnd(data))[2..]) == Compact(data)
  {
    if ';' in data {
      CompactKeeps(data, ';');
    }
    hide Compact, Base64Text;
    TrimStartAppend(" ", "p=" + data);
    assert " " + ("p=" + data) == " p=" + data;
    TrimEndAppend("p=", data);
    CompactTrimEnd(data);
    assert ("p=" + TrimEnd(data))[2..] == TrimEnd(data);
  }

  lemma {:induction false} RecordRead(suite: Suite, key: bytes, text: string)
    requires Lawful(suite) && KeyRecord(suite, key, text)
    ensures ParseKeyIn(suite.decode64, Split(text, ';')) == Some(key)
  {
    hide Split, Trim, TrimEnd, Compact, Base64Text;
    var data :| Compact(data) == suite.encode64(key) && text == "v=DKIM1; k=ed25519; p=" + data;
    DataPart(data);
    RecordParts(data);
    var parts := ["v=DKIM1", " k=ed25519", " p=" + data];
    OtherParts();
    assert parts[1..] == [" k=ed25519", " p=" + data] && parts[1..][1..] == [" p=" + data];
    assert ParseKeyIn(suite.decode64, [" p=" + data]) == Some(key);
    assert ParseKeyIn(suite.decode64, [" k=ed25519", " p=" + data]) == Some(key);
  }

  lemma {:induction false} OtherParts()
    ensures !("p=" <= Trim("v=DKIM1")) && !("p=" <= Trim(" k=ed25519"))
  {
    TrimStartAppend(" ", "k=ed25519");
    assert " " + "k=ed25519" == " k=ed25519";
    assert Trim("v=DKIM1") == "v=DKIM1" && Trim(" k=ed25519") == "k=ed25519";
  }

  lemma {:induction false} FirstKeyAmong(suite: Suite, before: seq<string>, key: bytes, text: string,
                                         after: seq<string>)
    requires Lawful(suite) && (forall i :: 0 <= i < |before| ==> NoKey(before[i])) && KeyRecord(suite, key, text)
    ensures FirstKey(suite.decode64, before + [text] + after) == Some(key)
  {
    hide ParseKeyIn, KeyRecord, Split, Trim, Lawful;
    var texts := before + [text] + after;
    if before == [] {
      RecordRead(suite, key, text);
    } else {
      NoKeyIn(suite.decode64, Split(before[0], ';'));
      FirstKeyAmong(suite, before[1..], key, text, after);
      assert texts[1..] == before[1..] + [text] + after;
    }
  }

  /** A sealer's key is found where its record stands at the name of its selector and domain, behind any texts
      that are no key records. */
  lemma {:induction false} RecordPublishes(suite: Suite, dns: Dns, sealer: ArcSealer, before: seq<string>,
                                           text: string, after: seq<string>)
    requires Lawful(suite) && forall i :: 0 <= i < |before| ==> NoKey(before[i])
    requires KeyRecord(suite, suite.publicKey(sealer.key), text)
    requires dns(Lower(Compact(sealer.selector)) + "._domainkey." + Lower(Compact(sealer.domain)))
          == Texts(before + [text] + after)
    ensures Publishes(suite, dns, sealer)
  {
    hide FirstKey, KeyRecord, NoKey, Lawful, Lower, Compact;
    FirstKeyAmong(suite, before, suite.publicKey(sealer.key), text, after);
  }

  // ----- a key that is not there -----

  /** The resolver holds no key at a name, for the time being or at all. */
  predicate NoKeyAt(suite: Suite, dns: Dns, selector: string, domain: string) {
    match dns(selector + "._domainkey." + domain)
    case TemporaryFailure => true
    case Texts(texts) => FirstKey(suite.decode64, texts).None?
  }

  /** A message with a chain fails where the key of its newest message signature or of a seal is not found. */
  lemma {:induction false} MissingKeyFails(suite: Suite, dns: Dns, raw: bytes)
    requires Prior(raw) != []
    requires var newest := ParseMessageSignature(suite.decode64, Prior(raw)[|Prior(raw)| - 1].messageSignature);
             || (newest.Some? && NoKeyAt(suite, dns, newest.value.selector, newest.value.domain))
             || exists k :: 0 <= k < |Prior(raw)| &&
                  match ParseSeal(suite.decode64, Prior(raw)[k].seal)
                  case None => false
                  case Some(seal) => NoKeyAt(suite, dns, seal.selector, seal.domain)
    ensures Validate(suite, dns, raw) == Status(CvFail)
  {
    hide CvConsistent, ParseSeal, ParseMessageSignature, HashInput, StripB, MessageFields, CheckedInput, Sorted,
      FirstKey, ArcHeaders, ExtractHeaders;
  }
}
