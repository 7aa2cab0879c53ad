/** The bytes the sealer signs are the bytes a later validator checks. */
module Sealing {
  import opened Text
  import opened Utf8
  import opened Headers
  import opened Canon
  import opened Chain
  import opened ChainProofs
  import opened Signature
  import opened Scheme
  import opened Ams
  import opened Seals
  import opened Sealer
  import opened Built
  import opened Readback

  /** Configured names and results that fit on a header line and in a tag list. */
  predicate Usable(sealer: ArcSealer, results: string) {
    && ';' !in sealer.domain && ';' !in sealer.selector
    && NoBreak(sealer.domain) && NoBreak(sealer.selector) && OneLine(results)
  }

  /** The directory serves the sealer's public key where its headers point. */
  ghost predicate Publishes(suite: Suite, dns: Dns, sealer: ArcSealer) {
    var answer := dns(Lower(Compact(sealer.selector)) + "._domainkey." + Lower(Compact(sealer.domain)));
    answer.Texts? && FirstKey(suite.decode64, answer.texts) == Some(suite.publicKey(sealer.key))
  }

  lemma {:induction false} SignedChecks(suite: Suite, dns: Dns, sealer: ArcSealer, input: string)
    requires Lawful(suite) && Publishes(suite, dns, sealer)
    ensures CheckSignature(suite, dns, Lower(Compact(sealer.selector)), Lower(Compact(sealer.domain)), input,
                           suite.sign(sealer.key, Encode(input))) == Pass
  {
  }

  lemma {:induction false} CanonLeading(name: string, value: string)
    ensures CanonHeader(Relaxed, name, " " + value) == CanonHeader(Relaxed, name, value)
    ensures CanonLine(Relaxed, name, " " + value) == CanonLine(Relaxed, name, value)
  {
    CollapseLeading(' ', value);
  }

  lemma {:induction false} TrimmedNumbering(n: nat, rest: seq<TagPair>) returns (tail: string)
    requires rest != [] && PlainTags(rest)
    ensures Trimmed([TagPair("i", Decimal(n))] + rest) == Numbering(n, tail)
    ensures Render([TagPair("i", Decimal(n))] + rest) == " " + Numbering(n, tail)
  {
    var tags := [TagPair("i", Decimal(n))] + rest;
    DecimalPlain(n);
    assert tags[1..] == rest;
    tail := Join(Parts(rest), ';');
    var first := Part(tags[0])[1..];
    assert first == "i=" + Decimal(n);
    var parts := [first] + Parts(rest);
    assert parts[1..] == Parts(rest);
    assert PlainTags(tags);
    RenderTrimmed(tags);
  }

  lemma {:induction false} TagsNoBreak(tags: seq<TagPair>)
    requires PlainTags(tags) && tags != []
    requires forall i :: 0 <= i < |tags| ==> NoBreak(tags[i].val)
    ensures NoBreak(Render(tags))
  {
    if |tags| == 1 {
      assert Parts(tags) == [Part(tags[0])];
    } else {
      TagsNoBreak(tags[1..]);
      assert Parts(tags)[1..] == Parts(tags[1..]);
      assert NoBreak(Part(tags[0]));
    }
  }

  lemma {:induction false} HeaderValueOfLine(value: string)
    ensures HeaderValue(HeaderLine(Ams.AMS_NAME, value)) == Some(value)
  {
    NameReads(MessageSignature);
    var name := Ams.AMS_NAME;
    assert HeaderLine(name, value) == name + [':'] + (value + CRLF);
    SplitOnceAppend(name, ':', value + CRLF);
    var after := value + CRLF;
    assert after[|after| - 2..] == CRLF && after[..|after| - 2] == value;
  }

  // ----- the message signature -----

  function Names(fields: seq<Field>): seq<string> {
    PickedNames(fields, Unused(|fields|), SIGNED_HEADERS)
  }

  function BodyHash(suite: Suite, raw: bytes): bytes {
    suite.digest(suite.canonBody(Relaxed, Body(raw)))
  }

  /** The signed text, in the trimmed form the verifier reconstructs. */
  function AmsInput(suite: Suite, sealer: ArcSealer, n: nat, fields: seq<Field>, raw: bytes): string
    requires Names(fields) != []
  {
    HashInput(Relaxed, fields, SIGNED_HEADERS,
              Trimmed(AmsTags(n, sealer.domain, sealer.selector, Names(fields), suite.encode64(BodyHash(suite, raw)))
                      + [TagPair("b", "")]))
  }

  /** The trimmed value of the new message signature. */
  function AmsTrimmed(suite: Suite, sealer: ArcSealer, n: nat, fields: seq<Field>, raw: bytes): string
    requires Names(fields) != []
  {
    var sig := suite.sign(sealer.key, Encode(AmsInput(suite, sealer, n, fields, raw)));
    Trimmed(AmsTags(n, sealer.domain, sealer.selector, Names(fields), suite.encode64(BodyHash(suite, raw)))
            + [TagPair("b", suite.encode64(sig))])
  }

  lemma {:induction false} AmsTagsNoBreak(n: nat, domain: string, selector: string, names: seq<string>, bh: string,
      sig: string)
    requires names != [] && NoBreak(Join(names, ':')) && NoBreak(domain) && NoBreak(selector) && NoBreak(bh)
        && NoBreak(sig)
    ensures forall t :: t in AmsTags(n, domain, selector, names, bh) + [TagPair("b", sig)] ==> NoBreak(t.val)
  {
    DecimalPlain(n);
    assert NoBreak("ed25519-sha256") && NoBreak("relaxed/relaxed") && NoBreak(Decimal(n));
    hide Decimal, Join, NoBreak;
  }

  lemma {:induction false} HashInputLeading(fields: seq<Field>, names: seq<string>, stripped: string)
    ensures HashInput(Relaxed, fields, names, " " + stripped) == HashInput(Relaxed, fields, names, stripped)
  {
    CanonLeading(Ams.AMS_NAME, stripped);
  }

  lemma {:induction false} AmsTagsHead(n: nat, domain: string, selector: string, names: seq<string>, bh: string)
    requires names != []
    ensures var tags := AmsTags(n, domain, selector, names, bh); tags != [] && tags[0] == TagPair("i", Decimal(n))
  {
    hide Decimal, Join;
  }

  lemma {:induction false} AmsRendered(n: nat, domain: string, selector: string, names: seq<string>, bh: string,
      b: string)
    returns (tail: string)
    requires names != [] && ';' !in Join(names, ':') && ';' !in domain && ';' !in selector && ';' !in bh && ';' !in b
    requires NoBreak(Join(names, ':')) && NoBreak(domain) && NoBreak(selector) && NoBreak(bh) && NoBreak(b)
    ensures var all := AmsTags(n, domain, selector, names, bh) + [TagPair("b", b)];
            && Trimmed(all) == Numbering(n, tail)
            && Render(all) == " " + Numbering(n, tail)
            && NoBreak(Render(all))
  {
    hide Trimmed, Render, Join, Decimal, Numbering, NoBreak, AmsTags;
    var tags := AmsTags(n, domain, selector, names, bh);
    AmsTagsHead(n, domain, selector, names, bh);
    AmsTagsPlain(n, domain, selector, names, bh, b);
    AmsTagsNoBreak(n, domain, selector, names, bh, b);
    var all := tags + [TagPair("b", b)];
    assert forall i :: 0 <= i < |all| ==> all[i] in all;
    TagsNoBreak(all);
    var rest := tags[1..] + [TagPair("b", b)];
    assert [TagPair("i", Decimal(n))] + rest == all;
    tail := TrimmedNumbering(n, rest);
  }

  lemma {:induction false} AmsValueRendered(suite: Suite, sealer: ArcSealer, n: nat, raw: bytes, results: string)
    requires Lawful(suite) && Usable(sealer, results)
    requires AmsValue(suite, sealer.key, n, sealer.domain, sealer.selector, raw).Some?
    ensures MessageFields(raw).Some?
    ensures var fields := MessageFields(raw).value;
            && "from" in Names(fields)
            && var sig := suite.sign(sealer.key, Encode(AmsInput(suite, sealer, n, fields, raw)));
               AmsValue(suite, sealer.key, n, sealer.domain, sealer.selector, raw)
               == Some(Render(AmsTags(n, sealer.domain, sealer.selector, Names(fields),
                   suite.encode64(BodyHash(suite, raw)))
                              + [TagPair("b", suite.encode64(sig))]))
  {
    hide Trimmed, Render, PickedNames, Join, MessageFields, Encode, AmsTags, HashInput;
    var fields := MessageFields(raw).value;
    var names := Names(fields);
    PickedPlain(fields);
    NamesRead(names);
    Base64Reads(suite, BodyHash(suite, raw));
    var bh := suite.encode64(BodyHash(suite, raw));
    var tags := AmsTags(n, sealer.domain, sealer.selector, names, bh);
    AmsTagsPlain(n, sealer.domain, sealer.selector, names, bh, "");
    RenderTrimmed(tags + [TagPair("b", "")]);
    HashInputLeading(fields, SIGNED_HEADERS, Trimmed(tags + [TagPair("b", "")]));
  }

  /** Building the message signature yields its trimmed value behind one space. */
  lemma {:induction false} AmsBuilt(suite: Suite, sealer: ArcSealer, n: nat, raw: bytes, results: string)
    returns (tail: string)
    requires Lawful(suite) && Usable(sealer, results)
    requires AmsValue(suite, sealer.key, n, sealer.domain, sealer.selector, raw).Some?
    ensures MessageFields(raw).Some?
    ensures var fields := MessageFields(raw).value;
            && "from" in Names(fields)
            && AmsTrimmed(suite, sealer, n, fields, raw) == Numbering(n, tail)
            && AmsValue(suite, sealer.key, n, sealer.domain, sealer.selector, raw) == Some(" " + Numbering(n, tail))
            && NoBreak(" " + Numbering(n, tail))
  {
    hide Trimmed, Render, PickedNames, Join, MessageFields, Encode, AmsTags, AmsInput, AmsValue, Numbering;
    AmsValueRendered(suite, sealer, n, raw, results);
    var fields := MessageFields(raw).value;
    var names := Names(fields);
    PickedPlain(fields);
    NamesRead(names);
    var sig := suite.sign(sealer.key, Encode(AmsInput(suite, sealer, n, fields, raw)));
    Base64Reads(suite, BodyHash(suite, raw));
    Base64Reads(suite, sig);
    tail := AmsRendered(n, sealer.domain, sealer.selector, names, suite.encode64(BodyHash(suite, raw)),
        suite.encode64(sig));
  }

  lemma {:induction false} UnusedAppend(a: nat, b: nat)
    ensures Unused(a + b) == Unused(a) + Unused(b)
  {
  }

  lemma {:induction false} AmsStripped(
      suite: Suite, sealer: ArcSealer, n: nat, fields: seq<Field>, raw: bytes, results: string)
    requires Lawful(suite) && Usable(sealer, results) && "from" in Names(fields)
    ensures StripB(AmsTrimmed(suite, sealer, n, fields, raw))
            == Trimmed(AmsTags(n, sealer.domain, sealer.selector, Names(fields), suite.encode64(BodyHash(suite, raw)))
                       + [TagPair("b", "")])
  {
    hide Trimmed, PickedNames, Join, Encode, StripB, Decimal, AmsInput, BodyHash, Body;
    var names := Names(fields);
    PickedPlain(fields);
    NamesRead(names);
    var bh := suite.encode64(BodyHash(suite, raw));
    Base64Reads(suite, BodyHash(suite, raw));
    var sig := suite.sign(sealer.key, Encode(AmsInput(suite, sealer, n, fields, raw)));
    Base64Reads(suite, sig);
    AmsTagsPlain(n, sealer.domain, sealer.selector, names, bh, "");
    AmsNotB(n, sealer.domain, sealer.selector, names, bh);
    hide AmsTags;
    StripUndoesSigning(AmsTags(n, sealer.domain, sealer.selector, names, bh), suite.encode64(sig));
  }

  lemma {:induction false} AmsNotB(n: nat, domain: string, selector: string, names: seq<string>, bh: string)
    requires names != []
    ensures var tags := AmsTags(n, domain, selector, names, bh);
            tags != [] && forall i :: 0 <= i < |tags| ==> tags[i].name != "b"
  {
    hide Decimal, Join;
  }

  /** Prepending fields and restoring the stripped header gives back the signed text. */
  lemma {:induction false} AmsInputSurvives(
      suite: Suite, sealer: ArcSealer, n: nat, more: seq<Field>, fields: seq<Field>, raw: bytes, results: string)
    requires Lawful(suite) && Usable(sealer, results) && "from" in Names(fields)
    ensures HashInput(Relaxed, more + fields, Names(fields), StripB(AmsTrimmed(suite, sealer, n, fields, raw)))
            == AmsInput(suite, sealer, n, fields, raw)
  {
    hide Trimmed, PickedNames, PickedText, Join, Encode, CanonLine, StripB, Decimal, AmsTags, AmsTrimmed, BodyHash,
      Lawful, Usable;
    AmsStripped(suite, sealer, n, fields, raw, results);
    UnusedAppend(|more|, |fields|);
    PickedPrepend(Relaxed, more, Unused(|more|), fields, Unused(|fields|), SIGNED_HEADERS);
  }

  /** The new message signature verifies on the message with any fields prepended. */
  lemma {:induction false} AmsVerifies(
      suite: Suite, dns: Dns, sealer: ArcSealer, n: nat, raw: bytes, results: string, later: bytes, more: seq<Field>)
    requires Lawful(suite) && Publishes(suite, dns, sealer) && Usable(sealer, results) && 1 <= n <= MAX_INSTANCE
    requires MessageFields(raw).Some? && "from" in Names(MessageFields(raw).value)
    requires MessageFields(later) == Some(more + MessageFields(raw).value) && Body(later) == Body(raw)
    ensures var value := AmsTrimmed(suite, sealer, n, MessageFields(raw).value, raw);
            && ParseMessageSignature(suite.decode64, value).Some?
            && VerifyAms(suite, dns, ParseMessageSignature(suite.decode64, value).value, value, later) == Pass
  {
    hide ParseMessageSignature, Trimmed, HashInput, MessageFields, Body, StripB, CheckSignature, AmsInput,
      PickedNames, AmsTags;
    var fields := MessageFields(raw).value;
    PickedPlain(fields);
    var input := AmsInput(suite, sealer, n, fields, raw);
    var sig := suite.sign(sealer.key, Encode(input));
    AmsReads(suite, n, sealer.domain, sealer.selector, Names(fields), BodyHash(suite, raw), sig);
    AmsInputSurvives(suite, sealer, n, more, fields, raw, results);
    SignedChecks(suite, dns, sealer, input);
  }

  // ----- the seal -----

  /** The sealed text, with the values in the trimmed form the verifier reads. */
  function SealedInput(sealer: ArcSealer, n: nat, cv: ChainValidation, prior: seq<Instance>, aar: string,
      ams: string): string {
    SealInput(prior, aar, ams, Trimmed(SealTags(n, sealer.domain, sealer.selector, cv) + [TagPair("b", "")]))
  }

  function SealTrimmed(
      suite: Suite, sealer: ArcSealer, n: nat, cv: ChainValidation, prior: seq<Instance>, aar: string,
          ams: string): string
  {
    var sig := suite.sign(sealer.key, Encode(SealedInput(sealer, n, cv, prior, aar, ams)));
    Trimmed(SealTags(n, sealer.domain, sealer.selector, cv) + [TagPair("b", suite.encode64(sig))])
  }

  lemma {:induction false} SealInputLeading(prior: seq<Instance>, aar: string, ams: string, stripped: string)
    ensures SealInput(prior, " " + aar, " " + ams, " " + stripped) == SealInput(prior, aar, ams, stripped)
  {
    CanonLeading(AAR_NAME, aar);
    CanonLeading(Seals.AMS_NAME, ams);
    CanonLeading(SEAL_NAME, stripped);
    hide CanonHeader, CanonLine, PriorText;
  }

  lemma {:induction false} SealTagsNoBreak(n: nat, domain: string, selector: string, cv: ChainValidation, sig: string)
    requires NoBreak(domain) && NoBreak(selector) && NoBreak(sig)
    ensures forall t :: t in SealTags(n, domain, selector, cv) + [TagPair("b", sig)] ==> NoBreak(t.val)
  {
    DecimalPlain(n);
    assert NoBreak("ed25519-sha256") && NoBreak(Decimal(n)) && NoBreak(CvText(cv));
    hide Decimal, CvText, NoBreak;
  }

  lemma {:induction false} SealRendered(n: nat, domain: string, selector: string, cv: ChainValidation, b: string)
    returns (tail: string)
    requires ';' !in domain && ';' !in selector && ';' !in b && NoBreak(domain) && NoBreak(selector) && NoBreak(b)
    ensures var all := SealTags(n, domain, selector, cv) + [TagPair("b", b)];
            && Trimmed(all) == Numbering(n, tail)
            && Render(all) == " " + Numbering(n, tail)
            && NoBreak(Render(all))
  {
    hide Trimmed, Render, Decimal, Numbering, CvText;
    var tags := SealTags(n, domain, selector, cv);
    SealTagsPlain(n, domain, selector, cv, b);
    SealTagsNoBreak(n, domain, selector, cv, b);
    var all := tags + [TagPair("b", b)];
    assert forall i :: 0 <= i < |all| ==> all[i] in all;
    TagsNoBreak(all);
    var rest := tags[1..] + [TagPair("b", b)];
    assert [TagPair("i", Decimal(n))] + rest == all;
    tail := TrimmedNumbering(n, rest);
  }

  /** Building the seal yields its trimmed value behind one space. */
  lemma {:induction false} SealBuilt(
      suite: Suite, sealer: ArcSealer, n: nat, cv: ChainValidation, prior: seq<Instance>, aar: string, ams: string,
          results: string)
    returns (tail: string)
    requires Lawful(suite) && Usable(sealer, results) && Sorted(prior) == prior
    ensures SealTrimmed(suite, sealer, n, cv, prior, aar, ams) == Numbering(n, tail)
    ensures SealValue(suite, sealer.key, n, sealer.domain, sealer.selector, cv, prior, " " + aar, " " + ams)
        == " " + Numbering(n, tail)
    ensures NoBreak(" " + Numbering(n, tail))
  {
    hide Trimmed, Render, SealInput, SealTags, Encode, Numbering, Sorted;
    var none := SealTags(n, sealer.domain, sealer.selector, cv) + [TagPair("b", "")];
    SealTagsPlain(n, sealer.domain, sealer.selector, cv, "");
    RenderTrimmed(none);
    SealInputLeading(prior, aar, ams, Trimmed(none));
    var sig := suite.sign(sealer.key, Encode(SealedInput(sealer, n, cv, prior, aar, ams)));
    Base64Reads(suite, sig);
    tail := SealRendered(n, sealer.domain, sealer.selector, cv, suite.encode64(sig));
  }

  lemma {:induction false} SealStripped(suite: Suite, sealer: ArcSealer, n: nat, cv: ChainValidation, sig: bytes)
    requires Lawful(suite) && ';' !in sealer.domain && ';' !in sealer.selector
    ensures var tags := SealTags(n, sealer.domain, sealer.selector, cv);
            StripB(Trimmed(tags + [TagPair("b", suite.encode64(sig))])) == Trimmed(tags + [TagPair("b", "")])
  {
    hide Trimmed, SealTags, StripB;
    Base64Reads(suite, sig);
    SealTagsPlain(n, sealer.domain, sealer.selector, cv, "");
    SealNotB(n, sealer.domain, sealer.selector, cv);
    StripUndoesSigning(SealTags(n, sealer.domain, sealer.selector, cv), suite.encode64(sig));
  }

  /** The new seal verifies in the chain it closes. */
  lemma {:induction false} SealVerifiesNew(
      suite: Suite, dns: Dns, sealer: ArcSealer, cv: ChainValidation, prior: seq<Instance>, aar: string, ams: string,
          results: string)
    requires Lawful(suite) && Publishes(suite, dns, sealer) && Usable(sealer, results)
    requires Numbered(prior) && |prior| < MAX_INSTANCE
    ensures var n := |prior| + 1;
            var value := SealTrimmed(suite, sealer, n, cv, prior, aar, ams);
            && ParseSeal(suite.decode64, value) == Some(SealReading(n, sealer.domain, sealer.selector, cv,
                 suite.sign(sealer.key, Encode(SealedInput(sealer, n, cv, prior, aar, ams)))))
            && VerifySeal(suite, dns, ParseSeal(suite.decode64, value).value, value,
                prior + [Instance(n, aar, ams, value)]) == Pass
  {
    hide ParseSeal, Trimmed, SealTags, StripB, CheckSignature, SealInput, CheckedInput, Sorted;
    var n := |prior| + 1;
    var value := SealTrimmed(suite, sealer, n, cv, prior, aar, ams);
    var input := SealedInput(sealer, n, cv, prior, aar, ams);
    var sig := suite.sign(sealer.key, Encode(input));
    SealReads(suite, n, sealer.domain, sealer.selector, cv, sig);
    var chain := prior + [Instance(n, aar, ams, value)];
    NumberedSorted(chain);
    CheckedUpTo(chain, n, value);
    assert chain[..n - 1] == prior;
    SealStripped(suite, sealer, n, cv, sig);
    SignedChecks(suite, dns, sealer, input);
  }

  lemma {:induction false} SealNotB(n: nat, domain: string, selector: string, cv: ChainValidation)
    ensures var tags := SealTags(n, domain, selector, cv);
            tags != [] && forall i :: 0 <= i < |tags| ==> tags[i].name != "b"
  {
    hide Decimal, CvText;
  }
}
