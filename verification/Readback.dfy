/** The built signature headers parse back to what the sealer put in. */
module Readback {
  import opened Text
  import opened Utf8
  import opened Canon
  import opened Chain
  import opened Signature
  import opened Scheme
  import opened Ams
  import opened Seals
  import opened Built

  lemma {:induction false} LookupAt(tags: seq<TagPair>, key: string, j: nat)
    requires j < |tags| && tags[j].name == key
    requires forall k :: 0 <= k < j ==> tags[k].name != key
    ensures Lookup(tags, key) == Some(tags[j].val)
  {
    if j > 0 {
      LookupAt(tags[1..], key, j - 1);
    }
  }

  lemma {:induction false} LookupMissing(tags: seq<TagPair>, key: string)
    requires forall k :: 0 <= k < |tags| ==> tags[k].name != key
    ensures Lookup(tags, key) == None
  {
    if tags != [] {
      LookupMissing(tags[1..], key);
    }
  }

  lemma {:induction false} InstanceReads(n: nat)
    requires 1 <= n <= MAX_INSTANCE
    ensures ParseInstance(Compact(Decimal(n))) == Some(n)
  {
    DecimalPlain(n);
    CompactIdentity(Decimal(n));
    ParseDecimal(n, MAX_U32);
  }

  lemma {:induction false} AlgorithmReads()
    ensures ParseAlgorithm(Compact("ed25519-sha256")) == Some(Ed25519Sha256)
  {
    CompactIdentity("ed25519-sha256");
  }

  lemma {:induction false} ModesRead()
    ensures ParseModes(Some(Compact("relaxed/relaxed"))) == Some((Relaxed, Relaxed))
  {
    hide Compact, SplitOnce, IndexOf;
    CompactIdentity("relaxed/relaxed");
    assert "relaxed/relaxed" == "relaxed" + ['/'] + "relaxed";
    SplitOnceAppend("relaxed", '/', "relaxed");
  }

  lemma {:induction false} CvReads(cv: ChainValidation)
    ensures ParseCv(Compact(CvText(cv))) == Some(cv)
  {
    CompactIdentity(CvText(cv));
    PlainTrim(CvText(cv));
    PlainLower(CvText(cv));
  }

  lemma {:induction false} Base64Reads(suite: Suite, data: bytes)
    requires Lawful(suite)
    ensures suite.decode64(Compact(suite.encode64(data))) == Some(data)
    ensures ';' !in suite.encode64(data) && NoBreak(suite.encode64(data))
  {
    CompactIdentity(suite.encode64(data));
  }

  lemma {:induction false} CvPlain(cv: ChainValidation)
    ensures ';' !in CvText(cv)
  {
  }

  lemma {:induction false} SealTagsPlain(n: nat, domain: string, selector: string, cv: ChainValidation, sig: string)
    requires ';' !in domain && ';' !in selector && ';' !in sig
    ensures PlainTags(SealTags(n, domain, selector, cv) + [TagPair("b", sig)])
    ensures PlainTags(SealTags(n, domain, selector, cv))
  {
    DecimalPlain(n);
    CvPlain(cv);
    hide CvText, Decimal;
  }

  function SealReading(n: nat, domain: string, selector: string, cv: ChainValidation, sig: bytes): SealSig {
    SealSig(n, Ed25519Sha256, Lower(Compact(domain)), Lower(Compact(selector)), cv, sig, None)
  }

  lemma {:induction false} SealLookups(n: nat, domain: string, selector: string, cv: ChainValidation, sig: string)
    ensures var tags := Compacted(SealTags(n, domain, selector, cv) + [TagPair("b", sig)]);
            && Lookup(tags, "i") == Some(Compact(Decimal(n)))
            && Lookup(tags, "a") == Some(Compact("ed25519-sha256"))
            && Lookup(tags, "d") == Some(Compact(domain))
            && Lookup(tags, "s") == Some(Compact(selector))
            && Lookup(tags, "cv") == Some(Compact(CvText(cv)))
            && Lookup(tags, "b") == Some(Compact(sig))
            && Lookup(tags, "h") == None && Lookup(tags, "bh") == None && Lookup(tags, "t") == None
  {
    hide Decimal, CvText, Compact, Lookup, Compacted;
    var tags := Compacted(SealTags(n, domain, selector, cv) + [TagPair("b", sig)]);
    LookupAt(tags, "i", 0);
    LookupAt(tags, "a", 1);
    LookupAt(tags, "d", 2);
    LookupAt(tags, "s", 3);
    LookupAt(tags, "cv", 4);
    LookupAt(tags, "b", 5);
    LookupMissing(tags, "h");
    LookupMissing(tags, "bh");
    LookupMissing(tags, "t");
  }

  /** The seal header, trimmed by extraction, parses to its parameters and signature. */
  lemma {:induction false} SealReads(suite: Suite, n: nat, domain: string, selector: string, cv: ChainValidation,
      sig: bytes)
    requires Lawful(suite) && 1 <= n <= MAX_INSTANCE && ';' !in domain && ';' !in selector
    ensures ParseSeal(suite.decode64, Trimmed(SealTags(n, domain, selector, cv) + [TagPair("b", suite.encode64(sig))]))
            == Some(SealReading(n, domain, selector, cv, sig))
  {
    Base64Reads(suite, sig);
    var b := suite.encode64(sig);
    SealTagsPlain(n, domain, selector, cv, b);
    ParseTrimmed(SealTags(n, domain, selector, cv) + [TagPair("b", b)]);
    SealLookups(n, domain, selector, cv, b);
    InstanceReads(n);
    AlgorithmReads();
    CvReads(cv);
    hide Decimal, CvText, Compact, Lookup, ParseTags, Split, Trimmed, SealTags, ParseCv, ParseInstance,
      ParseAlgorithm;
  }

  // ----- the message signature -----

  /** A header name as it stands in `h=`: lower case, no separator, not an ARC header. */
  predicate PlainHeaderName(name: string) {
    && name != "" && name[0] != 'a'
    && forall i :: 0 <= i < |name| ==> 'a' <= name[i] <= 'z' || name[i] == '-'
  }

  lemma {:induction false} SignedHeadersPlain(name: string)
    requires name in SIGNED_HEADERS
    ensures PlainHeaderName(name)
  {
  }

  lemma {:induction false} PickedFromNames(fields: seq<Field>, used: seq<bool>, names: seq<string>)
    requires |fields| == |used|
    ensures forall n :: n in PickedNames(fields, used, names) ==> n in names
    decreases names
  {
    if names != [] {
      match LowestUnused(fields, used, names[0], |fields|)
      case None => PickedFromNames(fields, used, names[1..]);
      case Some(i) => PickedFromNames(fields, used[i := true], names[1..]);
    }
  }

  predicate PlainHeaderNames(names: seq<string>) {
    forall i :: 0 <= i < |names| ==> PlainHeaderName(names[i])
  }

  lemma {:induction false} PickedPlain(fields: seq<Field>)
    ensures PlainHeaderNames(PickedNames(fields, Unused(|fields|), SIGNED_HEADERS))
  {
    hide PickedNames;
    var names := PickedNames(fields, Unused(|fields|), SIGNED_HEADERS);
    PickedFromNames(fields, Unused(|fields|), SIGNED_HEADERS);
    forall i | 0 <= i < |names|
      ensures PlainHeaderName(names[i])
    {
      assert names[i] in names;
      SignedHeadersPlain(names[i]);
    }
  }

  predicate ListText(s: string) {
    forall i :: 0 <= i < |s| ==> 'a' <= s[i] <= 'z' || s[i] == '-' || s[i] == ':'
  }

  lemma {:induction false} JoinListText(names: seq<string>)
    requires names != [] && PlainHeaderNames(names)
    ensures ListText(Join(names, ':'))
  {
    if |names| > 1 {
      JoinListText(names[1..]);
    }
  }

  lemma {:induction false} LowerAllPlain(names: seq<string>)
    requires PlainHeaderNames(names)
    ensures LowerAll(names) == names
  {
    if names != [] {
      LowerAllPlain(names[1..]);
      assert Lower(names[0]) == names[0];
      assert names == [names[0]] + names[1..];
    }
  }

  /** The `h=` list reads back as the picked names and is accepted. */
  lemma {:induction false} NamesRead(names: seq<string>)
    requires names != [] && PlainHeaderNames(names)
    ensures LowerAll(Split(Compact(Join(names, ':')), ':')) == names
    ensures !CoversArc(names)
    ensures ';' !in Join(names, ':') && NoBreak(Join(names, ':'))
  {
    hide Compact, Split, Join, LowerAll;
    JoinListText(names);
    CompactIdentity(Join(names, ':'));
    forall p | p in names
      ensures ':' !in p
    {
      assert PlainHeaderName(p);
    }
    SplitJoin(names, ':');
    LowerAllPlain(names);
    forall i | 0 <= i < |names|
      ensures !("arc-" <= names[i])
    {
      assert PlainHeaderName(names[i]);
    }
  }

  lemma {:induction false} AmsTagsPlain(n: nat, domain: string, selector: string, names: seq<string>,
      bodyHash: string, sig: string)
    requires names != [] && ';' !in Join(names, ':')
    requires ';' !in domain && ';' !in selector && ';' !in bodyHash && ';' !in sig
    ensures PlainTags(AmsTags(n, domain, selector, names, bodyHash) + [TagPair("b", sig)])
    ensures PlainTags(AmsTags(n, domain, selector, names, bodyHash))
  {
    DecimalPlain(n);
    assert ';' !in "ed25519-sha256" && ';' !in "relaxed/relaxed" && ';' !in Decimal(n);
    hide Decimal, Join;
  }

  lemma {:induction false} AmsLookups(n: nat, domain: string, selector: string, names: seq<string>, bodyHash: string,
      sig: string)
    requires names != []
    ensures var tags := Compacted(AmsTags(n, domain, selector, names, bodyHash) + [TagPair("b", sig)]);
            && Lookup(tags, "i") == Some(Compact(Decimal(n)))
            && Lookup(tags, "a") == Some(Compact("ed25519-sha256"))
            && Lookup(tags, "c") == Some(Compact("relaxed/relaxed"))
            && Lookup(tags, "d") == Some(Compact(domain))
            && Lookup(tags, "s") == Some(Compact(selector))
            && Lookup(tags, "h") == Some(Compact(Join(names, ':')))
            && Lookup(tags, "bh") == Some(Compact(bodyHash))
            && Lookup(tags, "b") == Some(Compact(sig))
            && Lookup(tags, "t") == None
  {
    hide Decimal, Join, Compact, Lookup, Compacted;
    var tags := Compacted(AmsTags(n, domain, selector, names, bodyHash) + [TagPair("b", sig)]);
    LookupAt(tags, "i", 0);
    LookupAt(tags, "a", 1);
    LookupAt(tags, "c", 2);
    LookupAt(tags, "d", 3);
    LookupAt(tags, "s", 4);
    LookupAt(tags, "h", 5);
    LookupAt(tags, "bh", 6);
    LookupAt(tags, "b", 7);
    LookupMissing(tags, "t");
  }

  function AmsReading(n: nat, domain: string, selector: string, names: seq<string>, hash: bytes,
      sig: bytes): MessageSig {
    MessageSig(n, Ed25519Sha256, Lower(Compact(domain)), Lower(Compact(selector)), names, hash, sig, Relaxed, Relaxed,
        None)
  }

  /** The message-signature header parses back to its parameters, hash and signature. */
  lemma {:induction false} AmsReads(
      suite: Suite, n: nat, domain: string, selector: string, names: seq<string>, hash: bytes, sig: bytes)
    requires Lawful(suite) && 1 <= n <= MAX_INSTANCE && ';' !in domain && ';' !in selector
    requires "from" in names && PlainHeaderNames(names)
    ensures ParseMessageSignature(suite.decode64,
                                  Trimmed(AmsTags(n, domain, selector, names, suite.encode64(hash))
                                      + [TagPair("b", suite.encode64(sig))]))
            == Some(AmsReading(n, domain, selector, names, hash, sig))
  {
    hide Decimal, Compact, Lookup, ParseTags, Split, Trimmed, AmsTags, Join, LowerAll, ParseInstance, ParseAlgorithm,
      ParseModes;
    var bh, b := suite.encode64(hash), suite.encode64(sig);
    Base64Reads(suite, sig);
    Base64Reads(suite, hash);
    NamesRead(names);
    AmsTagsPlain(n, domain, selector, names, bh, b);
    ParseTrimmed(AmsTags(n, domain, selector, names, bh) + [TagPair("b", b)]);
    AmsLookups(n, domain, selector, names, bh, b);
    InstanceReads(n);
    AlgorithmReads();
    ModesRead();
  }
}
