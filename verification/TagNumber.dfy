/** Two readers of tag lists agree on values without white space: extraction's and the signature parser's. */
module TagNumber {
  import opened Text
  import opened Utf8
  import opened Chain
  import opened Signature

  /** The header's `i=` tag holds the number it was filed under. */
  predicate FiledRight(h: RawHeader) {
    match Tag(h.value, "i")
    case None => false
    case Some(t) => ParseUnsigned(t, MAX_U32) == Some(h.instance)
  }

  lemma {:induction false} ArcFieldsFiled(fields: seq<string>)
    requires ArcFields(fields).Ok?
    ensures forall h :: h in ArcFields(fields).value ==> FiledRight(h)
  {
    if fields != [] {
      ArcFieldsFiled(fields[1..]);
    }
  }

  lemma {:induction false} TrimStartBefore(a: string, b: string)
    requires b != "" && !IsWhitespace(b[0])
    ensures TrimStart(a + b) == TrimStart(a) + b
  {
    if a == "" {
      assert a + b == b;
    } else if IsWhitespace(a[0]) {
      assert (a + b)[1..] == a[1..] + b;
      TrimStartBefore(a[1..], b);
    }
  }

  lemma {:induction false} TrimStartTwice(s: string)
    ensures TrimStart(TrimStart(s)) == TrimStart(s)
    ensures forall c :: c in TrimStart(s) ==> c in s
  {
    if s != "" && IsWhitespace(s[0]) {
      TrimStartTwice(s[1..]);
    }
  }

  lemma {:induction false} CompactTrimStart(s: string)
    ensures Compact(TrimStart(s)) == Compact(s)
  {
    if s != "" && IsWhitespace(s[0]) {
      CompactTrimStart(s[1..]);
    }
  }

  /** Splitting a trimmed piece at `=` is trimming the outer ends of the split piece. */
  lemma {:induction false} SplitTrimmedPiece(name: string, value: string)
    requires '=' !in name
    ensures var tag := Trim(name + ['='] + value);
            tag != "" && SplitOnce(tag, '=') == Some((TrimStart(name), TrimEnd(value)))
  {
    assert name + ['='] + value == name + (['='] + value);
    TrimStartBefore(name, ['='] + value);
    var front := TrimStart(name) + ['='];
    assert TrimStart(name) + (['='] + value) == front + value;
    TrimEndAppend(front, value);
    TrimStartTwice(name);
    SplitOnceAppend(TrimStart(name), '=', TrimEnd(value));
  }

  predicate NumberText(s: string) {
    s != "" && forall i :: 0 <= i < |s| ==> '0' <= s[i] <= '9' || s[i] == '+'
  }

  lemma {:induction false} NumberTexts(s: string, max: nat)
    requires ParseUnsigned(s, max).Some?
    ensures NumberText(s)
  {
    if s[0] == '+' {
      assert forall i :: 0 < i < |s| ==> s[i] == s[1..][i - 1];
    }
  }

  predicate Solid(s: string) {
    forall i :: 0 <= i < |s| ==> !IsWhitespace(s[i])
  }

  lemma {:induction false} CompactValue(value: string)
    requires Solid(Trim(value))
    ensures Compact(TrimEnd(value)) == Trim(value)
  {
    CompactIdentity(Trim(value));
    CompactTrimEnd(TrimStart(value));
    CompactTrimStart(value);
    CompactTrimEnd(value);
  }

  /** A value without white space is the same to both readers. */
  lemma {:induction false} SameTagIn(parts: seq<string>, key: string)
    requires Lower(key) == key && TagIn(parts, key).Some? && Solid(TagIn(parts, key).value)
    requires ParseTags(parts).Some?
    ensures Lookup(ParseTags(parts).value, key) == TagIn(parts, key)
  {
    hide Lower, Trim, Compact, IsWhitespace, Solid;
    match SplitOnce(parts[0], '=')
    case None =>
      BlankPiece(parts[0]);
      SameTagIn(parts[1..], key);
    case Some((name, value)) =>
      assert parts[0] == name + ['='] + value;
      SplitTrimmedPiece(name, value);
      NameAgrees(name);
      if Lower(Trim(name)) == key {
        CompactValue(value);
      } else {
        SameTagIn(parts[1..], key);
      }
  }

  lemma {:induction false} NameAgrees(name: string)
    ensures Lower(Trim(TrimStart(name))) == Lower(Trim(name))
  {
    TrimStartTwice(name);
  }

  lemma {:induction false} BlankPiece(piece: string)
    requires SplitOnce(piece, '=').None?
    ensures SplitOnce(Trim(piece), '=').None?
  {
    TrimStartTwice(piece);
    TrimEndWithin(TrimStart(piece));
  }

  lemma {:induction false} TrimEndWithin(s: string)
    ensures forall c :: c in TrimEnd(s) ==> c in s
  {
    if s != "" && IsWhitespace(s[|s| - 1]) {
      TrimEndWithin(s[..|s| - 1]);
    }
  }

  /** A seal that parses carries the instance number it was filed under. */
  lemma {:induction false} SealNumber(decode64: string -> Option<bytes>, h: RawHeader)
    requires FiledRight(h) && ParseSeal(decode64, h.value).Some?
    ensures ParseSeal(decode64, h.value).value.instance == h.instance
  {
    hide Split, ParseTags, TagIn, Lookup, ParseUnsigned, ParseCv, ParseAlgorithm, ParseTimestamp, Solid;
    var parts := Split(h.value, ';');
    SolidNumber(TagIn(parts, "i").value, MAX_U32);
    assert Lower("i") == "i";
    SameTagIn(parts, "i");
  }

  lemma {:induction false} SolidNumber(s: string, max: nat)
    requires ParseUnsigned(s, max).Some?
    ensures Solid(s)
  {
    NumberTexts(s, max);
  }

  lemma {:induction false} TrimEndTwice(s: string)
    ensures TrimEnd(TrimEnd(s)) == TrimEnd(s)
  {
    if s != "" && IsWhitespace(s[|s| - 1]) {
      TrimEndTwice(s[..|s| - 1]);
    }
  }

  lemma {:induction false} TrimTwice(s: string)
    ensures Trim(Trim(s)) == Trim(s)
  {
    var t := TrimStart(s);
    TrimStartTwice(s);
    TrimEndTwice(t);
    TrimEndPrefix(t);
    if TrimEnd(t) != "" {
      assert TrimEnd(t)[0] == t[0];
    }
  }

  lemma {:induction false} TrimEndPrefix(s: string)
    ensures TrimEnd(s) <= s
    ensures s != "" && !IsWhitespace(s[0]) ==> TrimEnd(s) != ""
  {
    if s != "" && IsWhitespace(s[|s| - 1]) {
      TrimEndPrefix(s[..|s| - 1]);
    }
  }

  lemma {:induction false} TagTrimmed(parts: seq<string>, key: string)
    requires TagIn(parts, key).Some?
    ensures Trim(TagIn(parts, key).value) == TagIn(parts, key).value
  {
    hide Trim, Lower;
    match SplitOnce(parts[0], '=')
    case None => TagTrimmed(parts[1..], key);
    case Some((name, value)) =>
      if Lower(Trim(name)) == Lower(key) {
        TrimTwice(value);
      } else {
        TagTrimmed(parts[1..], key);
      }
  }

  lemma {:induction false} SolidCv(t: string)
    requires Trim(t) == t && ParseCv(t).Some?
    ensures Solid(t)
  {
    var lower := Lower(t);
    assert forall i :: 0 <= i < |t| ==> lower[i] == LowerChar(t[i]);
    assert forall i :: 0 <= i < |lower| ==> 'a' <= lower[i] <= 'z';
  }

  /** A domain without white space that extraction's reader finds in a seal that parses is the seal's. */
  lemma {:induction false} SealDomain(decode64: string -> Option<bytes>, value: string)
    requires ParseSeal(decode64, value).Some?
    requires Tag(value, "d").Some? && Solid(Tag(value, "d").value)
    ensures Lower(Tag(value, "d").value) == ParseSeal(decode64, value).value.domain
  {
    hide Split, ParseTags, TagIn, Lookup, ParseUnsigned, ParseCv, ParseAlgorithm, ParseTimestamp, Solid,
      ParseInstance;
    assert Lower("d") == "d";
    SameTagIn(Split(value, ';'), "d");
  }

  /** Where extraction's reader finds a `cv`, a seal that parses records the same. */
  lemma {:induction false} SealCv(decode64: string -> Option<bytes>, value: string)
    requires ParseSeal(decode64, value).Some?
    requires Tag(value, "cv").Some? && ParseCv(Tag(value, "cv").value).Some?
    ensures ParseCv(Tag(value, "cv").value) == Some(ParseSeal(decode64, value).value.chainValidation)
  {
    hide Split, ParseTags, TagIn, Lookup, ParseUnsigned, ParseCv, ParseAlgorithm, ParseTimestamp, Solid,
      ParseInstance;
    var parts := Split(value, ';');
    TagTrimmed(parts, "cv");
    SolidCv(TagIn(parts, "cv").value);
    assert Lower("cv") == "cv";
    SameTagIn(parts, "cv");
  }

  // ----- extraction's reader on rendered tags -----

  lemma {:induction false} TagInPart(ws: string, tag: TagPair, rest: seq<string>, key: string)
    requires PlainName(tag.name) && (ws == "" || ws == " ") && Lower(key) == key
    ensures TagIn([ws + tag.name + "=" + tag.val] + rest, key) ==
            if tag.name == key then Some(Trim(tag.val)) else TagIn(rest, key)
  {
    hide SplitOnce, TrimEnd;
    var part := ws + tag.name + "=" + tag.val;
    assert part == (ws + tag.name) + ['='] + tag.val;
    assert ([part] + rest)[1..] == rest;
    SplitOnceAppend(ws + tag.name, '=', tag.val);
    PlainTrim(tag.name);
    PlainLower(tag.name);
    TrimStartAppend(ws, tag.name);
  }

  lemma {:induction false} TagInParts(tags: seq<TagPair>, key: string)
    requires PlainTags(tags) && Lower(key) == key
    ensures TagIn(Parts(tags), key) ==
            match Lookup(tags, key) case None => None case Some(val) => Some(Trim(val))
  {
    hide Trim, Lower, SplitOnce;
    if tags != [] {
      TagInParts(tags[1..], key);
      TagInPart(" ", tags[0], Parts(tags[1..]), key);
    }
  }

  /** It finds the first tag of a name and trims its value. */
  lemma {:induction false} TagRendered(tags: seq<TagPair>, key: string)
    requires tags != [] && PlainTags(tags) && Lower(key) == key
    ensures Tag(Trimmed(tags), key) ==
            match Lookup(tags, key) case None => None case Some(val) => Some(Trim(val))
  {
    hide Trim, Lower, SplitOnce, Split, Trimmed, TagIn;
    SplitTrimmed(tags);
    TagInParts(tags[1..], key);
    assert Part(tags[0])[1..] == "" + tags[0].name + "=" + tags[0].val;
    TagInPart("", tags[0], Parts(tags[1..]), key);
  }
}
