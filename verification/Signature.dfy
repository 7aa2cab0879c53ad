/** Parsing and rendering of the tag lists in ARC headers (sections 4.1.2 and 4.1.3 of RFC 8617). */
module Signature {
  import opened Text
  import opened Utf8
  import opened Canon
  import opened Chain

  datatype Algorithm = RsaSha256 | Ed25519Sha256

  datatype TagPair = TagPair(name: string, val: string)

  datatype MessageSig = MessageSig(
    instance: nat, algorithm: Algorithm, domain: string, selector: string,
    signedHeaders: seq<string>, bodyHash: bytes, signature: bytes,
    headerCanon: Mode, bodyCanon: Mode, timestamp: Option<nat>)

  datatype SealSig = SealSig(
    instance: nat, algorithm: Algorithm, domain: string, selector: string,
    chainValidation: ChainValidation, signature: bytes, timestamp: Option<nat>)

  /** Tag pairs in encounter order, blank pieces skipped; nothing when a piece has no `=`. */
  function ParseTags(parts: seq<string>): Option<seq<TagPair>> {
    if parts == [] then Some([])
    else
      var tag := Trim(parts[0]);
      if tag == "" then ParseTags(parts[1..])
      else
        match SplitOnce(tag, '=')
        case None => None
        case Some((name, raw)) =>
          match ParseTags(parts[1..])
          case None => None
          case Some(rest) => Some([TagPair(Lower(Trim(name)), Compact(raw))] + rest)
  }

  /** The loop of `Tags::parse`. */
  method ReadTags(value: string) returns (r: Option<seq<TagPair>>)
    ensures r == ParseTags(Split(value, ';'))
  {
    var parts := Split(value, ';');
    var tags: seq<TagPair> := [];
    ghost var goal := ParseTags(parts);
    assert parts[0..] == parts;
    assert goal.Some? ==> [] + goal.value == goal.value;
    for n := 0 to |parts|
      invariant goal == Behind(tags, ParseTags(parts[n..]))
    {
      var tag := Trim(parts[n]);
      assert parts[n] == parts[n..][0] && parts[n..][1..] == parts[n + 1..];
      if tag != "" {
        match SplitOnce(tag, '=') {
          case None => return None;
          case Some((name, raw)) =>
            var pair := TagPair(Lower(Trim(name)), Compact(raw));
            if ParseTags(parts[n + 1..]).Some? {
              assert tags + ([pair] + ParseTags(parts[n + 1..]).value)
                  == tags + [pair] + ParseTags(parts[n + 1..]).value;
            }
            tags := tags + [pair];
        }
      }
    }
    assert tags + [] == tags;
    r := Some(tags);
  }

  ghost function Behind(tags: seq<TagPair>, rest: Option<seq<TagPair>>): Option<seq<TagPair>> {
    if rest.Some? then Some(tags + rest.value) else None
  }

  function Lookup(tags: seq<TagPair>, key: string): Option<string> {
    if tags == [] then None
    else if tags[0].name == key then Some(tags[0].val)
    else Lookup(tags[1..], key)
  }

  function ParseInstance(text: string): Option<nat> {
    match ParseUnsigned(text, MAX_U32)
    case None => None
    case Some(n) => if n == 0 || n > MAX_INSTANCE then None else Some(n)
  }

  function ParseAlgorithm(text: string): Option<Algorithm> {
    if text == "rsa-sha256" then Some(RsaSha256)
    else if text == "ed25519-sha256" then Some(Ed25519Sha256)
    else None
  }

  function ParseMode(text: string): Option<Mode> {
    if text == "simple" then Some(Simple)
    else if text == "relaxed" then Some(Relaxed)
    else None
  }

  /** The `c=` tag: header and body mode, the body simple when not given. */
  function ParseModes(c: Option<string>): Option<(Mode, Mode)> {
    if c.None? then Some((Simple, Simple))
    else
      var (header, body) := match SplitOnce(c.value, '/')
                            case None => (c.value, "simple")
                            case Some(pair) => pair;
      match (ParseMode(header), ParseMode(body))
      case (Some(h), Some(b)) => Some((h, b))
      case _ => None
  }

  /** The `t=` tag: absent, a number, or an error. */
  function ParseTimestamp(t: Option<string>): Option<Option<nat>> {
    if t.None? then Some(None)
    else
      match ParseUnsigned(t.value, MAX_U64)
      case None => None
      case Some(n) => Some(Some(n))
  }

  function LowerAll(names: seq<string>): (r: seq<string>)
    ensures |r| == |names|
  {
    if names == [] then [] else [Lower(names[0])] + LowerAll(names[1..])
  }

  predicate CoversArc(names: seq<string>) {
    exists i :: 0 <= i < |names| && "arc-" <= names[i]
  }

  function ParseMessageSignature(decode64: string -> Option<bytes>, value: string): Option<MessageSig> {
    match ParseTags(Split(value, ';'))
    case None => None
    case Some(tags) =>
      match (Lookup(tags, "i"), Lookup(tags, "a"), Lookup(tags, "h"), Lookup(tags, "d"),
             Lookup(tags, "s"), Lookup(tags, "bh"), Lookup(tags, "b"))
      case (Some(i), Some(a), Some(h), Some(d), Some(s), Some(bh), Some(b)) =>
        var signed := LowerAll(Split(h, ':'));
        if "from" !in signed || CoversArc(signed) then None
        else
          (match (ParseInstance(i), ParseAlgorithm(a), ParseModes(Lookup(tags, "c")),
                  decode64(bh), decode64(b), ParseTimestamp(Lookup(tags, "t")))
           case (Some(instance), Some(algorithm), Some((hc, bc)), Some(hash), Some(sig), Some(t)) =>
             Some(MessageSig(instance, algorithm, Lower(d), Lower(s), signed, hash, sig, hc, bc, t))
           case _ => None)
      case _ => None
  }

  function ParseSeal(decode64: string -> Option<bytes>, value: string): Option<SealSig> {
    match ParseTags(Split(value, ';'))
    case None => None
    case Some(tags) =>
      if Lookup(tags, "h").Some? || Lookup(tags, "bh").Some? then None
      else
        match (Lookup(tags, "cv"), Lookup(tags, "i"), Lookup(tags, "a"), Lookup(tags, "d"),
               Lookup(tags, "s"), Lookup(tags, "b"))
        case (Some(cv), Some(i), Some(a), Some(d), Some(s), Some(b)) =>
          (match (ParseCv(cv), ParseInstance(i), ParseAlgorithm(a), decode64(b), ParseTimestamp(Lookup(tags, "t")))
           case (Some(v), Some(instance), Some(algorithm), Some(sig), Some(t)) =>
             Some(SealSig(instance, algorithm, Lower(d), Lower(s), v, sig, t))
           case _ => None)
        case _ => None
  }

  // ----- rendering -----

  function Part(tag: TagPair): string {
    " " + tag.name + "=" + tag.val
  }

  function Parts(tags: seq<TagPair>): (r: seq<string>)
    ensures |r| == |tags|
  {
    if tags == [] then [] else [Part(tags[0])] + Parts(tags[1..])
  }

  /** ` a=x; b=y`: the layout of the built headers. */
  function Render(tags: seq<TagPair>): string
    requires tags != []
  {
    Join(Parts(tags), ';')
  }

  /** `Render` without its leading space, as extraction hands it back. */
  function Trimmed(tags: seq<TagPair>): string
    requires tags != []
  {
    Join([Part(tags[0])[1..]] + Parts(tags[1..]), ';')
  }

  /** Removes the value of a `b=` piece, keeping the tag. */
  function StripPart(part: string): string {
    var trimmed := TrimStart(part);
    if "b=" <= trimmed then part[..|part| - |trimmed|] + "b=" else part
  }

  function StripParts(parts: seq<string>): (r: seq<string>)
    ensures |r| == |parts|
  {
    if parts == [] then [] else [StripPart(parts[0])] + StripParts(parts[1..])
  }

  function StripB(value: string): string {
    Join(StripParts(Split(value, ';')), ';')
  }

  predicate PlainName(name: string) {
    name != "" && forall i :: 0 <= i < |name| ==> 'a' <= name[i] <= 'z'
  }

  predicate PlainTags(tags: seq<TagPair>) {
    forall i :: 0 <= i < |tags| ==> PlainName(tags[i].name) && ';' !in tags[i].val
  }

  function Compacted(tags: seq<TagPair>): (r: seq<TagPair>)
    ensures |r| == |tags|
    ensures forall i :: 0 <= i < |tags| ==> r[i] == TagPair(tags[i].name, Compact(tags[i].val))
  {
    if tags == [] then [] else [TagPair(tags[0].name, Compact(tags[0].val))] + Compacted(tags[1..])
  }

  lemma {:induction false} PlainLower(name: string)
    requires forall i :: 0 <= i < |name| ==> 'a' <= name[i] <= 'z'
    ensures Lower(name) == name
  {
  }

  lemma {:induction false} PlainTrim(name: string)
    requires name != "" && forall i :: 0 <= i < |name| ==> !IsWhitespace(name[i])
    ensures Trim(name) == name
  {
  }

  /** A rendered piece reads back as its name and compacted value. */
  lemma {:induction false} ParsePart(ws: string, name: string, val: string)
    requires PlainName(name) && (ws == "" || ws == " ")
    ensures var tag := Trim(ws + name + "=" + val);
            && tag != ""
            && SplitOnce(tag, '=').Some?
            && Lower(Trim(SplitOnce(tag, '=').value.0)) == name
            && Compact(SplitOnce(tag, '=').value.1) == Compact(val)
  {
    assert ws + name + "=" + val == ws + (name + "=" + val);
    TrimStartAppend(ws, name + "=" + val);
    assert name + "=" + val == (name + "=") + val;
    TrimEndAppend(name + "=", val);
    var tag := Trim(ws + name + "=" + val);
    assert tag == name + ['='] + TrimEnd(val);
    SplitOnceAppend(name, '=', TrimEnd(val));
    CompactTrimEnd(val);
    PlainTrim(name);
    PlainLower(name);
  }

  lemma {:induction false} ParseStep(part: string, name: string, val: string, rest: seq<string>, pairs: seq<TagPair>)
    requires PlainName(name) && (part == " " + name + "=" + val || part == "" + name + "=" + val)
    requires ParseTags(rest) == Some(pairs)
    ensures ParseTags([part] + rest) == Some([TagPair(name, Compact(val))] + pairs)
  {
    if part == " " + name + "=" + val {
      ParsePart(" ", name, val);
    } else {
      ParsePart("", name, val);
    }
    assert ([part] + rest)[1..] == rest;
  }

  lemma {:induction false} ParseParts(tags: seq<TagPair>)
    requires PlainTags(tags)
    ensures ParseTags(Parts(tags)) == Some(Compacted(tags))
  {
    if tags != [] {
      ParseParts(tags[1..]);
      ParseStep(Part(tags[0]), tags[0].name, tags[0].val, Parts(tags[1..]), Compacted(tags[1..]));
    }
  }

  lemma {:induction false} PartsClean(tags: seq<TagPair>)
    requires PlainTags(tags)
    ensures forall p :: p in Parts(tags) ==> ';' !in p
  {
    if tags != [] {
      PartsClean(tags[1..]);
      assert ';' !in Part(tags[0]);
    }
  }

  lemma {:induction false} SplitTrimmed(tags: seq<TagPair>)
    requires tags != [] && PlainTags(tags)
    ensures Split(Trimmed(tags), ';') == [Part(tags[0])[1..]] + Parts(tags[1..])
  {
    PartsClean(tags);
    PartsClean(tags[1..]);
    assert Part(tags[0]) in Parts(tags);
    SplitJoin([Part(tags[0])[1..]] + Parts(tags[1..]), ';');
  }

  /** Reading a rendered tag list gives the tags back. */
  lemma {:induction false} ParseTrimmed(tags: seq<TagPair>)
    requires tags != [] && PlainTags(tags)
    ensures ParseTags(Split(Trimmed(tags), ';')) == Some(Compacted(tags))
  {
    hide ParseTags, Split, Trimmed;
    SplitTrimmed(tags);
    ParseParts(tags[1..]);
    assert Part(tags[0])[1..] == "" + tags[0].name + "=" + tags[0].val;
    ParseStep(Part(tags[0])[1..], tags[0].name, tags[0].val, Parts(tags[1..]), Compacted(tags[1..]));
  }

  /** Trimming the start of the built value removes exactly its leading space. */
  lemma {:induction false} RenderTrimmed(tags: seq<TagPair>)
    requires tags != [] && PlainTags(tags)
    ensures Render(tags) == " " + Trimmed(tags)
    ensures Trimmed(tags) != "" && !IsWhitespace(Trimmed(tags)[0])
    ensures TrimStart(Render(tags)) == Trimmed(tags)
  {
    var first := Part(tags[0])[1..];
    var parts := [first] + Parts(tags[1..]);
    assert Part(tags[0]) == " " + first;
    assert parts[1..] == Parts(tags)[1..];
    assert first[0] == tags[0].name[0];
    TrimStartAppend(" ", Trimmed(tags));
  }

  // ----- stripping -----

  lemma {:induction false} StripOther(ws: string, tag: TagPair)
    requires PlainName(tag.name) && tag.name != "b" && (ws == "" || ws == " ")
    ensures StripPart(ws + tag.name + "=" + tag.val) == ws + tag.name + "=" + tag.val
  {
    var rest := tag.name + "=" + tag.val;
    assert ws + tag.name + "=" + tag.val == ws + rest;
    TrimStartAppend(ws, rest);
    assert rest[0] == tag.name[0];
    if |tag.name| > 1 {
      assert rest[1] == tag.name[1];
    } else {
      assert tag.name == [tag.name[0]];
    }
  }

  lemma {:induction false} StripSignature(sig: string)
    ensures StripPart(" b=" + sig) == " b="
  {
    var rest := "b=" + sig;
    assert " b=" + sig == " " + rest;
    TrimStartAppend(" ", rest);
    assert "b=" <= rest;
  }

  lemma {:induction false} StripPartsPlain(tags: seq<TagPair>, sig: string)
    requires PlainTags(tags) && forall i :: 0 <= i < |tags| ==> tags[i].name != "b"
    ensures StripParts(Parts(tags + [TagPair("b", sig)])) == Parts(tags + [TagPair("b", "")])
  {
    var all, none := tags + [TagPair("b", sig)], tags + [TagPair("b", "")];
    if tags == [] {
      StripSignature(sig);
      assert Part(all[0]) == " b=" + sig;
      assert Part(none[0]) == " b=";
      assert all[1..] == [] && none[1..] == [];
      assert Parts(all)[1..] == [];
    } else {
      StripPartsPlain(tags[1..], sig);
      StripOther(" ", tags[0]);
      assert all[1..] == tags[1..] + [TagPair("b", sig)];
      assert none[1..] == tags[1..] + [TagPair("b", "")];
      assert Parts(all)[1..] == Parts(all[1..]);
    }
  }

  lemma {:induction false} StripTrimmedParts(tags: seq<TagPair>, sig: string)
    requires tags != [] && PlainTags(tags) && forall i :: 0 <= i < |tags| ==> tags[i].name != "b"
    ensures StripParts([Part(tags[0])[1..]] + Parts(tags[1..] + [TagPair("b", sig)]))
            == [Part(tags[0])[1..]] + Parts(tags[1..] + [TagPair("b", "")])
  {
    StripPartsPlain(tags[1..], sig);
    var first := Part(tags[0])[1..];
    assert first == "" + tags[0].name + "=" + tags[0].val;
    StripOther("", tags[0]);
    var rest := Parts(tags[1..] + [TagPair("b", sig)]);
    assert ([first] + rest)[1..] == rest;
  }

  /** Stripping `b=` from the signed header undoes appending the signature. */
  lemma {:induction false} StripUndoesSigning(tags: seq<TagPair>, sig: string)
    requires tags != [] && PlainTags(tags) && ';' !in sig
    requires forall i :: 0 <= i < |tags| ==> tags[i].name != "b"
    ensures StripB(Trimmed(tags + [TagPair("b", sig)])) == Trimmed(tags + [TagPair("b", "")])
  {
    var all, none := tags + [TagPair("b", sig)], tags + [TagPair("b", "")];
    assert all[0] == tags[0] && all[1..] == tags[1..] + [TagPair("b", sig)];
    assert none[0] == tags[0] && none[1..] == tags[1..] + [TagPair("b", "")];
    SplitTrimmed(all);
    StripTrimmedParts(tags, sig);
  }
}
