/** ARC-Message-Signature: signing and verifying the message. */
module Ams {
  import opened Text
  import opened Utf8
  import opened Headers
  import opened Canon
  import opened Signature
  import opened Scheme

  const SIGNED_HEADERS: seq<string> := ["from", "to", "cc", "subject", "date", "message-id"]

  const AMS_NAME := "ARC-Message-Signature"

  datatype Field = Field(name: string, value: string)

  /** Unfolded fields split at their first colon; those without one are dropped. */
  function FieldPairs(fields: seq<string>): seq<Field> {
    if fields == [] then []
    else
      match SplitOnce(fields[0], ':')
      case None => FieldPairs(fields[1..])
      case Some((name, value)) => [Field(TrimEnd(name), value)] + FieldPairs(fields[1..])
  }

  /** The fields of a message; nothing when its header block is not UTF-8. */
  function MessageFields(raw: bytes): Option<seq<Field>> {
    match HeaderText(raw)
    case None => None
    case Some(block) => Some(FieldPairs(Fields(block)))
  }

  predicate Named(field: Field, name: string) {
    Lower(field.name) == Lower(name)
  }

  /** The last unused field called `name` among the first `n`. */
  function LowestUnused(fields: seq<Field>, used: seq<bool>, name: string, n: nat): (r: Option<nat>)
    requires n <= |fields| == |used|
    ensures r.Some? ==> r.value < n && !used[r.value] && Named(fields[r.value], name)
    ensures r.Some? ==> forall j :: r.value < j < n ==> used[j] || !Named(fields[j], name)
    ensures r.None? ==> forall j :: 0 <= j < n ==> used[j] || !Named(fields[j], name)
  {
    if n == 0 then None
    else if !used[n - 1] && Named(fields[n - 1], name) then Some(n - 1)
    else LowestUnused(fields, used, name, n - 1)
  }

  /** The canonical fields picked bottom-up for `names`, each field at most once. */
  function PickedText(mode: Mode, fields: seq<Field>, used: seq<bool>, names: seq<string>): string
    requires |fields| == |used|
    decreases names
  {
    if names == [] then ""
    else
      match LowestUnused(fields, used, names[0], |fields|)
      case None => PickedText(mode, fields, used, names[1..])
      case Some(i) =>
        CanonHeader(mode, fields[i].name, fields[i].value) + PickedText(mode, fields, used[i := true], names[1..])
  }

  /** The names for which a field was found. */
  function PickedNames(fields: seq<Field>, used: seq<bool>, names: seq<string>): seq<string>
    requires |fields| == |used|
    decreases names
  {
    if names == [] then []
    else
      match LowestUnused(fields, used, names[0], |fields|)
      case None => PickedNames(fields, used, names[1..])
      case Some(i) => [names[0]] + PickedNames(fields, used[i := true], names[1..])
  }

  function Unused(n: nat): (r: seq<bool>)
    ensures |r| == n && forall i :: 0 <= i < n ==> !r[i]
  {
    seq(n, _ => false)
  }

  /** The tags before `b=`. */
  function AmsTags(instance: nat, domain: string, selector: string, names: seq<string>, bodyHash: string): seq<TagPair>
    requires names != []
  {
    [TagPair("i", Decimal(instance)), TagPair("a", "ed25519-sha256"), TagPair("c", "relaxed/relaxed"),
     TagPair("d", domain), TagPair("s", selector), TagPair("h", Join(names, ':')), TagPair("bh", bodyHash)]
  }

  /** The text an AMS signs: the picked fields, then its own line with an empty `b=`. */
  function HashInput(mode: Mode, fields: seq<Field>, names: seq<string>, stripped: string): string {
    PickedText(mode, fields, Unused(|fields|), names) + CanonLine(mode, AMS_NAME, stripped)
  }

  /** The value of the new AMS header; nothing when the message has no From. */
  function AmsValue(suite: Suite, key: Key, instance: nat, domain: string, selector: string,
      raw: bytes): Option<string> {
    match MessageFields(raw)
    case None => None
    case Some(fields) =>
      var bodyHash := suite.encode64(suite.digest(suite.canonBody(Relaxed, Body(raw))));
      var names := PickedNames(fields, Unused(|fields|), SIGNED_HEADERS);
      if "from" !in names then None
      else
        var tags := AmsTags(instance, domain, selector, names, bodyHash);
        var input := HashInput(Relaxed, fields, SIGNED_HEADERS, Render(tags + [TagPair("b", "")]));
        Some(Render(tags + [TagPair("b", suite.encode64(suite.sign(key, Encode(input))))]))
  }

  function HeaderLine(name: string, value: string): string {
    name + ":" + value + CRLF
  }

  function VerifyAms(suite: Suite, dns: Dns, ams: MessageSig, rawValue: string, raw: bytes): Outcome {
    match MessageFields(raw)
    case None => PermError
    case Some(fields) =>
      if suite.digest(suite.canonBody(ams.bodyCanon, Body(raw))) != ams.bodyHash then Fail
      else
        CheckSignature(suite, dns, ams.selector, ams.domain,
                       HashInput(ams.headerCanon, fields, ams.signedHeaders, StripB(rawValue)), ams.signature)
  }

  // ----- the loops of the source -----

  method ReadMessageFields(raw: bytes) returns (r: Option<seq<Field>>)
    ensures r == MessageFields(raw)
  {
    var text := HeaderText(raw);
    if text.None? {
      return None;
    }
    var fields := SplitFields(text.value);
    r := Some(fields);
  }

  lemma {:induction false} FieldPairsPush(acc: seq<Field>, line: string, rest: seq<string>)
    ensures acc + FieldPairs([line] + rest) == acc + FieldPairs([line]) + FieldPairs(rest)
  {
    FieldPairsCons(line, rest);
    hide FieldPairs;
  }

  lemma {:induction false} FieldPairsCons(line: string, rest: seq<string>)
    ensures FieldPairs([line] + rest) == FieldPairs([line]) + FieldPairs(rest)
  {
    hide SplitOnce, TrimEnd;
    assert ([line] + rest)[1..] == rest;
    assert [line][1..] == [] && FieldPairs([]) == [];
  }

  method SplitFields(block: string) returns (fields: seq<Field>)
    ensures fields == FieldPairs(Fields(block))
  {
    var lines := Lines(block);
    fields := [];
    var current: Option<string> := None;
    ghost var goal := FieldPairs(Unfold(lines, None));
    assert lines[0..] == lines;
    for n := 0 to |lines|
      invariant goal == fields + FieldPairs(Unfold(lines[n..], current))
    {
      var content := lines[n];
      assert content == lines[n..][0] && lines[n..][1..] == lines[n + 1..];
      if Folded(content) {
        if current.Some? {
          current := Some(current.value + content);
        }
      } else {
        ghost var rest := Unfold(lines[n + 1..], Begin(content));
        if current.Some? {
          FieldPairsPush(fields, current.value, rest);
          fields := fields + FieldPairs([current.value]);
        } else {
          assert Flush(current) + rest == rest;
        }
        current := if content != "" then Some(content) else None;
      }
    }
    assert lines[|lines|..] == [];
    if current.Some? {
      fields := fields + FieldPairs([current.value]);
    }
  }

  /** Picks the fields to sign bottom-up, marking each one used. */
  method PickFields(mode: Mode, fields: seq<Field>, names: seq<string>) returns (picked: seq<string>, input: string)
    ensures picked == PickedNames(fields, Unused(|fields|), names)
    ensures input == PickedText(mode, fields, Unused(|fields|), names)
  {
    hide CanonHeader, LowestUnused;
    var used := new bool[|fields|](_ => false);
    picked, input := [], "";
    assert used[..] == Unused(|fields|) && names[0..] == names;
    for n := 0 to |names|
      invariant PickedNames(fields, Unused(|fields|), names) == picked + PickedNames(fields, used[..], names[n..])
      invariant PickedText(mode, fields, Unused(|fields|), names)
          == input + PickedText(mode, fields, used[..], names[n..])
    {
      var index := LowestUnused(fields, used[..], names[n], |fields|);
      assert names[n] == names[n..][0] && names[n..][1..] == names[n + 1..];
      if index.Some? {
        ghost var before := used[..];
        used[index.value] := true;
        assert used[..] == before[index.value := true];
        picked := picked + [names[n]];
        input := input + CanonHeader(mode, fields[index.value].name, fields[index.value].value);
      }
    }
  }

  // ----- lemmas -----

  lemma {:induction false} LowestUnusedPrepend(
      more: seq<Field>, marks: seq<bool>, fields: seq<Field>, used: seq<bool>, name: string, n: nat)
    requires |more| == |marks| && n <= |fields| == |used|
    requires LowestUnused(fields, used, name, n).Some?
    ensures LowestUnused(more + fields, marks + used, name, |more| + n)
            == Some(|more| + LowestUnused(fields, used, name, n).value)
  {
    if !(!used[n - 1] && Named(fields[n - 1], name)) {
      LowestUnusedPrepend(more, marks, fields, used, name, n - 1);
    }
  }

  lemma {:induction false} PickedFirst(mode: Mode, fields: seq<Field>, used: seq<bool>, name: string,
      rest: seq<string>, i: nat)
    requires |fields| == |used| && LowestUnused(fields, used, name, |fields|) == Some(i)
    ensures PickedText(mode, fields, used, [name] + rest)
            == CanonHeader(mode, fields[i].name, fields[i].value) + PickedText(mode, fields, used[i := true], rest)
  {
    assert ([name] + rest)[1..] == rest;
  }

  /** Fields prepended after signing, whatever their names, do not change what the signed names pick. */
  lemma {:induction false} PickedPrepend(
      mode: Mode, more: seq<Field>, marks: seq<bool>, fields: seq<Field>, used: seq<bool>, names: seq<string>)
    requires |more| == |marks| && |fields| == |used|
    ensures PickedText(mode, more + fields, marks + used, PickedNames(fields, used, names))
            == PickedText(mode, fields, used, names)
    decreases names
  {
    hide CanonHeader, LowestUnused;
    if names != [] {
      match LowestUnused(fields, used, names[0], |fields|)
      case None => PickedPrepend(mode, more, marks, fields, used, names[1..]);
      case Some(i) =>
        LowestUnusedPrepend(more, marks, fields, used, names[0], |fields|);
        PickedPrepend(mode, more, marks, fields, used[i := true], names[1..]);
        assert (marks + used)[|more| + i := true] == marks + used[i := true];
        assert (more + fields)[|more| + i] == fields[i];
        PickedFirst(mode, more + fields, marks + used, names[0], PickedNames(fields, used[i := true], names[1..]),
            |more| + i);
    }
  }

  lemma {:induction false} FieldPairsAppend(a: seq<string>, b: seq<string>)
    ensures FieldPairs(a + b) == FieldPairs(a) + FieldPairs(b)
  {
    if a == [] {
      assert a + b == b;
    } else {
      assert (a + b)[1..] == a[1..] + b;
      FieldPairsAppend(a[1..], b);
    }
  }

  /** Prepended header lines put their fields in front. */
  lemma {:induction false} MessageFieldsPrepend(p: bytes, m: bytes)
    requires HeaderLines(p) && StartsField(m)
    requires Decode(p).Some? && MessageFields(m).Some?
    ensures MessageFields(p + m) == Some(FieldPairs(Fields(Decode(p).value)) + MessageFields(m).value)
  {
    FieldsPrepend(p, m);
    FieldPairsAppend(Fields(Decode(p).value), Fields(HeaderText(m).value));
  }
}
