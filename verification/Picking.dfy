/** Which fields a list of signed names stands for, repeated names included (section 5.4.2 of RFC 6376). */
module Picking {
  import opened Text
  import opened Utf8
  import opened Headers
  import opened Canon
  import opened Signature
  import opened Scheme
  import opened Ams

  /** The field of that name with `n` more of the name below it. */
  function FromBelow(fields: seq<Field>, name: string, n: nat): Option<Field> {
    if fields == [] then None
    else
      var front, last := fields[..|fields| - 1], fields[|fields| - 1];
      if !SameLetters(last.name, name) then FromBelow(front, name, n)
      else if n == 0 then Some(last)
      else FromBelow(front, name, n - 1)
  }

  /** How often a list has that name, in any case. */
  function Times(names: seq<string>, name: string): nat {
    if names == [] then 0
    else Times(names[..|names| - 1], name) + if SameLetters(names[|names| - 1], name) then 1 else 0
  }

  /** The line of a field as it is signed. */
  function LineIn(mode: Mode, name: string, value: string): string {
    match mode
    case Simple => name + ":" + value + "\r\n"
    case Relaxed => Lower(name) + ":" + Spaced(Words(value)) + "\r\n"
  }

  function PickedLine(mode: Mode, fields: seq<Field>, name: string, n: nat): string {
    match FromBelow(fields, name, n)
    case None => ""
    case Some(field) => LineIn(mode, field.name, field.value)
  }

  /** The lines for the names of a list from the `k`-th on: the first time a name stands for the lowest field, the
      next time for the one above it, and so on; for none when there are no more. */
  function LinesFrom(mode: Mode, fields: seq<Field>, names: seq<string>, k: nat): string
    requires k <= |names|
    decreases |names| - k
  {
    if k == |names| then ""
    else PickedLine(mode, fields, names[k], Times(names[..k], names[k])) + LinesFrom(mode, fields, names, k + 1)
  }

  // ----- counting from below -----

  /** How many fields of that name lie below the `j`-th. */
  function Below(fields: seq<Field>, name: string, j: int): nat
    requires -1 <= j < |fields|
    decreases |fields|
  {
    if j == |fields| - 1 then 0
    else
      var last := fields[|fields| - 1];
      Below(fields[..|fields| - 1], name, j) + if SameLetters(last.name, name) then 1 else 0
  }

  lemma {:induction false} NamedIs(field: Field, name: string)
    ensures Named(field, name) <==> SameLetters(field.name, name)
  {
    hide Lower, SameLetters;
    LowerMeaning(field.name, name);
  }

  lemma {:induction false} BelowStep(fields: seq<Field>, name: string, j: int)
    requires -1 <= j < |fields| - 1
    ensures Below(fields, name, j)
         == Below(fields, name, j + 1) + if SameLetters(fields[j + 1].name, name) then 1 else 0
    decreases |fields|
  {
    hide SameLetters;
    var front := fields[..|fields| - 1];
    if j + 1 < |fields| - 1 {
      BelowStep(front, name, j);
      assert front[j + 1] == fields[j + 1];
    } else {
      assert Below(front, name, j) == 0;
    }
  }

  /** Higher up there are at least as many below. */
  lemma {:induction false} BelowMonotone(fields: seq<Field>, name: string, i: int, j: int)
    requires -1 <= i < j < |fields|
    ensures Below(fields, name, i) >= Below(fields, name, j) + if SameLetters(fields[j].name, name) then 1 else 0
    decreases j - i
  {
    hide SameLetters, Below;
    BelowStep(fields, name, i);
    if i + 1 < j {
      BelowMonotone(fields, name, i + 1, j);
    }
  }

  lemma {:induction false} FromBelowAt(fields: seq<Field>, name: string, j: nat)
    requires j < |fields| && SameLetters(fields[j].name, name)
    ensures FromBelow(fields, name, Below(fields, name, j)) == Some(fields[j])
    decreases |fields|
  {
    hide SameLetters;
    if j < |fields| - 1 {
      FromBelowAt(fields[..|fields| - 1], name, j);
    }
  }

  lemma {:induction false} FromBelowFound(fields: seq<Field>, name: string, n: nat) returns (j: nat)
    requires FromBelow(fields, name, n).Some?
    ensures j < |fields| && SameLetters(fields[j].name, name) && Below(fields, name, j) == n
    decreases |fields|
  {
    hide SameLetters;
    var front, last := fields[..|fields| - 1], fields[|fields| - 1];
    if SameLetters(last.name, name) && n == 0 {
      j := |fields| - 1;
    } else {
      j := FromBelowFound(front, name, if SameLetters(last.name, name) then n - 1 else n);
    }
  }

  // ----- what is marked -----

  /** Of every name, the fields that are used are the lowest: as many as the names that were looked up. */
  predicate Marked(fields: seq<Field>, used: seq<bool>, names: seq<string>)
    requires |fields| == |used|
  {
    forall j :: 0 <= j < |fields| ==> (used[j] <==> Below(fields, fields[j].name, j) < Times(names, fields[j].name))
  }

  lemma {:induction false} SameName(fields: seq<Field>, names: seq<string>, a: string, b: string, j: int)
    requires SameLetters(a, b) && -1 <= j < |fields|
    ensures Below(fields, a, j) == Below(fields, b, j) && Times(names, a) == Times(names, b)
    decreases |fields| + |names|
  {
    SameEverywhere(a, b);
    hide SameLetters;
    if j < |fields| - 1 {
      SameName(fields[..|fields| - 1], names, a, b, j);
    }
    if names != [] {
      SameName(fields, names[..|names| - 1], a, b, j);
    }
  }

  lemma {:induction false} SameEverywhere(a: string, b: string)
    requires SameLetters(a, b)
    ensures forall x: string :: SameLetters(x, a) <==> SameLetters(x, b)
  {
    forall x: string
      ensures SameLetters(x, a) <==> SameLetters(x, b)
    {
      LowerMeaning(x, a);
      LowerMeaning(x, b);
      LowerMeaning(a, b);
      hide SameLetters, Lower;
    }
  }

  /** The lowest unused field is the one with as many below it as the name was looked up. */
  lemma {:induction false} LowestFromBelow(fields: seq<Field>, used: seq<bool>, names: seq<string>, name: string)
    requires |fields| == |used| && Marked(fields, used, names)
    ensures var found := LowestUnused(fields, used, name, |fields|);
            FromBelow(fields, name, Times(names, name)) == if found.None? then None else Some(fields[found.value])
    ensures var found := LowestUnused(fields, used, name, |fields|);
            found.Some? ==> Below(fields, name, found.value) == Times(names, name)
  {
    hide SameLetters, Below, Times, LowestUnused, Named, FromBelow;
    var n := Times(names, name);
    match LowestUnused(fields, used, name, |fields|)
    case None =>
      if FromBelow(fields, name, n).Some? {
        var j := FromBelowFound(fields, name, n);
        NamedIs(fields[j], name);
        SameName(fields, names, fields[j].name, name, j);
      }
    case Some(j) =>
      NamedIs(fields[j], name);
      SameName(fields, names, fields[j].name, name, j);
      if Below(fields, name, j) > n {
        var k := NextBelow(fields, name, j);
        NamedIs(fields[k], name);
        SameName(fields, names, fields[k].name, name, k);
      }
      FromBelowAt(fields, name, j);
  }

  lemma {:induction false} NextBelow(fields: seq<Field>, name: string, j: nat) returns (k: nat)
    requires j < |fields| && Below(fields, name, j) > 0
    ensures j < k < |fields| && SameLetters(fields[k].name, name)
    ensures Below(fields, name, k) == Below(fields, name, j) - 1
    decreases |fields| - j
  {
    hide SameLetters;
    assert j < |fields| - 1;
    BelowStep(fields, name, j);
    if SameLetters(fields[j + 1].name, name) {
      k := j + 1;
    } else {
      k := NextBelow(fields, name, j + 1);
    }
  }

  lemma {:induction false} MarkedNext(fields: seq<Field>, used: seq<bool>, names: seq<string>, name: string)
    requires |fields| == |used| && Marked(fields, used, names)
    ensures var found := LowestUnused(fields, used, name, |fields|);
            Marked(fields, if found.None? then used else used[found.value := true], names + [name])
  {
    hide SameLetters, Below, LowestUnused, Named, FromBelow;
    var found := LowestUnused(fields, used, name, |fields|);
    var after := if found.None? then used else used[found.value := true];
    LowestFromBelow(fields, used, names, name);
    assert (names + [name])[..|names|] == names;
    forall j | 0 <= j < |fields|
      ensures after[j] <==> Below(fields, fields[j].name, j) < Times(names + [name], fields[j].name)
    {
      MarkedOne(fields, used, names, name, j);
    }
  }

  lemma {:induction false} MarkedOne(fields: seq<Field>, used: seq<bool>, names: seq<string>, name: string, j: nat)
    requires |fields| == |used| && Marked(fields, used, names) && j < |fields|
    ensures var found := LowestUnused(fields, used, name, |fields|);
            (found == Some(j) || used[j]) <==> Below(fields, fields[j].name, j) < Times(names + [name], fields[j].name)
  {
    assert (names + [name])[..|names|] == names;
    assert Times(names + [name], fields[j].name)
        == Times(names, fields[j].name) + if SameLetters(name, fields[j].name) then 1 else 0;
    hide SameLetters, Below, Named, FromBelow, Times;
    var found := LowestUnused(fields, used, name, |fields|);
    LowestFromBelow(fields, used, names, name);
    NamedIs(fields[j], name);
    SameBackward(fields[j].name, name);
    if SameLetters(fields[j].name, name) {
      SameName(fields, names, fields[j].name, name, j);
      if found.Some? {
        NamedIs(fields[found.value], name);
        if j < found.value {
          BelowMonotone(fields, name, j, found.value);
        } else if found.value < j {
          BelowMonotone(fields, name, found.value, j);
        }
      }
    }
  }

  lemma {:induction false} SameBackward(a: string, b: string)
    ensures SameLetters(a, b) <==> SameLetters(b, a)
  {
  }

  /** The loop with its marks picks exactly those lines. */
  lemma {:induction false} PickedFromBelow(mode: Mode, fields: seq<Field>, used: seq<bool>, names: seq<string>, k: nat)
    requires |fields| == |used| && k <= |names| && Marked(fields, used, names[..k])
    ensures PickedText(mode, fields, used, names[k..]) == LinesFrom(mode, fields, names, k)
    decreases |names| - k
  {
    hide SameLetters, Marked, LowestUnused, FromBelow, Times, LineIn, CanonHeader;
    if k < |names| {
      var name := names[k];
      assert names[k..][0] == name && names[k..][1..] == names[k + 1..];
      assert names[..k + 1] == names[..k] + [name];
      var found := LowestUnused(fields, used, name, |fields|);
      LowestFromBelow(fields, used, names[..k], name);
      MarkedNext(fields, used, names[..k], name);
      PickedFromBelow(mode, fields, if found.None? then used else used[found.value := true], names, k + 1);
      if found.None? {
        assert "" + LinesFrom(mode, fields, names, k + 1) == LinesFrom(mode, fields, names, k + 1);
      } else {
        LineWritten(mode, fields[found.value].name, fields[found.value].value);
      }
    }
  }

  lemma {:induction false} LineWritten(mode: Mode, name: string, value: string)
    ensures CanonHeader(mode, name, value) == LineIn(mode, name, value)
    ensures CanonLine(mode, name, value) + "\r\n" == LineIn(mode, name, value)
  {
    hide Lower, Words, Spaced;
  }

  /** The text a message signature is checked over: the lines its names stand for, then its own line without end. */
  lemma {:induction false} HashInputWritten(mode: Mode, fields: seq<Field>, names: seq<string>, stripped: string)
    ensures HashInput(mode, fields, names, stripped) + "\r\n"
         == LinesFrom(mode, fields, names, 0) + LineIn(mode, "ARC-Message-Signature", stripped)
  {
    hide PickedText, LinesFrom, LineIn, CanonLine, Below, Times;
    var used := Unused(|fields|);
    assert names[..0] == [] && names[0..] == names;
    assert Marked(fields, used, names[..0]) by {
      forall j | 0 <= j < |fields|
        ensures Times([], fields[j].name) == 0
      {
        NoTimes(fields[j].name);
      }
    }
    PickedFromBelow(mode, fields, used, names, 0);
    LineWritten(mode, "ARC-Message-Signature", stripped);
    var picked, own := PickedText(mode, fields, used, names), CanonLine(mode, "ARC-Message-Signature", stripped);
    assert picked + own + "\r\n" == picked + (own + "\r\n");
  }

  lemma {:induction false} NoTimes(name: string)
    ensures Times([], name) == 0
  {
  }

  /** A message signature of any sender, with any names and modes, passes exactly when the message is readable, its
      body has the digest, and the key at its place verifies that text. The error is temporary when the place cannot
      be asked now, permanent when it holds no key or the message is not readable, and failure otherwise. */
  lemma {:induction false} CheckExact(suite: Suite, dns: Dns, ams: MessageSig, value: string, raw: bytes, text: string)
    requires MessageFields(raw).Some? ==>
               text + "\r\n" == LinesFrom(ams.headerCanon, MessageFields(raw).value, ams.signedHeaders, 0)
                                + LineIn(ams.headerCanon, "ARC-Message-Signature", StripB(value))
    ensures VerifyAms(suite, dns, ams, value, raw) == Pass <==>
            && MessageFields(raw).Some?
            && suite.digest(suite.canonBody(ams.bodyCanon, Body(raw))) == ams.bodyHash
            && match dns(ams.selector + "._domainkey." + ams.domain)
               case TemporaryFailure => false
               case Texts(texts) =>
                 match FirstKey(suite.decode64, texts)
                 case None => false
                 case Some(key) => suite.verifies(key, Encode(text), ams.signature)
    ensures VerifyAms(suite, dns, ams, value, raw) == TempError <==>
            && MessageFields(raw).Some?
            && suite.digest(suite.canonBody(ams.bodyCanon, Body(raw))) == ams.bodyHash
            && dns(ams.selector + "._domainkey." + ams.domain).TemporaryFailure?
    ensures VerifyAms(suite, dns, ams, value, raw) == PermError <==>
            MessageFields(raw).Some? ==>
              && suite.digest(suite.canonBody(ams.bodyCanon, Body(raw))) == ams.bodyHash
              && match dns(ams.selector + "._domainkey." + ams.domain)
                 case TemporaryFailure => false
                 case Texts(texts) => FirstKey(suite.decode64, texts).None?
  {
    hide MessageFields, LinesFrom, LineIn, StripB, HashInput, FirstKey, Encode;
    if MessageFields(raw).Some? {
      var input := HashInput(ams.headerCanon, MessageFields(raw).value, ams.signedHeaders, StripB(value));
      HashInputWritten(ams.headerCanon, MessageFields(raw).value, ams.signedHeaders, StripB(value));
      WithoutEnd(input, text);
    }
  }

  lemma {:induction false} WithoutEnd(a: string, b: string)
    requires a + "\r\n" == b + "\r\n"
    ensures a == b
  {
    assert a == (a + "\r\n")[..|a + "\r\n"| - 2] && b == (b + "\r\n")[..|b + "\r\n"| - 2];
  }
}
