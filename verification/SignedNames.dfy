/** Which fields of a message its signature covers: for each signed name the last field that has it. */
module SignedNames {
  import opened Text
  import opened Canon
  import opened Ams
  import opened Sealing

  /** A canonical header line: its lower-case name and its words. */
  datatype Line = Line(name: string, words: seq<string>)

  function LineOf(name: string, value: string): Line {
    Line(Lower(name), Words(value))
  }

  /** The fields that the names pick, bottom-up, each as its canonical line. */
  function PickedLines(fields: seq<Field>, used: seq<bool>, names: seq<string>): seq<Line>
    requires |fields| == |used|
    decreases names
  {
    if names == [] then []
    else
      match LowestUnused(fields, used, names[0], |fields|)
      case None => PickedLines(fields, used, names[1..])
      case Some(i) => [LineOf(fields[i].name, fields[i].value)] + PickedLines(fields, used[i := true], names[1..])
  }

  function SignedLines(fields: seq<Field>, names: seq<string>): seq<Line> {
    PickedLines(fields, Unused(|fields|), names)
  }

  /** The words of the last field of that name, in any case. */
  function LastWords(fields: seq<Field>, name: string): Option<seq<string>> {
    if fields == [] then None
    else
      var last := fields[|fields| - 1];
      if SameLetters(last.name, name) then Some(Words(last.value)) else LastWords(fields[..|fields| - 1], name)
  }

  /** For each of the six names that `fields` has a field of, `other` has the same words in its last field of
      that name. */
  predicate SameFields(fields: seq<Field>, other: seq<Field>) {
    forall n :: n in {"from", "to", "cc", "subject", "date", "message-id"} ==>
      LastWords(fields, n) == None || LastWords(other, n) == LastWords(fields, n)
  }

  /** No two of the names are the same, in any case. */
  predicate Apart(names: seq<string>) {
    forall i, j :: 0 <= i < j < |names| ==> Lower(names[i]) != Lower(names[j])
  }

  /** No field with one of the names is used up. */
  predicate Untaken(fields: seq<Field>, used: seq<bool>, names: seq<string>)
    requires |fields| == |used|
  {
    forall j, n :: 0 <= j < |fields| && used[j] && n in names ==> !Named(fields[j], n)
  }

  lemma {:induction false} LowestIsLast(fields: seq<Field>, used: seq<bool>, name: string, n: nat)
    requires n <= |fields| == |used| && forall j :: 0 <= j < |fields| && used[j] ==> !Named(fields[j], name)
    ensures LastWords(fields[..n], name) ==
            match LowestUnused(fields, used, name, n)
            case None => None
            case Some(i) => Some(Words(fields[i].value))
  {
    hide Words, Lower;
    if n > 0 {
      LowestIsLast(fields, used, name, n - 1);
      assert fields[..n][..n - 1] == fields[..n - 1] && fields[..n][n - 1] == fields[n - 1];
      LowerMeaning(fields[n - 1].name, name);
    }
  }

  lemma {:induction false} StillUntaken(fields: seq<Field>, used: seq<bool>, names: seq<string>, i: nat)
    requires |fields| == |used| && i < |fields| && names != [] && Apart(names) && Untaken(fields, used, names)
    requires Named(fields[i], names[0])
    ensures Apart(names[1..]) && Untaken(fields, used, names[1..]) && Untaken(fields, used[i := true], names[1..])
  {
    hide Lower;
    forall n | n in names[1..]
      ensures n in names && !Named(fields[i], n)
    {
      var k :| 0 <= k < |names[1..]| && names[1..][k] == n;
      assert names[k + 1] == n;
    }
  }

  lemma {:induction false} RestUntaken(fields: seq<Field>, used: seq<bool>, names: seq<string>)
    requires |fields| == |used| && names != [] && Apart(names) && Untaken(fields, used, names)
    ensures Apart(names[1..]) && Untaken(fields, used, names[1..])
  {
    hide Lower, Named;
    assert forall n :: n in names[1..] ==> n in names;
  }

  lemma {:induction false} HeadUntaken(fields: seq<Field>, used: seq<bool>, names: seq<string>)
    requires |fields| == |used| && names != [] && Untaken(fields, used, names)
    ensures LastWords(fields, names[0]) ==
            match LowestUnused(fields, used, names[0], |fields|)
            case None => None
            case Some(i) => Some(Words(fields[i].value))
  {
    hide Words, Named, LowestUnused;
    assert names[0] in names && fields[..|fields|] == fields;
    LowestIsLast(fields, used, names[0], |fields|);
  }

  lemma {:induction false} PickedWhere(fields: seq<Field>, used: seq<bool>, names: seq<string>, n: string)
    requires |fields| == |used| && Apart(names) && Untaken(fields, used, names)
    ensures n in PickedNames(fields, used, names) <==> n in names && LastWords(fields, n).Some?
    decreases names
  {
    hide Named, Lower, LowestUnused, LastWords, Apart, Untaken;
    if names != [] {
      HeadUntaken(fields, used, names);
      assert n in names <==> n == names[0] || n in names[1..];
      match LowestUnused(fields, used, names[0], |fields|)
      case None =>
        RestUntaken(fields, used, names);
        PickedWhere(fields, used, names[1..], n);
      case Some(i) =>
        FoundNamed(fields, used, names[0], i);
        StillUntaken(fields, used, names, i);
        PickedWhere(fields, used[i := true], names[1..], n);
    }
  }

  lemma {:induction false} FoundNamed(fields: seq<Field>, used: seq<bool>, name: string, i: nat)
    requires |fields| == |used| && LowestUnused(fields, used, name, |fields|) == Some(i)
    ensures i < |fields| && Named(fields[i], name)
  {
  }

  lemma {:induction false} SixApart()
    ensures Apart(["from", "to", "cc", "subject", "date", "message-id"])
  {
    var names := ["from", "to", "cc", "subject", "date", "message-id"];
    forall i, j | 0 <= i < j < |names|
      ensures Lower(names[i]) != Lower(names[j])
    {
      assert Lower(names[i])[0] == LowerChar(names[i][0]) && Lower(names[j])[0] == LowerChar(names[j][0]);
    }
  }

  lemma {:induction false} NothingTaken(fields: seq<Field>, names: seq<string>)
    ensures Untaken(fields, Unused(|fields|), names)
  {
  }

  /** A message signature covers exactly those of six names that some field has, in any case. */
  lemma {:induction false} NamesMeaning(fields: seq<Field>, n: string)
    ensures n in Names(fields) <==>
            && n in {"from", "to", "cc", "subject", "date", "message-id"}
            && exists j :: 0 <= j < |fields| && SameLetters(fields[j].name, n)
  {
    hide PickedNames, Apart, Untaken, LastWords, SameLetters;
    SixApart();
    NothingTaken(fields, SIGNED_HEADERS);
    PickedWhere(fields, Unused(|fields|), SIGNED_HEADERS, n);
    LastWordsSome(fields, n);
  }

  lemma {:induction false} LastWordsSome(fields: seq<Field>, n: string)
    ensures LastWords(fields, n).Some? <==> exists j :: 0 <= j < |fields| && SameLetters(fields[j].name, n)
  {
    hide SameLetters, Words;
    if fields != [] {
      var m := |fields| - 1;
      LastWordsSome(fields[..m], n);
      if j :| 0 <= j < |fields| && SameLetters(fields[j].name, n) {
        assert j < m ==> fields[..m][j] == fields[j];
      }
    }
  }

  lemma {:induction false} PickedCount(fields: seq<Field>, used: seq<bool>, names: seq<string>)
    requires |fields| == |used|
    ensures |PickedLines(fields, used, names)| <= |names|
    decreases names
  {
    hide LowestUnused, LineOf;
    if names != [] {
      match LowestUnused(fields, used, names[0], |fields|)
      case None => PickedCount(fields, used, names[1..]);
      case Some(i) => PickedCount(fields, used[i := true], names[1..]);
    }
  }

  lemma {:induction false} AllPicked(fields: seq<Field>, used: seq<bool>, names: seq<string>)
    requires |fields| == |used| && Apart(names) && Untaken(fields, used, names)
    requires forall n :: n in names ==> LastWords(fields, n).Some?
    ensures |PickedLines(fields, used, names)| == |names|
    decreases names
  {
    hide Named, Lower, LowestUnused, LastWords, Apart, Untaken, LineOf;
    if names != [] {
      HeadUntaken(fields, used, names);
      assert names[0] in names;
      var i := LowestUnused(fields, used, names[0], |fields|).value;
      FoundNamed(fields, used, names[0], i);
      StillUntaken(fields, used, names, i);
      AllPicked(fields, used[i := true], names[1..]);
    }
  }

  /** Names that a list has pick the same lines from another exactly when their last fields have the same words. */
  lemma {:induction false} SamePicked(a: seq<Field>, x: seq<bool>, b: seq<Field>, y: seq<bool>, names: seq<string>)
    requires |a| == |x| && |b| == |y| && Apart(names) && Untaken(a, x, names) && Untaken(b, y, names)
    requires forall n :: n in names ==> LastWords(a, n).Some?
    ensures PickedLines(b, y, names) == PickedLines(a, x, names) <==>
            forall n :: n in names ==> LastWords(b, n) == LastWords(a, n)
    decreases names
  {
    hide Named, LowestUnused, LastWords, Apart, Untaken, Words, Lower;
    if names != [] {
      assert names[0] in names;
      assert forall n :: n in names <==> n == names[0] || n in names[1..];
      HeadUntaken(a, x, names);
      HeadUntaken(b, y, names);
      var i := LowestUnused(a, x, names[0], |a|).value;
      FoundNamed(a, x, names[0], i);
      StillUntaken(a, x, names, i);
      match LowestUnused(b, y, names[0], |b|)
      case None =>
        AllPicked(a, x, names);
        PickedCount(b, y, names[1..]);
      case Some(j) =>
        FoundNamed(b, y, names[0], j);
        StillUntaken(b, y, names, j);
        SamePicked(a, x[i := true], b, y[j := true], names[1..]);
        SameHead(a[i], b[j], names[0]);
        HeadsDecide(LineOf(a[i].name, a[i].value), PickedLines(a, x[i := true], names[1..]),
                    LineOf(b[j].name, b[j].value), PickedLines(b, y[j := true], names[1..]));
    }
  }

  lemma {:induction false} SameHead(a: Field, b: Field, name: string)
    requires Named(a, name) && Named(b, name)
    ensures LineOf(a.name, a.value) == LineOf(b.name, b.value) <==> Words(a.value) == Words(b.value)
  {
    hide Lower, Words;
  }

  lemma {:induction false} HeadsDecide(p: Line, a: seq<Line>, q: Line, b: seq<Line>)
    ensures [p] + a == [q] + b <==> p == q && a == b
  {
    assert ([p] + a)[0] == p && ([q] + b)[0] == q && ([p] + a)[1..] == a && ([q] + b)[1..] == b;
  }

  /** The same for the names a signature covers, which are some of six. */
  lemma {:induction false} SameSignedLines(fields: seq<Field>, other: seq<Field>)
    ensures SignedLines(other, Names(fields)) == SignedLines(fields, Names(fields)) <==>
            SameFields(fields, other)
  {
    hide PickedNames, PickedLines, Apart, Untaken, LastWords;
    var names := Names(fields);
    SixApart();
    NothingTaken(fields, SIGNED_HEADERS);
    forall n
      ensures n in names <==> n in SIGNED_HEADERS && LastWords(fields, n).Some?
    {
      PickedWhere(fields, Unused(|fields|), SIGNED_HEADERS, n);
    }
    PickedApart(fields, Unused(|fields|), SIGNED_HEADERS);
    NothingTaken(fields, names);
    NothingTaken(other, names);
    SamePicked(fields, Unused(|fields|), other, Unused(|other|), names);
  }

  lemma {:induction false} PickedWithin(fields: seq<Field>, used: seq<bool>, names: seq<string>)
    requires |fields| == |used|
    ensures forall n :: n in PickedNames(fields, used, names) ==> n in names
    decreases names
  {
    hide LowestUnused;
    if names != [] {
      match LowestUnused(fields, used, names[0], |fields|)
      case None => PickedWithin(fields, used, names[1..]);
      case Some(i) => PickedWithin(fields, used[i := true], names[1..]);
    }
  }

  lemma {:induction false} PickedApart(fields: seq<Field>, used: seq<bool>, names: seq<string>)
    requires |fields| == |used| && Apart(names)
    ensures Apart(PickedNames(fields, used, names))
    decreases names
  {
    hide LowestUnused, Lower;
    if names != [] {
      assert Apart(names[1..]);
      match LowestUnused(fields, used, names[0], |fields|)
      case None => PickedApart(fields, used, names[1..]);
      case Some(i) =>
        PickedApart(fields, used[i := true], names[1..]);
        PickedWithin(fields, used[i := true], names[1..]);
        var rest := PickedNames(fields, used[i := true], names[1..]);
        forall j | 0 <= j < |rest|
          ensures Lower(names[0]) != Lower(rest[j])
        {
          assert rest[j] in names[1..];
          var k :| 0 <= k < |names[1..]| && names[1..][k] == rest[j];
          assert names[k + 1] == rest[j];
        }
    }
  }
}
