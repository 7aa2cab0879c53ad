/** Header lines written by the sealer, read back as fields. */
module Built {
  import opened Text
  import opened Utf8
  import opened Headers
  import opened Chain
  import opened Ams
  import opened Seals

  predicate NoBreak(s: string) {
    CR !in s && LF !in s
  }

  /** No CRLF inside; a lone CR or LF does not end a line. */
  predicate OneLine(s: string) {
    forall i :: 0 < i < |s| ==> !(s[i - 1] == CR && s[i] == LF)
  }

  function FieldText(field: Field): string {
    field.name + ":" + field.value
  }

  /** A field that fits on one line and is not taken for a continuation. */
  predicate Clean(field: Field) {
    field.name != "" && field.name[0] != ' ' && field.name[0] != '\t' && NoBreak(field.name) && OneLine(field.value)
  }

  function LinesText(fields: seq<Field>): string {
    if fields == [] then "" else HeaderLine(fields[0].name, fields[0].value) + LinesText(fields[1..])
  }

  function FieldTexts(fields: seq<Field>): seq<string> {
    if fields == [] then [] else [FieldText(fields[0])] + FieldTexts(fields[1..])
  }

  predicate OneLineBytes(x: bytes) {
    forall i :: 0 < i < |x| ==> !(x[i - 1] == 13 && x[i] == 10)
  }

  lemma {:induction false} EncodeFirst(s: string)
    requires s != ""
    ensures Encode(s) != []
    ensures Encode(s)[0] == 13 <==> s[0] == CR
    ensures Encode(s)[0] == 10 <==> s[0] == LF
  {
    assert Encode(s)[0] == EncodeChar(s[0])[0];
  }

  lemma {:induction false} EncodeOneLine(s: string)
    requires OneLine(s)
    ensures OneLineBytes(Encode(s))
  {
    if |s| > 1 {
      var head, rest := EncodeChar(s[0]), Encode(s[1..]);
      assert OneLine(s[1..]) by {
        forall i | 0 < i < |s[1..]|
          ensures !(s[1..][i - 1] == CR && s[1..][i] == LF)
        {
          assert !(s[i] == CR && s[i + 1] == LF);
        }
      }
      EncodeOneLine(s[1..]);
      EncodeFirst(s[1..]);
      assert !(s[0] == CR && s[1] == LF);
      JoinOneLine(head, rest, s[0]);
    } else if |s| == 1 {
      assert Encode(s[1..]) == [];
    }
  }

  lemma {:induction false} JoinOneLine(head: bytes, rest: bytes, c: char)
    requires head == EncodeChar(c) && OneLineBytes(rest) && (rest != [] && rest[0] == 10 ==> c != CR)
    ensures OneLineBytes(head + rest)
  {
    hide EncodeChar;
    var x := head + rest;
    forall i | 0 < i < |x|
      ensures !(x[i - 1] == 13 && x[i] == 10)
    {
      if i > |head| {
        assert x[i - 1] == rest[i - 1 - |head|] && x[i] == rest[i - |head|];
      } else if i == |head| {
        assert x[i - 1] == head[i - 1] && x[i] == rest[0];
      } else {
        assert x[i] == head[i];
      }
    }
  }

  lemma {:induction false} BlankNone(x: bytes)
    requires OneLineBytes(x)
    ensures BlankAt(x + [13, 10]) == None
  {
    if |x| > 1 {
      var s := x + [13, 10];
      assert s[1..] == x[1..] + [13, 10];
      assert s[..4][0] == x[0] && s[..4][1] == x[1];
      assert OneLineBytes(x[1..]) by {
        forall i | 0 < i < |x[1..]|
          ensures !(x[1..][i - 1] == 13 && x[1..][i] == 10)
        {
          assert !(x[i] == 13 && x[i + 1] == 10);
        }
      }
      assert !(x[0] == 13 && x[1] == 10);
      BlankNone(x[1..]);
    }
  }

  lemma {:induction false} CrlfAtLine(c: string)
    requires OneLine(c)
    ensures CrlfAt(c + CRLF) == Some(|c|)
  {
    if c != "" {
      var s := c + CRLF;
      assert s[1..] == c[1..] + CRLF;
      assert OneLine(c[1..]) by {
        forall i | 0 < i < |c[1..]|
          ensures !(c[1..][i - 1] == CR && c[1..][i] == LF)
        {
          assert !(c[i] == CR && c[i + 1] == LF);
        }
      }
      assert |c| > 1 ==> !(c[0] == CR && c[1] == LF);
      CrlfAtLine(c[1..]);
    }
  }

  lemma {:induction false} FieldTextOneLine(field: Field)
    requires Clean(field)
    ensures OneLine(FieldText(field))
  {
    var c := FieldText(field);
    forall i | 0 < i < |c|
      ensures !(c[i - 1] == CR && c[i] == LF)
    {
      if i <= |field.name| {
        assert c[i - 1] == field.name[i - 1] && field.name[i - 1] in field.name;
      } else if i > |field.name| + 1 {
        var k := i - |field.name| - 1;
        assert c[i - 1] == field.value[k - 1] && c[i] == field.value[k];
      }
    }
  }

  lemma {:induction false} LineBytes(field: Field)
    requires Clean(field)
    ensures var line := Encode(HeaderLine(field.name, field.value));
            HeaderLines(line) && StartsField(line)
  {
    var c := FieldText(field);
    assert HeaderLine(field.name, field.value) == c + CRLF;
    FieldTextOneLine(field);
    EncodeAppend(c, CRLF);
    assert Encode(CRLF) == [13, 10] by {
      assert CRLF[1..] == "\n";
      assert Encode("\n") == [10];
    }
    EncodeOneLine(c);
    BlankNone(Encode(c));
    assert c[0] == field.name[0] && field.name[0] in field.name;
    var first := EncodeChar(c[0]);
    assert Encode(c) == first + Encode(c[1..]);
    assert first[0] != 32 && first[0] != 9;
  }

  lemma {:induction false} LineFields(field: Field)
    requires Clean(field)
    ensures var line := HeaderLine(field.name, field.value);
            EndsCrlf(line) && Fields(line) == [FieldText(field)]
  {
    var c := FieldText(field);
    var line := HeaderLine(field.name, field.value);
    assert line == c + CRLF;
    FieldTextOneLine(field);
    CrlfAtLine(c);
    assert line[..|c|] == c && line[|c| + 2..] == "";
    assert Lines(line) == [c];
    assert !Folded(c) && [c][1..] == [];
    assert Unfold([], Some(c)) == [c];
  }

  /** Rendered lines form whole header lines and read back as exactly their fields. */
  lemma {:induction false} LinesTextReads(fields: seq<Field>)
    requires forall i :: 0 <= i < |fields| ==> Clean(fields[i])
    ensures HeaderLines(Encode(LinesText(fields)))
    ensures fields != [] ==> StartsField(Encode(LinesText(fields)))
    ensures Fields(LinesText(fields)) == FieldTexts(fields)
  {
    if fields != [] {
      var line := HeaderLine(fields[0].name, fields[0].value);
      var rest := LinesText(fields[1..]);
      LinesTextReads(fields[1..]);
      LineBytes(fields[0]);
      LineFields(fields[0]);
      EncodeAppend(line, rest);
      JoinLines(Encode(line), Encode(rest));
      NotFolded(fields[1..]);
      FieldsAppend(line, rest);
    }
  }

  lemma {:induction false} NotFolded(fields: seq<Field>)
    requires forall i :: 0 <= i < |fields| ==> Clean(fields[i])
    ensures !Folded(LinesText(fields))
  {
    if fields != [] {
      assert LinesText(fields)[0] == fields[0].name[0];
    }
  }

  lemma {:induction false} JoinLines(a: bytes, b: bytes)
    requires a != [] && HeaderLines(a) && StartsField(a)
    requires HeaderLines(b) && (b == [] || StartsField(b))
    ensures HeaderLines(a + b) && StartsField(a + b)
  {
    BlankAtPrepend(a, b);
    if b == [] {
      assert a + b == a;
    } else {
      var s := a + b;
      assert s[|s| - 2] == b[|b| - 2] && s[|s| - 1] == b[|b| - 1];
      assert s[0] == a[0] && s[1] == a[1];
    }
  }

  // ----- what extraction makes of a built field -----

  lemma {:induction false} DecimalPlain(n: nat)
    ensures forall i :: 0 <= i < |Decimal(n)| ==> '0' <= Decimal(n)[i] <= '9'
  {
    DecimalRoundTrip(n);
  }

  function Numbering(n: nat, tail: string): string {
    "i=" + Decimal(n) + ";" + tail
  }

  lemma {:induction false} FirstPiece(n: nat, tail: string)
    ensures Split(Numbering(n, tail), ';')[0] == "i" + ['='] + Decimal(n)
  {
    DecimalPlain(n);
    hide Decimal, Split;
    var part := "i=" + Decimal(n);
    assert ';' !in part;
    assert Numbering(n, tail) == part + [';'] + tail;
    SplitAppend(part, ';', tail);
    assert part == "i" + ['='] + Decimal(n);
  }

  lemma {:induction false} TagFirst(n: nat, tail: string)
    ensures Tag(Numbering(n, tail), "i") == Some(Decimal(n))
  {
    DecimalPlain(n);
    TrimDigits(Decimal(n));
    assert Trim("i") == "i" && Lower("i") == "i";
    FirstPiece(n, tail);
    hide Decimal, Split, SplitOnce, Trim, Lower, Numbering;
    SplitOnceAppend("i", '=', Decimal(n));
  }

  lemma {:induction false} TrimDigits(s: string)
    requires s != "" && forall i :: 0 <= i < |s| ==> '0' <= s[i] <= '9'
    ensures Trim(s) == s
  {
  }

  /** The field name of each header kind. */
  function NameOf(kind: Kind): string {
    match kind
    case AuthResults => AAR_NAME
    case MessageSignature => Ams.AMS_NAME
    case Seal => SEAL_NAME
  }

  predicate NameText(s: string) {
    forall i :: 0 <= i < |s| ==> 'A' <= s[i] <= 'Z' || 'a' <= s[i] <= 'z' || s[i] == '-'
  }

  lemma {:induction false} NameOfText(kind: Kind)
    ensures NameOf(kind) != "" && NameText(NameOf(kind))
  {
  }

  lemma {:induction false} KindOfName(kind: Kind)
    ensures KindOf(NameOf(kind)) == Some(kind)
  {
    match kind
    case AuthResults => LowerAar();
    case MessageSignature => LowerAms();
    case Seal => assert Lower("ARC-Seal") == "arc-seal";
  }

  lemma {:induction false} LowerAar()
    ensures Lower("ARC-Authentication-Results") == "arc-authentication-results"
  {
  }

  lemma {:induction false} LowerAms()
    ensures Lower("ARC-Message-Signature") == "arc-message-signature"
  {
  }

  lemma {:induction false} NameReads(kind: Kind)
    ensures ':' !in NameOf(kind) && TrimEnd(NameOf(kind)) == NameOf(kind)
    ensures Clean(Field(NameOf(kind), ""))
  {
    hide NameOf;
    var name := NameOf(kind);
    NameOfText(kind);
    assert !IsWhitespace(name[|name| - 1]);
  }

  /** A built ARC field is read as its kind, number and trimmed value. */
  lemma {:induction false} PushBuilt(kind: Kind, n: nat, tail: string)
    requires n <= MAX_U32
    ensures PushArc(FieldText(Field(NameOf(kind), " " + Numbering(n, tail))))
            == Header(RawHeader(kind, n, Numbering(n, tail)))
  {
    hide NameOf, KindOf, Tag, Numbering, ParseUnsigned, Decimal, SplitOnce, TrimStart, TrimEnd;
    var name, value := NameOf(kind), Numbering(n, tail);
    NameReads(kind);
    KindOfName(kind);
    SplitOnceAppend(name, ':', " " + value);
    TrimmedValue(n, tail);
    TagFirst(n, tail);
    ParseDecimal(n, MAX_U32);
    assert FieldText(Field(name, " " + value)) == name + [':'] + (" " + value);
  }

  lemma {:induction false} TrimmedValue(n: nat, tail: string)
    ensures TrimStart(" " + Numbering(n, tail)) == Numbering(n, tail)
  {
    hide Decimal;
    assert Numbering(n, tail)[0] == 'i';
    hide Numbering;
    TrimStartAppend(" ", Numbering(n, tail));
  }
}
