/** A scheme, hops and a message that meet every demand of the theorems about sealed runs. */
module Witness {
  import opened Text
  import opened Utf8
  import opened Headers
  import opened Chain
  import opened ChainProofs
  import opened Built
  import opened Scheme
  import opened Ams
  import opened Sealer
  import opened Sealing
  import opened Validation
  import opened ArcHops
  import opened ArcRuns
  import opened ArcStarts
  import opened Forwarding
  import opened Tamper
  import opened Signature
  import opened TagNumber
  import Canon

  function High(b: byte): char {
    ('A' as int + b / 16) as char
  }

  function Low(b: byte): char {
    ('A' as int + b % 16) as char
  }

  function Pair(h: char, l: char): byte
    requires 'A' <= h <= 'P' && 'A' <= l <= 'P'
  {
    (h as int - 'A' as int) * 16 + (l as int - 'A' as int)
  }

  /** Every byte as two letters. */
  function Letters(b: bytes): string {
    if b == [] then "" else [High(b[0]), Low(b[0])] + Letters(b[1..])
  }

  function FromLetters(s: string): Option<bytes> {
    if s == "" then Some([])
    else if |s| == 1 || !('A' <= s[0] <= 'P') || !('A' <= s[1] <= 'P') then None
    else
      match FromLetters(s[2..])
      case None => None
      case Some(rest) => Some([Pair(s[0], s[1])] + rest)
  }

  lemma {:induction false} PairBack(b: byte)
    ensures 'A' <= High(b) <= 'P' && 'A' <= Low(b) <= 'P' && Pair(High(b), Low(b)) == b
  {
  }

  lemma {:induction false} FromPair(h: char, l: char, rest: string)
    requires 'A' <= h <= 'P' && 'A' <= l <= 'P' && FromLetters(rest).Some?
    ensures FromLetters([h, l] + rest) == Some([Pair(h, l)] + FromLetters(rest).value)
  {
    hide Pair;
    assert ([h, l] + rest)[2..] == rest;
  }

  lemma {:induction false} LettersBack(b: bytes)
    ensures FromLetters(Letters(b)) == Some(b)
    ensures forall i :: 0 <= i < |Letters(b)| ==> 'A' <= Letters(b)[i] <= 'P'
  {
    hide High, Low, Pair, FromLetters;
    if b == [] {
      assert FromLetters("") == Some([]) by {
        NoLetters();
      }
    } else {
      var rest := Letters(b[1..]);
      LettersBack(b[1..]);
      PairBack(b[0]);
      FromPair(High(b[0]), Low(b[0]), rest);
      assert b == [b[0]] + b[1..];
      assert forall i :: 2 <= i < |Letters(b)| ==> Letters(b)[i] == rest[i - 2];
    }
  }

  lemma {:induction false} NoLetters()
    ensures FromLetters("") == Some([])
  {
  }

  /** The message itself serves as signature. */
  function Plain(): Suite {
    Suite((k, m) => m, k => [], (p, m, s) => s == m, b => b, (mode, b) => b, Letters, FromLetters)
  }

  function OneHop(): Hop {
    Hop(name => Texts(["p="]), ArcSealer([], "example", "arc"), "pass", [])
  }

  function Hops(n: nat): seq<Hop> {
    seq(n, i => OneHop())
  }

  /** A message that is one empty From field. */
  function FromOnly(): bytes {
    Encode("From:")
  }

  lemma {:induction false} PlainLawful()
    ensures Lawful(Plain())
  {
    forall b: bytes
      ensures FromLetters(Letters(b)) == Some(b) && Base64Text(Letters(b))
    {
      LettersBack(b);
    }
  }

  lemma {:induction false} HopPublishes()
    ensures Publishes(Plain(), OneHop().dns, OneHop().sealer)
  {
    hide FirstKey, Lower, Compact;
    PlainKey();
  }

  lemma {:induction false} PlainKey()
    ensures FirstKey(FromLetters, ["p="]) == Some([])
  {
    assert Split("p=", ';') == ["p="];
    assert Trim("p=") == "p=";
    assert Compact("") == "";
    assert "p="[2..] == "";
  }

  lemma {:induction false} HopGood()
    ensures GoodHop(Plain(), OneHop())
  {
    hide Lawful, NoArc;
    PlainLawful();
    NothingAdded();
  }

  lemma {:induction false} NothingAdded()
    ensures NoArc([])
  {
    assert Decode([]) == Some("") && Fields("") == [];
  }

  lemma {:induction false} NoBlank(raw: bytes)
    requires 13 !in raw
    ensures BlankAt(raw) == None
  {
    if |raw| >= 4 {
      assert raw[..4][0] == raw[0];
      NoBlank(raw[1..]);
    }
  }

  lemma {:induction false} NoBreakEncoded(s: string)
    requires forall i :: 0 <= i < |s| ==> s[i] as int < 0x80 && s[i] != CR
    ensures 13 !in Encode(s)
  {
    if s != "" {
      NoBreakEncoded(s[1..]);
    }
  }

  lemma {:induction false} FromText()
    ensures HeaderText(FromOnly()) == Some("From:") && Fields("From:") == ["From:"]
  {
    hide Decode, Encode;
    NoBreakEncoded("From:");
    NoBlank(FromOnly());
    DecodeEncode("From:");
    assert FromOnly()[..|FromOnly()|] == FromOnly();
    assert CrlfAt("From:") == None;
    assert Lines("From:") == ["From:"];
  }

  lemma {:induction false} FromSplits()
    ensures SplitOnce("From:", ':') == Some(("From", "")) && TrimEnd("From") == "From"
  {
    hide SplitOnce;
    SplitOnceAppend("From", ':', "");
    assert "From" + ":" + "" == "From:";
  }

  lemma {:induction false} FromPicked()
    ensures "from" in Names([Field("From", "")])
  {
    hide LowestUnused;
    var fields := [Field("From", "")];
    assert Lower("From") == "from" && Lower("from") == "from";
    assert Named(fields[0], "from");
    assert LowestUnused(fields, Unused(1), SIGNED_HEADERS[0], 1) == Some(0);
    assert Names(fields)[0] == "from";
  }

  /** A message whose one field is an empty From. */
  lemma {:induction false} OnlyFrom(raw: bytes)
    requires HeaderText(raw).Some? && Fields(HeaderText(raw).value) == ["From:"]
    ensures HasFrom(raw) && Extract(raw) == Absent
  {
    hide SplitOnce, TrimEnd, HeaderText, Fields, Names, KindOf;
    FromSplits();
    FromPicked();
    NotArc();
    assert PushArc("From:") == Skip;
    assert ["From:"][1..] == [];
    assert ArcFields(["From:"]) == Ok([]);
    assert FieldPairs(["From:"]) == [Field("From", "")];
  }

  lemma {:induction false} FromMessage()
    ensures StartsField(FromOnly()) && HasFrom(FromOnly()) && Extract(FromOnly()) == Absent
  {
    hide HeaderText, Fields, StartsField, FromOnly, HasFrom, Extract;
    FromText();
    OnlyFrom(FromOnly());
    FromStarts();
  }

  lemma {:induction false} FromStarts()
    ensures StartsField(FromOnly())
  {
    assert FromOnly()[0] == 70;
  }

  lemma {:induction false} NotArc()
    ensures KindOf("From") == None
  {
  }

  lemma {:induction false} PlainBinds()
    ensures Binding(Plain()) && NoCollisions(Plain())
  {
  }

  /** For every number of hops there is such a run, and it passes; signatures bind, digests do
      not collide, and no hop adds a signed field. */
  lemma {:induction false} RunsExist(n: nat)
    ensures Binding(Plain()) && NoCollisions(Plain())
    ensures GoodHops(Plain(), Hops(n)) && AllPublish(Plain(), OneHop().dns, Hops(n))
        && NoneSigned(Hops(n))
    ensures HasFrom(FromOnly()) && CleanStart(FromOnly()) && Extract(FromOnly()) == Absent
    ensures Run(Plain(), Hops(n), FromOnly()).Some?
    ensures Validate(Plain(), OneHop().dns, Run(Plain(), Hops(n), FromOnly()).value) ==
            Status(if n == 0 then CvNone else CvPass)
  {
    hide GoodHop, Publishes, Lawful, StartsField, HasFrom, Extract, Run, Validate, OneEach, Plain, OneHop, FromOnly,
      Binding, NoCollisions, NoSigned, CleanStart, Prior;
    PlainLawful();
    PlainBinds();
    HopGood();
    HopPublishes();
    HopUnsigned();
    FromMessage();
    StartsClean(FromOnly());
    RunPasses(Plain(), OneHop().dns, Hops(n), FromOnly());
  }

  lemma {:induction false} HopUnsigned()
    ensures NoSigned(OneHop().extra)
  {
    hide NoSigned;
    NothingSigned();
  }

  // ----- messages without a clean start -----

  lemma {:induction false} OneBreak(a: bytes, b: bytes)
    requires 13 !in a && 13 !in b
    ensures BlankAt(a + [13, 10] + b) == None
  {
    var s := a + [13, 10] + b;
    if a == [] {
      assert s[1..] == [10] + b;
      NoBlank([10] + b);
      assert |s| >= 4 ==> s[..4][2] == b[0];
    } else {
      assert s[1..] == a[1..] + [13, 10] + b;
      assert |s| >= 4 ==> s[..4][0] == a[0];
      OneBreak(a[1..], b);
    }
  }

  predicate Ascii(s: string) {
    forall i :: 0 <= i < |s| ==> s[i] as int < 0x80 && s[i] != CR
  }

  /** A line and a From behind it. */
  lemma {:induction false} LineThenFrom(line: string)
    requires Ascii(line)
    ensures HeaderText(Encode(line + CRLF + "From:")) == Some(line + CRLF + "From:")
    ensures Lines(line + CRLF + "From:") == [line, "From:"]
  {
    hide Encode, Decode;
    var text := line + CRLF + "From:";
    EncodeAppend(line + CRLF, "From:");
    EncodeAppend(line, CRLF);
    CrlfBytes();
    NoBreakEncoded(line);
    NoBreakEncoded("From:");
    OneBreak(Encode(line), Encode("From:"));
    DecodeEncode(text);
    assert Encode(text)[..|Encode(text)|] == Encode(text);
    CrlfBehind(line, "From:");
    assert text[..|line|] == line && text[|line| + 2..] == "From:";
    assert CrlfAt("From:") == None;
  }

  lemma {:induction false} CrlfBytes()
    ensures Encode(CRLF) == [13, 10]
  {
    assert CRLF[1..] == "\n";
    assert Encode("\n") == [10];
  }

  lemma {:induction false} CrlfBehind(line: string, rest: string)
    requires CR !in line
    ensures CrlfAt(line + CRLF + rest) == Some(|line|)
  {
    if line != "" {
      assert (line + CRLF + rest)[1..] == line[1..] + CRLF + rest;
      CrlfBehind(line[1..], rest);
    }
  }

  /** A message that begins with a continuation line. */
  function FoldFirst(): bytes {
    Encode(" x" + CRLF + "From:")
  }

  /** A message that begins with an empty line. */
  function BlankFirst(): bytes {
    Encode("" + CRLF + "From:")
  }

  lemma {:induction false} FoldFirstIs()
    ensures HasFrom(FoldFirst()) && Extract(FoldFirst()) == Absent
    ensures NotBlank(FoldFirst()) && Canon.Words(FoldOf(FoldFirst())) == ["x"]
  {
    hide Encode, HeaderText, HasFrom, Extract;
    var text := " x" + CRLF + "From:";
    LineThenFrom(" x");
    var lines := [" x", "From:"];
    assert lines[1..] == ["From:"] && ["From:"][1..] == [];
    assert Unfold(["From:"], None) == ["From:"];
    assert Unfold(lines, None) == ["From:"];
    OnlyFrom(FoldFirst());
    assert FoldLines(["From:"]) == "";
    assert FoldLines(lines) == " x" + "" == " x";
    OneWord();
    EncodeFirst(text);
    FirstByte();
  }

  lemma {:induction false} FirstByte()
    ensures FoldFirst() != [] && FoldFirst()[0] == 32
  {
    assert EncodeChar(' ') == [32];
  }

  lemma {:induction false} OneWord()
    ensures Canon.Words(" x") == ["x"]
  {
    Canon.SkipSpace(' ', "x");
    Canon.WordFirst("x", "");
    Canon.NoWords();
    assert [' '] + "x" == " x" && "x" + "" == "x" && ["x"] + [] == ["x"];
  }

  lemma {:induction false} BlankFirstIs()
    ensures HasFrom(BlankFirst()) && Extract(BlankFirst()) == Absent && !NotBlank(BlankFirst())
  {
    hide Encode, HeaderText, HasFrom, Extract;
    LineThenFrom("");
    var lines := ["", "From:"];
    assert lines[1..] == ["From:"] && ["From:"][1..] == [];
    assert Unfold(["From:"], None) == ["From:"];
    assert Unfold(lines, None) == ["From:"];
    OnlyFrom(BlankFirst());
    EncodeAppend(CRLF, "From:");
    assert "" + CRLF + "From:" == CRLF + "From:";
    CrlfBytes();
  }

  /** Neither has a clean start, and a hop seals each of them into a chain that fails. */
  lemma {:induction false} StartsFail(m: bytes)
    requires m == FoldFirst() || m == BlankFirst()
    ensures HasFrom(m) && Extract(m) == Absent && !CleanStart(m)
    ensures Forward(Plain(), OneHop(), m) == Some(Sent(Plain(), OneHop(), m, CvNone))
    ensures Validate(Plain(), OneHop().dns, Sent(Plain(), OneHop(), m, CvNone)) == Status(CvFail)
  {
    hide FoldFirst, BlankFirst, HasFrom, Extract, NotBlank, FoldOf, Validate, Sent, GoodHop, Publishes, NoSigned,
      Binding, Forward, Plain, OneHop, Lawful, Usable;
    FoldFirstIs();
    BlankFirstIs();
    PlainBinds();
    HopGood();
    HopPublishes();
    HopUnsigned();
    FreshMessage(Plain(), OneHop().dns, m);
    GoodHopUsable(Plain(), OneHop());
    ForwardSends(Plain(), OneHop(), m, CvNone);
    HopExact(Plain(), OneHop().dns, OneHop(), m, CvNone);
  }

  // ----- a forwarded copy that breaks -----

  function OtherSealer(): ArcSealer {
    ArcSealer([], "other", "arc")
  }

  lemma {:induction false} OtherPublishes()
    ensures Publishes(Plain(), OneHop().dns, OtherSealer()) && Configured(OtherSealer())
  {
    hide FirstKey, Lower, Compact;
    PlainKey();
  }

  lemma {:induction false} NotOwn(prior: seq<Instance>)
    requires OneEach(Plain(), prior, [OneHop()])
    ensures !OwnSeal(prior, "other")
  {
    hide ParseSeal, Tag;
    var seal := prior[0].seal;
    assert SealedBy(Plain(), prior[0], OneHop().sealer);
    PlainNames();
    if OwnSeal(prior, "other") {
      LowerSolid(Tag(seal, "d").value);
      SealDomain(Plain().decode64, seal);
      assert false;
    }
  }

  lemma {:induction false} PlainNames()
    ensures Lower(Compact("example")) == "example" && Lower("other") == "other"
  {
    CompactIdentity("example");
  }

  lemma {:induction false} LowerSolid(s: string)
    requires Lower(s) == "other"
    ensures Solid(s)
  {
    var lower := Lower(s);
    assert forall i :: 0 <= i < |s| ==> lower[i] == LowerChar(s[i]);
    assert forall i :: 0 <= i < |lower| ==> 'a' <= lower[i] <= 'z';
  }

  /** The intact message with one instance. */
  function Once(): bytes {
    match Run(Plain(), [OneHop()], FromOnly())
    case None => []
    case Some(m) => m
  }

  /** A copy of it, sealed by another domain, fails. */
  lemma {:induction false} CopyBreaks(text: string)
    ensures HasFrom(Once()) && |Prior(Once())| == 1
    ensures Validate(Plain(), OneHop().dns, Once()) == Status(CvPass)
    ensures ArcSeal(Plain(), OtherSealer(), Once(), text).Some?
    ensures Validate(Plain(), OneHop().dns, Encode(ArcSeal(Plain(), OtherSealer(), Once(), text).value) + Once())
         == Status(CvFail)
  {
    hide GoodHop, Publishes, Lawful, HasFrom, Extract, Run, Validate, Plain, FromOnly, OneHop, ArcSeal, Prior, Encode,
      CleanStart, Configured, OwnSeal, SealedBy;
    PlainLawful();
    HopGood();
    HopPublishes();
    OtherPublishes();
    FromMessage();
    StartsClean(FromOnly());
    RunPasses(Plain(), OneHop().dns, [OneHop()], FromOnly());
    NotOwn(Prior(Once()));
    SingleBreaks(Plain(), OneHop().dns, OtherSealer(), text, Once());
  }

  // ----- a message that makes extraction panic -----

  function SealField(n: nat): Field {
    Field(NameOf(Seal), " " + Numbering(n, ""))
  }

  lemma {:induction false} TwoSeals(a: Field, b: Field)
    ensures LinesText([a, b]) == HeaderLine(a.name, a.value) + HeaderLine(b.name, b.value)
    ensures FieldTexts([a, b]) == [FieldText(a), FieldText(b)]
  {
    assert [a, b][1..] == [b] && [b][1..] == [];
    assert LinesText([]) == "" && HeaderLine(b.name, b.value) + "" == HeaderLine(b.name, b.value);
    assert LinesText([b]) == HeaderLine(b.name, b.value);
    assert FieldTexts([]) == [] && FieldTexts([b]) == [FieldText(b)];
    assert [FieldText(a)] + [FieldText(b)] == [FieldText(a), FieldText(b)];
  }

  lemma {:induction false} SealFieldClean(n: nat)
    requires n < 2
    ensures Clean(SealField(n)) && HeaderLine(NameOf(Seal), " " + Numbering(n, ""))
        == "ARC-Seal: i=" + [DigitChar(n)] + ";\r\n"
  {
    assert Numbering(n, "") == "i=" + [DigitChar(n)] + ";";
  }

  lemma {:induction false} SealsPanic()
    ensures Extract(Encode(LinesText([SealField(1), SealField(0)]))) == Panics
  {
    hide Encode, Decode, Fields, ExtractHeaders, PushArc, LinesText, FieldTexts, FieldText, Numbering, Clean;
    var fields := [SealField(1), SealField(0)];
    SealFieldClean(1);
    SealFieldClean(0);
    LinesTextReads(fields);
    DecodeEncode(LinesText(fields));
    NoBlankInLines(Encode(LinesText(fields)));
    TwoSeals(SealField(1), SealField(0));
    PushBuilt(Seal, 1, "");
    PushBuilt(Seal, 0, "");
    var one, zero := RawHeader(Seal, 1, Numbering(1, "")), RawHeader(Seal, 0, Numbering(0, ""));
    TwoHeaders(FieldText(SealField(1)), FieldText(SealField(0)), one, zero);
    ZeroSecond(one, zero);
  }

  lemma {:induction false} NoBlankInLines(p: bytes)
    requires HeaderLines(p)
    ensures HeaderText(p) == Decode(p)
  {
    hide Decode;
    WholeBlock(p);
  }

  /** Two seals, numbered one and zero: extraction panics. */
  lemma {:induction false} ZeroMessagePanics()
    ensures Extract(Encode("ARC-Seal: i=1;\r\n" + "ARC-Seal: i=0;\r\n")) == Panics
  {
    hide Extract, Encode, LinesText, HeaderLine, NameOf;
    SealsPanic();
    TwoSeals(SealField(1), SealField(0));
    SealFieldClean(1);
    SealFieldClean(0);
    assert DigitChar(1) == '1' && DigitChar(0) == '0';
    assert "ARC-Seal: i=" + ['1'] + ";\r\n" == "ARC-Seal: i=1;\r\n";
    assert "ARC-Seal: i=" + ['0'] + ";\r\n" == "ARC-Seal: i=0;\r\n";
  }

  lemma {:induction false} TwoHeaders(a: string, b: string, g: RawHeader, h: RawHeader)
    requires PushArc(a) == Header(g) && PushArc(b) == Header(h)
    ensures ArcFields([a, b]) == Ok([g, h])
  {
    hide PushArc;
    assert [a, b][1..] == [b] && [b][1..] == [];
    assert ArcFields([]) == Ok([]) && [h] + [] == [h];
    assert ArcFields([b]) == Ok([h]);
    assert [g] + [h] == [g, h];
  }

  lemma {:induction false} ZeroSecond(one: RawHeader, zero: RawHeader)
    requires one.instance == 1 && zero.instance == 0
    ensures ExtractHeaders([one, zero]) == Panics
  {
    hide ExtractHeaders;
    var hs := [one, zero];
    assert hs[1..] == [zero] && [zero][1..] == [];
    assert Highest([zero]) == 0 && Highest(hs) == 1;
    assert hs[..1] == [one];
    assert ZeroFirst([], hs, 1);
    PanicsIff(hs);
  }
}
