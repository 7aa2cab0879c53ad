/** Importing an exported stream, the loops of both sides, and CRLF normalisation. */
module MboxRuns {
  import opened Text
  import opened Utf8
  import opened Mbox

  ghost predicate ValidLines(lines: seq<bytes>) {
    forall i :: 0 <= i < |lines| ==> Decode(lines[i]).Some?
  }

  lemma {:induction false} ValidTail(lines: seq<bytes>)
    requires lines != [] && Decode(lines[0]).Some?
    ensures ValidLines(lines) <==> ValidLines(lines[1..])
  {
    hide Decode;
    if ValidLines(lines[1..]) {
      forall i | 0 <= i < |lines|
        ensures Decode(lines[i]).Some?
      {
        if i > 0 {
          assert lines[i] == lines[1..][i - 1];
        }
      }
    }
  }

  /** The body of an entry after more of its lines. */
  function Grown(body: bytes, lines: seq<bytes>): bytes {
    if body == [] then Unlines(DropHeaders(lines)) else body + Unlines(lines)
  }

  lemma {:induction false} ImportStep(line: bytes, rest: seq<bytes>, body: bytes)
    requires Decode(line).Some? && !(FROM <= line)
    ensures Import([line] + rest, Some(body)) == Import(rest, Grow(Some(body), line))
  {
    hide Decode, Grow;
    assert ([line] + rest)[1..] == rest;
  }

  lemma {:induction false} UnlinesCons(line: bytes, lines: seq<bytes>)
    ensures Unlines([line] + lines) == line + CRLF_BYTES + Unlines(lines)
  {
    assert ([line] + lines)[1..] == lines;
  }

  lemma {:induction false} GrownStep(body: bytes, line: bytes, lines: seq<bytes>)
    ensures Grow(Some(body), Quote(line)).Some?
    ensures Grown(body, [line] + lines) == Grown(Grow(Some(body), Quote(line)).value, lines)
  {
    QuoteRoundTrip(line);
    UnlinesCons(line, lines);
    assert ([line] + lines)[1..] == lines;
    hide Quote, Unquote, Unlines;
    var head, tail := line + CRLF_BYTES, Unlines(lines);
    assert body + (head + tail) == (body + head) + tail;
    assert body + head == body + line + CRLF_BYTES;
    assert [] + line == line;
  }

  /** Quoted lines of an entry are unquoted and joined to its body. */
  lemma {:induction false} ImportBody(lines: seq<bytes>, rest: seq<bytes>, body: bytes)
    requires ValidLines(QuoteAll(lines))
    ensures Import(QuoteAll(lines) + rest, Some(body)) == Import(rest, Some(Grown(body, lines)))
    decreases lines
  {
    hide Decode, Import, Grow, Quote;
    if lines == [] {
      assert QuoteAll(lines) + rest == rest;
      assert body + Unlines(lines) == body;
    } else {
      var quoted := QuoteAll(lines);
      assert quoted[0] == Quote(lines[0]) && quoted[1..] == QuoteAll(lines[1..]);
      assert Decode(quoted[0]).Some?;
      assert ValidLines(QuoteAll(lines[1..]));
      QuoteRoundTrip(lines[0]);
      assert quoted + rest == [Quote(lines[0])] + (QuoteAll(lines[1..]) + rest);
      ImportStep(Quote(lines[0]), QuoteAll(lines[1..]) + rest, body);
      GrownStep(body, lines[0], lines[1..]);
      assert [lines[0]] + lines[1..] == lines;
      ImportBody(lines[1..], rest, Grow(Some(body), Quote(lines[0])).value);
    }
  }

  lemma {:induction false} DecodeEmpty()
    ensures Decode([]).Some?
  {
  }

  lemma {:induction false} BlankLine(body: bytes, rest: seq<bytes>)
    ensures Import([[]] + rest, Some(body)) == Import(rest, Some(body + CRLF_BYTES))
  {
    DecodeEmpty();
    ImportStep([], rest, body);
    assert Unquote([]) == [] && body + [] == body;
    hide Import;
  }

  lemma {:induction false} DeliverBody(lines: seq<bytes>)
    ensures Deliver(Unlines(lines) + CRLF_BYTES) == if lines == [] then [] else [Unlines(lines)]
  {
    var b := Unlines(lines) + CRLF_BYTES;
    assert b[|b| - 2..] == CRLF_BYTES && b[..|b| - 2] == Unlines(lines);
  }

  lemma {:induction false} EntryShape(m: Message, rest: seq<bytes>)
    ensures EntryLines(m) + rest ==
            [SEPARATOR] + ([X_MAILBOX + [32] + m.mailbox] + (QuoteAll(Pieces(m.data)) + ([[]] + rest)))
  {
    hide Pieces, QuoteAll;
  }

  /** One entry: what was being read is delivered, and the entry's body becomes current. */
  lemma {:induction false} ImportEntry(m: Message, rest: seq<bytes>, current: Option<bytes>)
    requires Decode(X_MAILBOX + [32] + m.mailbox).Some? && Decode(m.data).Some?
    ensures Import(EntryLines(m) + rest, current) ==
            var after := Import(rest, Some(Unlines(DropHeaders(Pieces(m.data))) + CRLF_BYTES));
            Imported(FlushEntry(current) + after.delivered, CountEntry(current) + after.count, after.ok)
  {
    hide Decode, Pieces, QuoteAll, EntryLines, Grown, Import, ValidLines;
    EntryShape(m, rest);
    DecodePieces(m.data);
    var tail := QuoteAll(Pieces(m.data)) + ([[]] + rest);
    SeparatorStarts([X_MAILBOX + [32] + m.mailbox] + tail, current);
    LabelSkipped(m.mailbox, tail);
    ImportBody(Pieces(m.data), [[]] + rest, []);
    BlankLine(Grown([], Pieces(m.data)), rest);
    GrownFresh(Pieces(m.data));
  }

  lemma {:induction false} SeparatorStarts(rest: seq<bytes>, current: Option<bytes>)
    ensures Import([SEPARATOR] + rest, current) ==
            var after := Import(rest, Some([]));
            Imported(FlushEntry(current) + after.delivered, CountEntry(current) + after.count, after.ok)
  {
    SeparatorValid();
    hide Decode;
    assert ([SEPARATOR] + rest)[1..] == rest;
    assert FROM <= SEPARATOR;
  }

  lemma {:induction false} GrownFresh(lines: seq<bytes>)
    ensures Grown([], lines) == Unlines(DropHeaders(lines))
  {
  }

  lemma {:induction false} LabelSkipped(mailbox: bytes, tail: seq<bytes>)
    requires Decode(X_MAILBOX + [32] + mailbox).Some?
    ensures Import([X_MAILBOX + [32] + mailbox] + tail, Some([])) == Import(tail, Some([]))
  {
    hide Decode;
    var tag := X_MAILBOX + [32] + mailbox;
    assert ([tag] + tail)[1..] == tail;
    assert tag[0] == 88;
    assert X_MAILBOX <= tag;
  }

  /** A line that is not UTF-8 ends the import; the entry it stands in is not delivered. */
  lemma {:induction false} ImportStops(lines: seq<bytes>, rest: seq<bytes>, body: bytes)
    requires !ValidLines(QuoteAll(lines))
    ensures Import(QuoteAll(lines) + rest, Some(body)) == Imported([], 0, false)
    decreases lines
  {
    hide Decode, Grow, Quote;
    var quoted := QuoteAll(lines);
    assert quoted[0] == Quote(lines[0]) && quoted[1..] == QuoteAll(lines[1..]);
    assert (quoted + rest)[0] == quoted[0] && (quoted + rest)[1..] == quoted[1..] + rest;
    if Decode(quoted[0]).Some? {
      QuoteRoundTrip(lines[0]);
      ValidTail(quoted);
      GrownStep(body, lines[0], []);
      ImportStops(lines[1..], rest, Grow(Some(body), Quote(lines[0])).value);
    }
  }

  lemma {:induction false} EntryStops(m: Message, rest: seq<bytes>, current: Option<bytes>)
    requires Decode(X_MAILBOX + [32] + m.mailbox).Some? && Decode(m.data).None?
    ensures Import(EntryLines(m) + rest, current) == Imported(FlushEntry(current), CountEntry(current), false)
  {
    hide Decode, Pieces, QuoteAll, EntryLines, Import, ValidLines;
    EntryShape(m, rest);
    DecodePieces(m.data);
    var tail := QuoteAll(Pieces(m.data)) + ([[]] + rest);
    SeparatorStarts([X_MAILBOX + [32] + m.mailbox] + tail, current);
    LabelSkipped(m.mailbox, tail);
    ImportStops(Pieces(m.data), [[]] + rest, []);
    assert FlushEntry(current) + [] == FlushEntry(current);
  }

  /** How many messages come before the first that is not UTF-8. */
  function Readable(messages: seq<Message>): (n: nat)
    ensures n <= |messages|
    ensures forall i :: 0 <= i < n ==> Decode(messages[i].data).Some?
    ensures n < |messages| ==> Decode(messages[n].data).None?
  {
    if messages == [] || Decode(messages[0].data).None? then 0 else 1 + Readable(messages[1..])
  }

  lemma {:induction false} ImportAll(messages: seq<Message>, current: Option<bytes>)
    requires forall i :: 0 <= i < |messages| ==> Decode(X_MAILBOX + [32] + messages[i].mailbox).Some?
    ensures var n := Readable(messages);
            Import(AllLines(messages), current) ==
            Imported(FlushEntry(current) + KeptAll(messages[..n]), CountEntry(current) + n, n == |messages|)
    decreases messages
  {
    hide Decode, EntryLines, Kept, Deliver, Pieces, DropHeaders, Unlines;
    if messages == [] {
      assert messages[..0] == [];
      assert FlushEntry(current) + [] == FlushEntry(current);
    } else {
      var m, more := messages[0], messages[1..];
      hide Import;
      if Decode(m.data).None? {
        EntryStops(m, AllLines(more), current);
        assert messages[..0] == [];
        assert FlushEntry(current) + [] == FlushEntry(current);
      } else {
        ImportEntry(m, AllLines(more), current);
        ImportAll(more, Some(Unlines(DropHeaders(Pieces(m.data))) + CRLF_BYTES));
        KeptDelivered(m.data);
        KeptFirst(messages, Readable(more));
        var kept := KeptAll(more[..Readable(more)]);
        assert FlushEntry(current) + (Kept(m.data) + kept)
            == FlushEntry(current) + KeptAll(messages[..Readable(messages)]);
      }
    }
  }

  lemma {:induction false} KeptFirst(messages: seq<Message>, n: nat)
    requires messages != [] && n <= |messages| - 1
    ensures KeptAll(messages[..n + 1]) == Kept(messages[0].data) + KeptAll(messages[1..][..n])
  {
    hide Kept;
    assert messages[..n + 1][1..] == messages[1..][..n];
  }

  lemma {:induction false} KeptDelivered(data: bytes)
    ensures Deliver(Unlines(DropHeaders(Pieces(data))) + CRLF_BYTES) == Kept(data)
  {
    DeliverBody(DropHeaders(Pieces(data)));
  }

  // ----- UTF-8 through lines -----

  lemma {:induction false} WidthBeforeAscii(a: bytes, c: byte, b: bytes)
    requires a != [] && c < 0x80
    ensures Width(a + [c] + b) == Width(a)
    ensures Width(a) > 0 ==> DecodeChar(a + [c] + b) == DecodeChar(a)
  {
    var s := a + [c] + b;
    forall i | 0 <= i < |a|
      ensures s[i] == a[i]
    {
    }
    assert s[|a|] == c;
  }

  lemma {:induction false} DecodeStepCut(a: bytes, c: byte, b: bytes) returns (w: nat)
    requires a != [] && c < 0x80
    ensures w <= |a|
    ensures w == 0 ==> Decode(a).None? && Decode(a + [c] + b).None?
    ensures w > 0 ==> (Decode(a).Some? <==> Decode(a[w..]).Some?)
    ensures w > 0 ==> (Decode(a + [c] + b).Some? <==> Decode(a[w..] + [c] + b).Some?)
  {
    WidthBeforeAscii(a, c, b);
    w := Width(a);
    assert (a + [c] + b)[w..] == a[w..] + [c] + b;
  }

  /** Text is UTF-8 exactly when its parts around an ASCII byte are. */
  lemma {:induction false} DecodeCut(a: bytes, c: byte, b: bytes)
    requires c < 0x80
    ensures Decode(a + [c] + b).Some? <==> Decode(a).Some? && Decode(b).Some?
    decreases |a|
  {
    if a == [] {
      assert (a + [c] + b)[1..] == b;
    } else {
      var w := DecodeStepCut(a, c, b);
      if w > 0 {
        DecodeCut(a[w..], c, b);
      }
    }
  }

  lemma {:induction false} DecodeStripCr(line: bytes)
    ensures Decode(StripCr(line)).Some? <==> Decode(line).Some?
  {
    if line != [] && line[|line| - 1] == 13 {
      var front := line[..|line| - 1];
      assert line == front + [13] + [];
      DecodeCut(front, 13, []);
      DecodeEmpty();
    }
  }

  lemma {:induction false} DecodeQuote(line: bytes)
    ensures Decode(Quote(line)).Some? <==> Decode(line).Some?
  {
    if NeedsQuote(line) {
      assert [] + [62] + line == [62] + line;
      DecodeCut([], 62, line);
      DecodeEmpty();
    }
  }

  lemma {:induction false} DecodePieces(data: bytes)
    ensures ValidLines(QuoteAll(Pieces(data))) <==> Decode(data).Some?
    decreases |data|
  {
    hide Decode, StripCr, Quote;
    match LfAt(data)
    case None =>
      DecodeStripCr(data);
      DecodeQuote(StripCr(data));
      var one := QuoteAll(Pieces(data));
      assert |one| == 1 && one[0] == Quote(StripCr(data));
      assert ValidLines(one) <==> Decode(one[0]).Some?;
    case Some(i) =>
      var a, b := data[..i], data[i + 1..];
      assert data == a + [10] + b;
      DecodeCut(a, 10, b);
      DecodeStripCr(a);
      DecodeQuote(StripCr(a));
      DecodePieces(b);
      var quoted := QuoteAll(Pieces(data));
      assert Pieces(data)[1..] == Pieces(b);
      assert quoted[0] == Quote(StripCr(a)) && quoted[1..] == QuoteAll(Pieces(b));
      if Decode(quoted[0]).Some? {
        ValidTail(quoted);
      }
  }

  lemma {:induction false} AsciiValid(s: bytes)
    requires forall i :: 0 <= i < |s| ==> s[i] < 128
    ensures Decode(s).Some?
  {
    if s != [] {
      AsciiValid(s[1..]);
    }
  }

  lemma {:induction false} SeparatorValid()
    ensures Decode(SEPARATOR).Some?
  {
    AsciiValid(SEPARATOR);
  }

  // ----- the round trip -----

  ghost predicate PlainMailbox(m: Message) {
    10 !in m.mailbox && Decode(X_MAILBOX + [32] + m.mailbox).Some?
  }

  /** Importing an exported stream delivers, in order, what is kept of each message before the first that is
      not UTF-8, and counts those; it reads to the end exactly when there is none. */
  lemma {:induction false} MboxRoundTrip(messages: seq<Message>)
    requires forall i :: 0 <= i < |messages| ==> PlainMailbox(messages[i])
    ensures var n := Readable(messages);
            Import(StreamLines(Export(messages)), None) == Imported(KeptAll(messages[..n]), n, n == |messages|)
  {
    hide Decode, Import, KeptAll;
    AllNoLf(messages);
    StreamUnlines(AllLines(messages));
    ImportAll(messages, None);
    var kept := KeptAll(messages[..Readable(messages)]);
    assert [] + kept == kept;
  }

  lemma {:induction false} JoinUnlines(lines: seq<bytes>)
    requires |lines| >= 1
    ensures Unlines(lines) == JoinCrlf(lines) + CRLF_BYTES
  {
    if |lines| == 1 {
      assert lines[1..] == [];
    } else {
      JoinUnlines(lines[1..]);
    }
  }

  lemma {:induction false} DropShorter(lines: seq<bytes>)
    requires lines != [] && X_MAILBOX <= lines[0]
    ensures |Unlines(DropHeaders(lines))| < |Unlines(lines)|
  {
    if lines[1..] != [] && X_MAILBOX <= lines[1] {
      DropShorter(lines[1..]);
    }
  }

  /** A message is stored as itself with CRLF line ends plus one CRLF, exactly when its first line
      does not start with `X-Mailbox:`. */
  lemma {:induction false} KeptWhole(data: bytes)
    ensures Kept(data) == [JoinCrlf(Pieces(data)) + CRLF_BYTES] <==> !(X_MAILBOX <= Pieces(data)[0])
  {
    var lines := Pieces(data);
    JoinUnlines(lines);
    hide Pieces;
    if X_MAILBOX <= lines[0] {
      DropShorter(lines);
    }
  }

  // ----- the loops -----

  /** Writes one entry line by line. */
  method WriteEntry(m: Message) returns (out: bytes)
    ensures out == Unlines(EntryLines(m))
  {
    hide Quote, Pieces;
    out := SEPARATOR + CRLF_BYTES;
    out := out + (X_MAILBOX + [32] + m.mailbox + CRLF_BYTES);
    ghost var head := [SEPARATOR, X_MAILBOX + [32] + m.mailbox];
    HeadUnlines(SEPARATOR, X_MAILBOX + [32] + m.mailbox);
    var lines := Pieces(m.data);
    for n := 0 to |lines|
      invariant out == Unlines(head + QuoteAll(lines[..n]))
    {
      var line := lines[n];
      QuoteAllPush(lines, n);
      ghost var before := head + QuoteAll(lines[..n]);
      UnlinesPush(before, Quote(line));
      assert head + QuoteAll(lines[..n + 1]) == before + [Quote(line)];
      out := out + (Quote(line) + CRLF_BYTES);
    }
    assert lines[..|lines|] == lines;
    UnlinesPush(head + QuoteAll(lines), []);
    assert [] + CRLF_BYTES == CRLF_BYTES;
    out := out + CRLF_BYTES;
  }

  lemma {:induction false} HeadUnlines(a: bytes, b: bytes)
    ensures Unlines([a, b] + QuoteAll([])) == a + CRLF_BYTES + (b + CRLF_BYTES)
  {
    var lines := [a, b] + QuoteAll([]);
    assert lines[1..] == [b] && [b][1..] == [];
    assert Unlines([b]) == b + CRLF_BYTES + [];
  }

  lemma {:induction false} UnlinesPush(lines: seq<bytes>, line: bytes)
    ensures Unlines(lines + [line]) == Unlines(lines) + (line + CRLF_BYTES)
  {
    if lines == [] {
      assert [line][1..] == [];
      assert lines + [line] == [line];
    } else {
      assert (lines + [line])[1..] == lines[1..] + [line];
      UnlinesPush(lines[1..], line);
    }
  }

  lemma {:induction false} QuoteAllPush(lines: seq<bytes>, n: nat)
    requires n < |lines|
    ensures QuoteAll(lines[..n + 1]) == QuoteAll(lines[..n]) + [Quote(lines[n])]
  {
    hide Quote;
    if n == 0 {
      var one := [lines[0]];
      assert lines[..1] == one && one[1..] == [];
    } else {
      QuoteAllPush(lines[1..], n - 1);
      assert lines[..n + 1][1..] == lines[1..][..n] && lines[..n][1..] == lines[1..][..n - 1];
    }
  }

  ghost function Then(delivered: seq<bytes>, count: nat, rest: Imported): Imported {
    Imported(delivered + rest.delivered, count + rest.count, rest.ok)
  }

  /** Reads the stream line by line, delivering an entry whenever the next separator comes. */
  method ReadMbox(stream: bytes) returns (r: Imported)
    ensures r == Import(StreamLines(stream), None)
  {
    hide Decode, Unquote;
    var lines := StreamLines(stream);
    var delivered: seq<bytes> := [];
    var count: nat := 0;
    var current: Option<bytes> := None;
    assert lines[0..] == lines;
    for n := 0 to |lines|
      invariant Import(lines, None) == Then(delivered, count, Import(lines[n..], current))
    {
      var line := lines[n];
      assert lines[n..][0] == line && lines[n..][1..] == lines[n + 1..];
      if Decode(line).None? {
        assert delivered + [] == delivered;
        return Imported(delivered, count, false);
      }
      if FROM <= line {
        ghost var rest := Import(lines[n + 1..], Some([]));
        assert delivered + (FlushEntry(current) + rest.delivered) == delivered + FlushEntry(current) + rest.delivered;
        if current.Some? {
          delivered := delivered + Deliver(current.value);
          count := count + 1;
        } else {
          assert delivered + FlushEntry(current) == delivered;
        }
        current := Some([]);
      } else if current.Some? && !(current.value == [] && X_MAILBOX <= line) {
        current := Some(current.value + Unquote(line) + CRLF_BYTES);
      }
    }
    if current.Some? {
      delivered := delivered + Deliver(current.value);
      count := count + 1;
    } else {
      assert delivered + [] == delivered;
    }
    r := Imported(delivered, count, true);
  }

  // ----- normalising line ends -----

  /** What the loop writes for one byte. */
  function Emitted(c: byte, prev: byte): bytes {
    (if c == 10 && prev != 13 then [13] else []) + [c]
  }

  /** CR before every LF that has none; `prev` is the byte before. */
  function Normalized(data: bytes, prev: byte): bytes
    decreases data
  {
    if data == [] then [] else Emitted(data[0], prev) + Normalized(data[1..], data[0])
  }

  method NormalizeCrlf(data: bytes) returns (out: bytes)
    ensures out == Normalized(data, 0)
  {
    out := [];
    var prev: byte := 0;
    assert data[0..] == data;
    for n := 0 to |data|
      invariant Normalized(data, 0) == out + Normalized(data[n..], prev)
    {
      var c := data[n];
      assert data[n..][0] == c && data[n..][1..] == data[n + 1..];
      ghost var before := out;
      if c == 10 && prev != 13 {
        out := out + [13];
      }
      out := out + [c];
      assert out == before + Emitted(c, prev);
      assert before + (Emitted(c, prev) + Normalized(data[n + 1..], c)) == out + Normalized(data[n + 1..], c);
      prev := c;
    }
    assert out + [] == out;
  }

  /** A line and its LF come out with exactly one CR between. */
  lemma {:induction false} NormalizedLine(line: bytes, rest: bytes, prev: byte)
    requires 10 !in line
    ensures Normalized(line + [10] + rest, prev) ==
            (if line == [] then Emitted(10, prev) else StripCr(line) + CRLF_BYTES) + Normalized(rest, 10)
    decreases |line|
  {
    hide Normalized;
    var s := line + [10] + rest;
    if line == [] {
      assert s == [10] + rest;
      NormalizedCons(10, rest, prev);
    } else {
      var c, more := line[0], line[1..];
      assert s == [c] + (more + [10] + rest);
      NormalizedCons(c, more + [10] + rest, prev);
      NormalizedLine(more, rest, c);
      assert Emitted(c, prev) == [c];
      LineHead(line);
      var tail := Normalized(rest, 10);
      hide StripCr, Emitted;
      var head := if more == [] then Emitted(10, c) else StripCr(more) + CRLF_BYTES;
      assert [c] + (head + tail) == ([c] + head) + tail;
      assert [c] + (StripCr(more) + CRLF_BYTES) == ([c] + StripCr(more)) + CRLF_BYTES;
    }
  }

  lemma {:induction false} NormalizedCons(c: byte, rest: bytes, prev: byte)
    ensures Normalized([c] + rest, prev) == Emitted(c, prev) + Normalized(rest, c)
  {
    assert ([c] + rest)[1..] == rest;
  }

  lemma {:induction false} LineHead(line: bytes)
    requires line != []
    ensures |line| == 1 ==> [line[0]] + Emitted(10, line[0]) == StripCr(line) + CRLF_BYTES
    ensures |line| > 1 ==> [line[0]] + StripCr(line[1..]) == StripCr(line)
  {
    if |line| == 1 {
      assert line == [line[0]];
    }
  }

  lemma {:induction false} NormalizedPlain(line: bytes, prev: byte)
    requires 10 !in line
    ensures Normalized(line, prev) == line
  {
    if line != [] {
      NormalizedPlain(line[1..], line[0]);
      assert Emitted(line[0], prev) == [line[0]];
      assert [line[0]] + line[1..] == line;
    }
  }

  function LoneCr(data: bytes): bytes {
    if data != [] && data[|data| - 1] == 13 then [13] else []
  }

  /** The one-byte-memory loop computes the message's lines joined with CRLF, and keeps a CR that ends it. */
  lemma {:induction false} NormalizedMeaning(data: bytes, prev: byte)
    requires prev != 13
    ensures Normalized(data, prev) == JoinCrlf(Pieces(data)) + LoneCr(data)
    decreases |data|
  {
    hide Normalized, JoinCrlf, Emitted;
    match LfAt(data)
    case None =>
      NormalizedPlain(data, prev);
      OneLine(data);
    case Some(i) =>
      var line, rest := data[..i], data[i + 1..];
      assert data == line + [10] + rest;
      NormalizedLine(line, rest, prev);
      NormalizedMeaning(rest, 10);
      PiecesStep(data, i);
      LoneCrTail(data, i);
      EmptyLine(prev);
      hide Pieces, StripCr, LoneCr;
      var head, tail := StripCr(line) + CRLF_BYTES, JoinCrlf(Pieces(rest));
      assert head + (tail + LoneCr(rest)) == (head + tail) + LoneCr(rest);
  }

  lemma {:induction false} OneLine(data: bytes)
    requires LfAt(data).None?
    ensures data == JoinCrlf(Pieces(data)) + LoneCr(data)
  {
    assert data == StripCr(data) + LoneCr(data);
  }

  lemma {:induction false} LoneCrTail(data: bytes, i: nat)
    requires i < |data| && data[i] == 10
    ensures LoneCr(data) == LoneCr(data[i + 1..])
  {
  }

  lemma {:induction false} EmptyLine(prev: byte)
    requires prev != 13
    ensures Emitted(10, prev) == StripCr([]) + CRLF_BYTES
  {
  }

  lemma {:induction false} PiecesStep(data: bytes, i: nat)
    requires LfAt(data) == Some(i)
    ensures JoinCrlf(Pieces(data)) == StripCr(data[..i]) + CRLF_BYTES + JoinCrlf(Pieces(data[i + 1..]))
  {
    hide StripCr;
    var rest := Pieces(data[i + 1..]);
    assert Pieces(data) == [StripCr(data[..i])] + rest;
    assert ([StripCr(data[..i])] + rest)[1..] == rest;
  }

  /** No LF stands without a CR before it. */
  ghost predicate NoBareLf(data: bytes) {
    forall i :: 0 <= i < |data| && data[i] == 10 ==> i > 0 && data[i - 1] == 13
  }

  /** The same, read from the front with the byte before. */
  predicate Crlfs(data: bytes, prev: byte)
    decreases data
  {
    data == [] || ((data[0] == 10 ==> prev == 13) && Crlfs(data[1..], data[0]))
  }

  lemma {:induction false} CrlfsMeaning(data: bytes, prev: byte, i: nat)
    requires Crlfs(data, prev) && i < |data| && data[i] == 10
    ensures (if i == 0 then prev else data[i - 1]) == 13
    decreases data
  {
    if i > 0 {
      CrlfsMeaning(data[1..], data[0], i - 1);
    }
  }

  lemma {:induction false} NormalizedFixed(data: bytes, prev: byte)
    requires Crlfs(data, prev)
    ensures Normalized(data, prev) == data
    decreases data
  {
    if data != [] {
      NormalizedFixed(data[1..], data[0]);
      assert Emitted(data[0], prev) == [data[0]];
      assert [data[0]] + data[1..] == data;
    }
  }

  lemma {:induction false} NormalizedCrlfs(data: bytes, prev: byte)
    ensures Crlfs(Normalized(data, prev), prev)
    decreases data
  {
    if data != [] {
      NormalizedCrlfs(data[1..], data[0]);
      var rest := Normalized(data[1..], data[0]);
      hide Normalized;
      assert ([data[0]] + rest)[1..] == rest;
      assert Crlfs([data[0]] + rest, if data[0] == 10 then 13 else prev);
      if data[0] == 10 && prev != 13 {
        var out := Emitted(data[0], prev) + rest;
        assert out[0] == 13 && out[1..] == [data[0]] + rest;
        assert Crlfs(out, prev);
      } else {
        assert Emitted(data[0], prev) == [data[0]];
      }
    }
  }

  /** Normalising leaves no bare LF, and doing it again changes nothing. */
  lemma {:induction false} NormalizedTwice(data: bytes)
    ensures NoBareLf(Normalized(data, 0))
    ensures Normalized(Normalized(data, 0), 0) == Normalized(data, 0)
  {
    var out := Normalized(data, 0);
    NormalizedCrlfs(data, 0);
    NormalizedFixed(out, 0);
    forall i | 0 <= i < |out| && out[i] == 10
      ensures i > 0 && out[i - 1] == 13
    {
      CrlfsMeaning(out, 0, i);
    }
  }
}
