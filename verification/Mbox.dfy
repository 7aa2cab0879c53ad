/** The mboxrd export and import of mailboxes, and the CRLF normaliser. */
module Mbox {
  import opened Text
  import opened Utf8

  const CRLF_BYTES: bytes := [13, 10]
  /** `From ` */
  const FROM: bytes := [70, 114, 111, 109, 32]
  /** `From MAILER-DAEMON@localhost` */
  const SEPARATOR: bytes := FROM + [77, 65, 73, 76, 69, 82, 45, 68, 65, 69, 77, 79, 78, 64, 108, 111, 99, 97, 108,
      104, 111, 115, 116]
  /** `X-Mailbox:` */
  const X_MAILBOX: bytes := [88, 45, 77, 97, 105, 108, 98, 111, 120, 58]

  datatype Message = Message(mailbox: bytes, data: bytes)

  function LfAt(s: bytes): (r: Option<nat>)
    ensures r.Some? ==> r.value < |s| && s[r.value] == 10 && 10 !in s[..r.value]
    ensures r.None? <==> 10 !in s
  {
    if s == [] then None
    else if s[0] == 10 then Some(0)
    else
      match LfAt(s[1..])
      case None => None
      case Some(i) =>
        assert s[..i + 1] == [s[0]] + s[1..][..i];
        Some(i + 1)
  }

  function StripCr(line: bytes): bytes {
    if line != [] && line[|line| - 1] == 13 then line[..|line| - 1] else line
  }

  /** The lines of a message: split on LF, one trailing CR dropped from each. */
  function Pieces(data: bytes): (r: seq<bytes>)
    ensures |r| >= 1
    decreases |data|
  {
    match LfAt(data)
    case None => [StripCr(data)]
    case Some(i) => [StripCr(data[..i])] + Pieces(data[i + 1..])
  }

  /** `line` after its leading `>`s. */
  function AfterGt(line: bytes): bytes {
    if line != [] && line[0] == 62 then AfterGt(line[1..]) else line
  }

  predicate NeedsQuote(line: bytes) {
    FROM <= AfterGt(line)
  }

  function Quote(line: bytes): bytes {
    if NeedsQuote(line) then [62] + line else line
  }

  function Unquote(line: bytes): bytes {
    if line != [] && line[0] == 62 && FROM <= AfterGt(line[1..]) then line[1..] else line
  }

  function QuoteAll(lines: seq<bytes>): (r: seq<bytes>)
    ensures |r| == |lines|
  {
    if lines == [] then [] else [Quote(lines[0])] + QuoteAll(lines[1..])
  }

  function Unlines(lines: seq<bytes>): bytes {
    if lines == [] then [] else lines[0] + CRLF_BYTES + Unlines(lines[1..])
  }

  /** The lines of one mbox entry. */
  function EntryLines(m: Message): seq<bytes> {
    [SEPARATOR, X_MAILBOX + [32] + m.mailbox] + QuoteAll(Pieces(m.data)) + [[]]
  }

  function AllLines(messages: seq<Message>): seq<bytes> {
    if messages == [] then [] else EntryLines(messages[0]) + AllLines(messages[1..])
  }

  /** The exported stream. */
  function Export(messages: seq<Message>): bytes {
    Unlines(AllLines(messages))
  }

  // ----- import -----

  /** `BufRead::lines`: a line ends at LF, and one CR before it goes too; a last line may have no LF. */
  function StreamLines(s: bytes): seq<bytes>
    decreases |s|
  {
    if s == [] then []
    else
      match LfAt(s)
      case None => [s]
      case Some(i) => [StripCr(s[..i])] + StreamLines(s[i + 1..])
  }

  /** What was delivered, how many entries were counted, and whether the whole stream was read. */
  datatype Imported = Imported(delivered: seq<bytes>, count: nat, ok: bool)

  /** Deliver a body without its last CRLF; an empty one is counted but not stored. */
  function Deliver(body: bytes): seq<bytes> {
    var trimmed := if |body| >= 2 && body[|body| - 2..] == CRLF_BYTES then body[..|body| - 2] else body;
    if trimmed == [] then [] else [trimmed]
  }

  function FlushEntry(current: Option<bytes>): seq<bytes> {
    if current.Some? then Deliver(current.value) else []
  }

  function CountEntry(current: Option<bytes>): nat {
    if current.Some? then 1 else 0
  }

  /** The entry being read after one more line of it. */
  function Grow(current: Option<bytes>, line: bytes): Option<bytes> {
    if current.None? then None
    else if current.value == [] && X_MAILBOX <= line then current
    else Some(current.value + Unquote(line) + CRLF_BYTES)
  }

  /** Reading the lines from here on; a line that is not UTF-8 ends the import. */
  function Import(lines: seq<bytes>, current: Option<bytes>): Imported
    decreases lines
  {
    if lines == [] then Imported(FlushEntry(current), CountEntry(current), true)
    else if Decode(lines[0]).None? then Imported([], 0, false)
    else if FROM <= lines[0] then
      var rest := Import(lines[1..], Some([]));
      Imported(FlushEntry(current) + rest.delivered, CountEntry(current) + rest.count, rest.ok)
    else Import(lines[1..], Grow(current, lines[0]))
  }

  // ----- what export and import keep -----

  function DropHeaders(lines: seq<bytes>): seq<bytes> {
    if lines != [] && X_MAILBOX <= lines[0] then DropHeaders(lines[1..]) else lines
  }

  /** What an imported message is stored as. */
  function Kept(data: bytes): seq<bytes> {
    var rest := DropHeaders(Pieces(data));
    if rest == [] then [] else [Unlines(rest)]
  }

  function KeptAll(messages: seq<Message>): seq<bytes> {
    if messages == [] then [] else Kept(messages[0].data) + KeptAll(messages[1..])
  }

  /** The message with CRLF between its lines. */
  function JoinCrlf(lines: seq<bytes>): bytes
    requires |lines| >= 1
  {
    if |lines| == 1 then lines[0] else lines[0] + CRLF_BYTES + JoinCrlf(lines[1..])
  }

  // ----- lemmas: quoting -----

  lemma {:induction false} AfterGtStep(line: bytes)
    requires line != [] && line[0] == 62
    ensures AfterGt(line) == AfterGt(line[1..])
  {
  }

  /** Unquoting undoes quoting, and a quoted line is never a separator. */
  lemma {:induction false} QuoteRoundTrip(line: bytes)
    ensures Unquote(Quote(line)) == line
    ensures !(FROM <= Quote(line))
    ensures X_MAILBOX <= Quote(line) <==> X_MAILBOX <= line
  {
    if NeedsQuote(line) {
      assert ([62] + line)[1..] == line;
      if line != [] && line[0] != 62 {
        assert AfterGt(line) == line;
      }
    } else if line != [] && line[0] == 62 {
      AfterGtStep(line);
    }
  }

  // ----- lemmas: lines -----

  lemma {:induction false} LfAtAppend(a: bytes, b: bytes)
    requires 10 !in a
    ensures LfAt(a + [10] + b) == Some(|a|)
  {
    if a != [] {
      assert (a + [10] + b)[1..] == a[1..] + [10] + b;
      LfAtAppend(a[1..], b);
    }
  }

  lemma {:induction false} StreamLine(line: bytes, rest: bytes)
    requires 10 !in line
    ensures StreamLines(line + CRLF_BYTES + rest) == [line] + StreamLines(rest)
  {
    var s := line + CRLF_BYTES + rest;
    assert s == (line + [13]) + [10] + rest;
    LfAtAppend(line + [13], rest);
    assert s[..|line| + 1] == line + [13] && s[|line| + 2..] == rest;
    assert (line + [13])[..|line|] == line;
  }

  ghost predicate NoLf(lines: seq<bytes>) {
    forall i :: 0 <= i < |lines| ==> 10 !in lines[i]
  }

  /** Reading a written stream gives the written lines. */
  lemma {:induction false} StreamUnlines(lines: seq<bytes>)
    requires NoLf(lines)
    ensures StreamLines(Unlines(lines)) == lines
  {
    if lines != [] {
      StreamUnlines(lines[1..]);
      StreamLine(lines[0], Unlines(lines[1..]));
      assert lines == [lines[0]] + lines[1..];
    }
  }

  lemma {:induction false} PiecesNoLf(data: bytes)
    ensures NoLf(Pieces(data))
    decreases |data|
  {
    match LfAt(data)
    case None =>
    case Some(i) => PiecesNoLf(data[i + 1..]);
  }

  lemma {:induction false} QuoteAllNoLf(lines: seq<bytes>)
    requires NoLf(lines)
    ensures NoLf(QuoteAll(lines))
  {
    if lines != [] {
      assert NoLf(lines[1..]);
      QuoteAllNoLf(lines[1..]);
    }
  }

  lemma {:induction false} EntryNoLf(m: Message)
    requires 10 !in m.mailbox
    ensures NoLf(EntryLines(m))
  {
    PiecesNoLf(m.data);
    QuoteAllNoLf(Pieces(m.data));
    hide Pieces, QuoteAll;
    assert 10 !in SEPARATOR && 10 !in X_MAILBOX;
  }

  lemma {:induction false} AllNoLf(messages: seq<Message>)
    requires forall i :: 0 <= i < |messages| ==> 10 !in messages[i].mailbox
    ensures NoLf(AllLines(messages))
  {
    if messages != [] {
      EntryNoLf(messages[0]);
      AllNoLf(messages[1..]);
      hide EntryLines;
    }
  }
}
