/** What an import makes of any stream, exported or not. */
module MboxStreams {
  import opened Text
  import opened Utf8
  import opened Mbox
  import opened MboxRuns

  // ----- lines -----

  function Glued(lines: seq<bytes>, ends: seq<bytes>): bytes
    requires |lines| == |ends|
  {
    if lines == [] then [] else lines[0] + ends[0] + Glued(lines[1..], ends[1..])
  }

  /** A line and its end: LF or CRLF, or at the very end of a stream nothing behind some bytes. */
  predicate Ended(line: bytes, end: bytes, last: bool) {
    && 10 !in line
    && (|| end == [13, 10]
        || (end == [10] && (line == [] || line[|line| - 1] != 13))
        || (last && end == [] && line != []))
  }

  /** The stream cut into lines, with the ends they had. */
  predicate Cut(s: bytes, lines: seq<bytes>, ends: seq<bytes>) {
    && |lines| == |ends|
    && s == Glued(lines, ends)
    && forall i :: 0 <= i < |lines| ==> Ended(lines[i], ends[i], i == |lines| - 1)
  }

  lemma {:induction false} GluedFirst(line: bytes, end: bytes, lines: seq<bytes>, ends: seq<bytes>)
    requires |lines| == |ends|
    ensures Glued([line] + lines, [end] + ends) == line + end + Glued(lines, ends)
  {
    assert ([line] + lines)[1..] == lines && ([end] + ends)[1..] == ends;
  }

  lemma {:induction false} CutFirst(line: bytes, end: bytes, rest: bytes, lines: seq<bytes>, ends: seq<bytes>)
    requires Cut(rest, lines, ends) && end != [] && Ended(line, end, false)
    ensures Cut(line + end + rest, [line] + lines, [end] + ends)
  {
    hide Ended;
    GluedFirst(line, end, lines, ends);
    var all, tails := [line] + lines, [end] + ends;
    forall i | 0 <= i < |all|
      ensures Ended(all[i], tails[i], i == |all| - 1)
    {
      if i > 0 {
        assert Ended(lines[i - 1], ends[i - 1], i - 1 == |lines| - 1);
      } else {
        EndedLast(line, end);
      }
    }
  }

  lemma {:induction false} EndedLast(line: bytes, end: bytes)
    requires Ended(line, end, false)
    ensures Ended(line, end, true)
  {
  }

  /** Every stream is cut into its lines. */
  lemma {:induction false} StreamCut(s: bytes) returns (ends: seq<bytes>)
    ensures Cut(s, StreamLines(s), ends)
    decreases |s|
  {
    hide Glued;
    if s == [] {
      ends := [];
      NothingGlued();
    } else {
      match LfAt(s)
      case None =>
        ends := [[]];
        NothingGlued();
        GluedFirst(s, [], [], []);
        assert [s] + [] == [s] && [[]] + [] == ends && s + [] + [] == s;
      case Some(i) =>
        var line, rest := s[..i], s[i + 1..];
        var more := StreamCut(rest);
        var end := if line != [] && line[|line| - 1] == 13 then [13, 10] else [10];
        assert s == StripCr(line) + end + rest;
        CutFirst(StripCr(line), end, rest, StreamLines(rest), more);
        ends := [end] + more;
    }
  }

  lemma {:induction false} NothingGlued()
    ensures Glued([], []) == []
  {
  }

  /** And in no other way. */
  lemma {:induction false} CutOnly(s: bytes, lines: seq<bytes>, ends: seq<bytes>)
    requires Cut(s, lines, ends)
    ensures StreamLines(s) == lines
    decreases lines
  {
    if lines != [] {
      var line, end, more, tails := lines[0], ends[0], lines[1..], ends[1..];
      var rest := Glued(more, tails);
      assert Ended(line, end, |lines| == 1);
      assert s == line + end + rest && lines == [line] + more;
      if end == [] {
        assert more == [] && tails == [];
        assert s == line;
        assert LfAt(s) == None;
      } else {
        forall i | 0 <= i < |more|
          ensures Ended(more[i], tails[i], i == |more| - 1)
        {
          assert Ended(lines[i + 1], ends[i + 1], i + 1 == |lines| - 1);
        }
        CutOnly(rest, more, tails);
        FirstLine(line, end, rest);
      }
    }
  }

  lemma {:induction false} FirstLine(line: bytes, end: bytes, rest: bytes)
    requires end != [] && Ended(line, end, false)
    ensures StreamLines(line + end + rest) == [line] + StreamLines(rest)
  {
    if end == [13, 10] {
      StreamLine(line, rest);
    } else {
      var s := line + [10] + rest;
      LfAtAppend(line, rest);
      assert s[..|line|] == line && s[|line| + 1..] == rest;
    }
  }

  /** A missing last line feed makes no difference, unless a CR would be taken with it. */
  lemma {:induction false} FinalLf(s: bytes)
    requires s != [] && s[|s| - 1] != 10 && s[|s| - 1] != 13
    ensures StreamLines(s + [10]) == StreamLines(s)
    decreases |s|
  {
    hide StreamLines, StripCr;
    match LfAt(s)
    case None =>
      NextLine(s, []);
      LastLine(s);
      assert s + [10] + [] == s + [10];
    case Some(i) =>
      var line, rest := s[..i], s[i + 1..];
      FinalLf(rest);
      NextLine(line, rest);
      NextLine(line, rest + [10]);
      assert s == line + [10] + rest && s + [10] == line + [10] + (rest + [10]);
  }

  lemma {:induction false} NextLine(line: bytes, rest: bytes)
    requires 10 !in line
    ensures StreamLines(line + [10] + rest) == [StripCr(line)] + StreamLines(rest)
  {
    hide StripCr;
    var s := line + [10] + rest;
    LfAtAppend(line, rest);
    assert s[..|line|] == line && s[|line| + 1..] == rest;
  }

  lemma {:induction false} LastLine(s: bytes)
    requires s != [] && 10 !in s && s[|s| - 1] != 13
    ensures StreamLines(s) == [StripCr(s)] + StreamLines([])
  {
  }

  // ----- entries -----

  /** A separator and the lines up to the next. */
  datatype Entry = Entry(separator: bytes, lines: seq<bytes>)

  /** `From ` in front. */
  predicate Separates(line: bytes) {
    Encode("From ") <= line
  }

  predicate NoneSeparates(lines: seq<bytes>) {
    forall i :: 0 <= i < |lines| ==> !Separates(lines[i])
  }

  predicate AllEntries(entries: seq<Entry>) {
    forall i :: 0 <= i < |entries| ==> Separates(entries[i].separator) && NoneSeparates(entries[i].lines)
  }

  function LinesOf(entries: seq<Entry>): seq<bytes> {
    if entries == [] then [] else [entries[0].separator] + entries[0].lines + LinesOf(entries[1..])
  }

  function UnquoteAll(lines: seq<bytes>): (r: seq<bytes>)
    ensures |r| == |lines|
  {
    if lines == [] then [] else [Unquote(lines[0])] + UnquoteAll(lines[1..])
  }

  /** What is stored of an entry: its lines behind any `X-Mailbox:` ones, unquoted, with CRLF between; nothing
      if that is empty. */
  function Stored(entry: Entry): seq<bytes> {
    var lines := UnquoteAll(DropHeaders(entry.lines));
    if lines == [] || JoinCrlf(lines) == [] then [] else [JoinCrlf(lines)]
  }

  function StoredAll(entries: seq<Entry>): seq<bytes> {
    if entries == [] then [] else Stored(entries[0]) + StoredAll(entries[1..])
  }

  lemma {:induction false} FromSpelled()
    ensures FROM == Encode("From ")
  {
    EncodeAscii("From ");
  }

  lemma {:induction false} SeparatorSpelled()
    ensures SEPARATOR == Encode("From ") + Encode("MAILER-DAEMON") + Encode("@localhost")
  {
    hide Encode;
    FromSpelled();
    EncodeAscii("MAILER-DAEMON");
    EncodeAscii("@localhost");
    var a: bytes := [77, 65, 73, 76, 69, 82, 45, 68, 65, 69, 77, 79, 78];
    var b: bytes := [64, 108, 111, 99, 97, 108, 104, 111, 115, 116];
    assert Encode("MAILER-DAEMON") == a && Encode("@localhost") == b;
    assert SEPARATOR == FROM + (a + b);
  }

  lemma {:induction false} LabelSpelled()
    ensures X_MAILBOX == Encode("X-Mailbox:")
  {
    hide Encode;
    EncodeAscii("X-Mailbox:");
  }

  /** An exported entry begins with these two lines. */
  lemma {:induction false} EntrySpelled(m: Message)
    ensures |EntryLines(m)| >= 3
    ensures EntryLines(m)[0] == Encode("From ") + Encode("MAILER-DAEMON") + Encode("@localhost")
    ensures EntryLines(m)[1] == Encode("X-Mailbox:") + [32] + m.mailbox
  {
    hide Encode, Pieces, QuoteAll;
    SeparatorSpelled();
    LabelSpelled();
  }

  /** The body after more lines. */
  function Added(body: bytes, lines: seq<bytes>): bytes {
    if body == [] then Unlines(UnquoteAll(DropHeaders(lines))) else body + Unlines(UnquoteAll(lines))
  }

  lemma {:induction false} AddedStep(body: bytes, line: bytes, lines: seq<bytes>)
    ensures Grow(Some(body), line).Some?
    ensures Added(body, [line] + lines) == Added(Grow(Some(body), line).value, lines)
  {
    hide Unquote;
    var all := [line] + lines;
    assert all[1..] == lines;
    assert UnquoteAll(all) == [Unquote(line)] + UnquoteAll(lines);
    UnlinesCons(Unquote(line), UnquoteAll(lines));
    var head, tail := Unquote(line) + CRLF_BYTES, Unlines(UnquoteAll(lines));
    assert body + (head + tail) == (body + head) + tail;
    assert body + head == body + Unquote(line) + CRLF_BYTES && [] + Unquote(line) == Unquote(line);
  }

  /** Lines that do not separate go to the entry they stand in, if there is one. */
  lemma {:induction false} ImportLines(lines: seq<bytes>, rest: seq<bytes>, current: Option<bytes>)
    requires ValidLines(lines) && NoneSeparates(lines)
    ensures Import(lines + rest, current) ==
            Import(rest, if current.None? then None else Some(Added(current.value, lines)))
    decreases lines
  {
    hide Decode, Import, Grow;
    FromSpelled();
    if lines == [] {
      assert lines + rest == rest;
      NothingAdded(current);
    } else {
      var line, more := lines[0], lines[1..];
      assert lines == [line] + more && lines + rest == [line] + (more + rest);
      assert Decode(line).Some? && !Separates(line);
      assert ValidLines(more) && NoneSeparates(more);
      OneLine(line, more + rest, current);
      if current.Some? {
        AddedStep(current.value, line, more);
      }
      NoEntry(line);
      ImportLines(more, rest, Grow(current, line));
    }
  }

  lemma {:induction false} NoEntry(line: bytes)
    ensures Grow(None, line) == None
  {
  }

  lemma {:induction false} NothingAdded(current: Option<bytes>)
    ensures current.Some? ==> Added(current.value, []) == current.value
  {
    if current.Some? {
      assert current.value + [] == current.value;
    }
  }

  lemma {:induction false} OneLine(line: bytes, rest: seq<bytes>, current: Option<bytes>)
    requires Decode(line).Some? && !(FROM <= line)
    ensures Import([line] + rest, current) == Import(rest, Grow(current, line))
  {
    hide Decode, Grow;
    assert ([line] + rest)[1..] == rest;
  }

  lemma {:induction false} OneSeparator(line: bytes, rest: seq<bytes>, current: Option<bytes>)
    requires Decode(line).Some? && Separates(line)
    ensures Import([line] + rest, current) == Then(FlushEntry(current), CountEntry(current), Import(rest, Some([])))
  {
    hide Decode;
    FromSpelled();
    assert ([line] + rest)[1..] == rest;
  }

  lemma {:induction false} EntryStored(entry: Entry)
    ensures Deliver(Added([], entry.lines)) == Stored(entry)
  {
    hide Unquote, DropHeaders;
    var lines := UnquoteAll(DropHeaders(entry.lines));
    if lines != [] {
      JoinUnlines(lines);
      var body := Unlines(lines);
      assert body[|body| - 2..] == CRLF_BYTES && body[..|body| - 2] == JoinCrlf(lines);
    }
  }

  ghost predicate ValidEntries(entries: seq<Entry>) {
    forall i :: 0 <= i < |entries| ==> Decode(entries[i].separator).Some? && ValidLines(entries[i].lines)
  }

  /** Entries one after the other: each is delivered when the next begins. */
  lemma {:induction false} ImportEntries(entries: seq<Entry>, rest: seq<bytes>, current: Option<bytes>)
    requires entries != [] && AllEntries(entries) && ValidEntries(entries)
    ensures Import(LinesOf(entries) + rest, current) ==
            var n := |entries| - 1;
            Then(FlushEntry(current) + StoredAll(entries[..n]), CountEntry(current) + n,
                 Import(rest, Some(Added([], entries[n].lines))))
    decreases entries
  {
    hide Decode, Import, Deliver, Stored, Added, Separates;
    var e, more := entries[0], entries[1..];
    var behind := e.lines + (LinesOf(more) + rest);
    assert LinesOf(entries) + rest == [e.separator] + behind;
    OneSeparator(e.separator, behind, current);
    ImportLines(e.lines, LinesOf(more) + rest, Some([]));
    EntryStored(e);
    var body := Added([], e.lines);
    if more == [] {
      assert LinesOf(more) + rest == rest && entries[..0] == [];
      assert FlushEntry(current) + StoredAll(entries[..0]) == FlushEntry(current);
    } else {
      assert AllEntries(more) && ValidEntries(more);
      ImportEntries(more, rest, Some(body));
      var n := |more| - 1;
      StoredFirst(entries, n);
      assert more[n] == entries[n + 1];
      ThenThen(FlushEntry(current), CountEntry(current), Stored(e) + StoredAll(more[..n]), 1 + n,
               Import(rest, Some(Added([], more[n].lines))));
    }
  }

  lemma {:induction false} StoredFirst(entries: seq<Entry>, n: nat)
    requires entries != [] && n <= |entries| - 1
    ensures StoredAll(entries[..n + 1]) == Stored(entries[0]) + StoredAll(entries[1..][..n])
  {
    hide Stored;
    assert entries[..n + 1][1..] == entries[1..][..n];
  }

  lemma {:induction false} ThenThen(a: seq<bytes>, m: nat, b: seq<bytes>, n: nat, r: Imported)
    ensures Then(a, m, Then(b, n, r)) == Then(a + b, m + n, r)
  {
    assert a + (b + r.delivered) == a + b + r.delivered;
  }

  lemma {:induction false} StoredLast(entries: seq<Entry>)
    requires entries != []
    ensures StoredAll(entries) == StoredAll(entries[..|entries| - 1]) + Stored(entries[|entries| - 1])
  {
    hide Stored;
    if |entries| == 1 {
      assert entries[..0] == [] && entries[1..] == [];
    } else {
      var n := |entries| - 1;
      StoredLast(entries[1..]);
      assert entries[..n][1..] == entries[1..][..n - 1] && entries[1..][n - 1] == entries[n];
    }
  }

  /** A stream that is UTF-8 throughout: what comes before the first separator is ignored, and every entry is
      counted and stored, in order. */
  lemma {:induction false} ImportExact(before: seq<bytes>, entries: seq<Entry>)
    requires ValidLines(before) && NoneSeparates(before) && AllEntries(entries) && ValidEntries(entries)
    ensures Import(before + LinesOf(entries), None) == Imported(StoredAll(entries), |entries|, true)
  {
    hide Decode, Import, Added, Stored, Separates, Deliver;
    ImportLines(before, LinesOf(entries), None);
    NothingLeft(None);
    if entries == [] {
      assert before + LinesOf(entries) == before + [];
    } else {
      var n := |entries| - 1;
      var body := Added([], entries[n].lines);
      ImportEntries(entries, [], None);
      assert LinesOf(entries) + [] == LinesOf(entries);
      NothingLeft(Some(body));
      EntryStored(entries[n]);
      StoredLast(entries);
      assert [] + StoredAll(entries[..n]) == StoredAll(entries[..n]);
    }
  }

  lemma {:induction false} NothingLeft(current: Option<bytes>)
    ensures Import([], current) == Imported(FlushEntry(current), CountEntry(current), true)
  {
  }

  /** A line that is not UTF-8 ends the import: the entries before the one it stands in are counted and stored. */
  lemma {:induction false} ImportBroken(before: seq<bytes>, entries: seq<Entry>, bad: bytes, rest: seq<bytes>)
    requires ValidLines(before) && NoneSeparates(before) && AllEntries(entries) && ValidEntries(entries)
    requires Decode(bad).None?
    ensures Import(before + (LinesOf(entries) + ([bad] + rest)), None) ==
            var n := if entries == [] then 0 else |entries| - 1;
            Imported(StoredAll(entries[..n]), n, false)
  {
    hide Decode, Import, Added, Stored, Separates, Deliver;
    ImportLines(before, LinesOf(entries) + ([bad] + rest), None);
    if entries == [] {
      BadLine(bad, rest, None);
      assert LinesOf(entries) + ([bad] + rest) == [bad] + rest && entries[..0] == [];
    } else {
      var n := |entries| - 1;
      ImportEntries(entries, [bad] + rest, None);
      BadLine(bad, rest, Some(Added([], entries[n].lines)));
      assert [] + StoredAll(entries[..n]) + [] == StoredAll(entries[..n]);
    }
  }

  lemma {:induction false} BadLine(bad: bytes, rest: seq<bytes>, current: Option<bytes>)
    requires Decode(bad).None?
    ensures Import([bad] + rest, current) == Imported([], 0, false)
  {
    hide Decode;
  }

  /** Every list of lines is of that shape. */
  lemma {:induction false} EntriesOf(lines: seq<bytes>) returns (before: seq<bytes>, entries: seq<Entry>)
    ensures lines == before + LinesOf(entries) && NoneSeparates(before) && AllEntries(entries)
  {
    hide Separates;
    if lines == [] {
      before, entries := [], [];
    } else {
      var front, rest := EntriesOf(lines[1..]);
      assert lines == [lines[0]] + lines[1..];
      if Separates(lines[0]) {
        before, entries := [], [Entry(lines[0], front)] + rest;
        assert entries[1..] == rest;
        assert LinesOf(entries) == [lines[0]] + front + LinesOf(rest);
        assert [lines[0]] + (front + LinesOf(rest)) == [lines[0]] + front + LinesOf(rest);
      } else {
        before, entries := [lines[0]] + front, rest;
      }
    }
  }

  // ----- quoting -----

  /** `From ` behind `n` characters, all of them `>`. */
  predicate FromBehind(line: bytes, n: nat) {
    n <= |line| && (forall i :: 0 <= i < n ==> line[i] == 62) && Encode("From ") <= line[n..]
  }

  lemma {:induction false} AfterGtMeaning(line: bytes)
    ensures Encode("From ") <= AfterGt(line) <==> exists n: nat :: FromBehind(line, n)
    decreases line
  {
    FromSpelled();
    hide Encode;
    assert line[0..] == line;
    if line != [] && line[0] == 62 {
      var rest := line[1..];
      AfterGtMeaning(rest);
      if n: nat :| FromBehind(rest, n) {
        BehindOneMore(line, n);
      }
      if n: nat :| FromBehind(line, n) {
        BehindSome(line, n);
        BehindOneMore(line, n - 1);
      }
    } else {
      assert FromBehind(line, 0) <==> Encode("From ") <= line;
      forall n: nat | n > 0
        ensures !FromBehind(line, n)
      {
        OtherStart(line, n);
      }
    }
  }

  lemma {:induction false} BehindSome(line: bytes, n: nat)
    requires line != [] && line[0] == 62 && FromBehind(line, n)
    ensures n > 0
  {
    FromSpelled();
    hide Encode;
    assert line[0..] == line;
  }

  lemma {:induction false} BehindOneMore(line: bytes, n: nat)
    requires line != [] && line[0] == 62
    ensures FromBehind(line, n + 1) <==> FromBehind(line[1..], n)
  {
    hide Encode;
    if n + 1 <= |line| {
      assert line[n + 1..] == line[1..][n..];
      assert forall i :: 0 <= i < n ==> line[i + 1] == line[1..][i];
      if forall i :: 0 <= i < n ==> line[1..][i] == 62 {
        forall i | 0 <= i < n + 1
          ensures line[i] == 62
        {
          assert i > 0 ==> line[i] == line[1..][i - 1];
        }
      }
    }
  }

  /** A line is quoted exactly when it is `From ` behind any number of `>`, and unquoted exactly when that number
      is not zero; each time by one. */
  lemma {:induction false} QuoteMeaning(line: bytes)
    ensures (exists n: nat :: FromBehind(line, n)) ==> Quote(line) == [62] + line
    ensures (forall n: nat :: !FromBehind(line, n)) ==> Quote(line) == line
    ensures (exists n: nat :: n > 0 && FromBehind(line, n)) ==> line != [] && Unquote(line) == line[1..]
    ensures (forall n: nat :: n > 0 ==> !FromBehind(line, n)) ==> Unquote(line) == line
  {
    hide Encode, AfterGt, FromBehind;
    FromSpelled();
    AfterGtMeaning(line);
    if line != [] && line[0] == 62 {
      AfterGtMeaning(line[1..]);
      if n: nat :| FromBehind(line[1..], n) {
        BehindOneMore(line, n);
      }
      if n: nat :| n > 0 && FromBehind(line, n) {
        BehindOneMore(line, n - 1);
      }
    } else {
      forall n: nat | n > 0
        ensures !FromBehind(line, n)
      {
        OtherStart(line, n);
      }
    }
  }

  lemma {:induction false} OtherStart(line: bytes, n: nat)
    requires n > 0 && (line == [] || line[0] != 62)
    ensures !FromBehind(line, n)
  {
    hide Encode;
  }
}
