/** The header block of a raw message: where it ends, its lines, and unfolding. */
module Headers {
  import opened Text
  import opened Utf8

  const BLANK: bytes := [13, 10, 13, 10]

  /** Position of the first CRLF CRLF. */
  function BlankAt(raw: bytes): (r: Option<nat>)
    ensures r.Some? ==> r.value + 4 <= |raw|
  {
    if |raw| < 4 then None
    else if raw[..4] == BLANK then Some(0)
    else
      match BlankAt(raw[1..])
      case None => None
      case Some(i) => Some(i + 1)
  }

  function HeaderEnd(raw: bytes): (n: nat)
    ensures n <= |raw|
  {
    match BlankAt(raw)
    case None => |raw|
    case Some(p) => p + 2
  }

  function Body(raw: bytes): bytes {
    match BlankAt(raw)
    case None => []
    case Some(p) => raw[p + 4..]
  }

  /** The header block as text; nothing when it is not UTF-8. */
  function HeaderText(raw: bytes): Option<string> {
    Decode(raw[..HeaderEnd(raw)])
  }

  /** Index of the first CRLF of a text. */
  function CrlfAt(s: string): (r: Option<nat>)
    ensures r.Some? ==> r.value + 2 <= |s| && s[r.value] == CR && s[r.value + 1] == LF
  {
    if |s| < 2 then None
    else if s[0] == CR && s[1] == LF then Some(0)
    else
      match CrlfAt(s[1..])
      case None => None
      case Some(i) => Some(i + 1)
  }

  /** The lines of a block, each without its CRLF. */
  function Lines(s: string): (r: seq<string>)
    ensures s != "" ==> r != []
    decreases |s|
  {
    if s == "" then []
    else
      match CrlfAt(s)
      case None => [s]
      case Some(i) => [s[..i]] + Lines(s[i + 2..])
  }

  predicate Folded(line: string) {
    line != "" && (line[0] == ' ' || line[0] == '\t')
  }

  function Flush(current: Option<string>): seq<string> {
    if current.Some? then [current.value] else []
  }

  function Extend(current: Option<string>, line: string): Option<string> {
    if current.Some? then Some(current.value + line) else None
  }

  function Begin(line: string): Option<string> {
    if line != "" then Some(line) else None
  }

  /** Header fields with their continuation lines joined on; `current` is the field being read. */
  function Unfold(lines: seq<string>, current: Option<string>): seq<string>
    decreases lines
  {
    if lines == [] then Flush(current)
    else if Folded(lines[0]) then Unfold(lines[1..], Extend(current, lines[0]))
    else Flush(current) + Unfold(lines[1..], Begin(lines[0]))
  }

  function Fields(block: string): seq<string> {
    Unfold(Lines(block), None)
  }

  /** The continuation lines at the front. */
  function FoldLines(lines: seq<string>): string {
    if lines == [] || !Folded(lines[0]) then "" else lines[0] + FoldLines(lines[1..])
  }

  /** The continuation lines a block starts with: they belong to no field, unless one is put in front. */
  function Fold(block: string): string {
    FoldLines(Lines(block))
  }

  /** Whole header lines: nothing, or text ending in CRLF with no empty line inside. */
  predicate HeaderLines(p: bytes) {
    p == [] || (|p| >= 2 && p[|p| - 2] == 13 && p[|p| - 1] == 10 && BlankAt(p).None?)
  }

  /** A message that starts with a field: no empty first line and no continuation line. */
  predicate StartsField(m: bytes) {
    m != [] && m[0] != 32 && m[0] != 9 && !([13, 10] <= m)
  }

  // ----- lemmas -----

  lemma {:induction false} BlankAtPrepend(p: bytes, m: bytes)
    requires HeaderLines(p) && !([13, 10] <= m)
    ensures BlankAt(p + m) == match BlankAt(m) case None => None case Some(i) => Some(|p| + i)
    decreases |p|
  {
    if p == [] {
      assert p + m == m;
    } else if |p| == 2 {
      var s := p + m;
      assert |s| >= 4 ==> s[..4][2] == m[0] && s[..4][3] == m[1];
      var t := s[1..];
      assert t[0] == 10 && t[1..] == m;
      assert |t| >= 4 ==> t[..4][0] == 10;
    } else {
      var s := p + m;
      assert s[1..] == p[1..] + m;
      assert |p| == 3 && |s| >= 4 ==> s[..4][2] == p[2] == 10;
      assert |p| >= 4 ==> s[..4] == p[..4];
      BlankAtPrepend(p[1..], m);
    }
  }

  /** Prepending whole header lines moves the block's end and leaves the body alone. */
  lemma {:induction false} HeaderEndPrepend(p: bytes, m: bytes)
    requires HeaderLines(p) && !([13, 10] <= m)
    ensures HeaderEnd(p + m) == |p| + HeaderEnd(m)
    ensures (p + m)[..HeaderEnd(p + m)] == p + m[..HeaderEnd(m)]
    ensures Body(p + m) == Body(m)
  {
    BlankAtPrepend(p, m);
    match BlankAt(m)
    case None =>
    case Some(i) =>
      assert (p + m)[|p| + i + 4..] == m[i + 4..];
  }

  predicate EndsCrlf(s: string) {
    s == "" || (|s| >= 2 && s[|s| - 2] == CR && s[|s| - 1] == LF)
  }

  lemma {:induction false} CrlfAtFirst(a: string, b: string)
    requires CrlfAt(a).Some?
    ensures CrlfAt(a + b) == CrlfAt(a)
  {
    if !(a[0] == CR && a[1] == LF) {
      assert (a + b)[1..] == a[1..] + b;
      CrlfAtFirst(a[1..], b);
    }
  }

  lemma {:induction false} CrlfAtEnd(a: string)
    requires a != "" && EndsCrlf(a)
    ensures CrlfAt(a).Some?
    ensures EndsCrlf(a[CrlfAt(a).value + 2..])
  {
    if a[0] == CR && a[1] == LF {
    } else {
      CrlfAtEnd(a[1..]);
      assert a[1..][CrlfAt(a[1..]).value + 2..] == a[CrlfAt(a).value + 2..];
    }
  }

  lemma {:induction false} LinesStep(s: string, i: nat)
    requires CrlfAt(s) == Some(i)
    ensures Lines(s) == [s[..i]] + Lines(s[i + 2..])
  {
  }

  lemma {:induction false} LinesAppend(a: string, b: string)
    requires EndsCrlf(a)
    ensures Lines(a + b) == Lines(a) + Lines(b)
    decreases |a|
  {
    if a == "" {
      assert a + b == b;
    } else {
      hide CrlfAt, Lines, EndsCrlf;
      CrlfAtEnd(a);
      CrlfAtFirst(a, b);
      var i := CrlfAt(a).value;
      LinesStep(a, i);
      LinesStep(a + b, i);
      SliceAppend(a, b, i);
      LinesAppend(a[i + 2..], b);
      LineFirst(a[..i], Lines(a[i + 2..]), Lines(b));
    }
  }

  lemma {:induction false} SliceAppend(a: string, b: string, i: nat)
    requires i + 2 <= |a|
    ensures (a + b)[..i] == a[..i] && (a + b)[i + 2..] == a[i + 2..] + b
  {
  }

  lemma {:induction false} LineFirst(line: string, a: seq<string>, b: seq<string>)
    ensures [line] + (a + b) == [line] + a + b
  {
  }

  lemma {:induction false} UnfoldAppend(a: seq<string>, b: seq<string>, current: Option<string>)
    requires b == [] || !Folded(b[0])
    ensures Unfold(a + b, current) == Unfold(a, current) + Unfold(b, None)
    decreases a
  {
    if a == [] {
      assert a + b == b;
    } else {
      assert (a + b)[1..] == a[1..] + b;
      if Folded(a[0]) {
        UnfoldAppend(a[1..], b, Extend(current, a[0]));
      } else {
        UnfoldAppend(a[1..], b, Begin(a[0]));
      }
    }
  }

  lemma {:induction false} FieldsAppend(a: string, b: string)
    requires EndsCrlf(a)
    requires !Folded(b)
    ensures Fields(a + b) == Fields(a) + Fields(b)
  {
    LinesAppend(a, b);
    assert Lines(b) == [] || !Folded(Lines(b)[0]);
    UnfoldAppend(Lines(a), Lines(b), None);
  }

  lemma {:induction false} DecodeEndsCrlf(p: bytes)
    requires |p| >= 2 && p[|p| - 2] == 13 && p[|p| - 1] == 10
    requires Decode(p).Some?
    ensures Decode(p).value != "" && EndsCrlf(Decode(p).value)
    decreases |p|
  {
    var w := Width(p);
    if w + 2 <= |p| {
      DecodeEndsCrlf(p[w..]);
    } else {
      assert p == [13, 10];
      assert p[1..] == [10] && [10][1..] == [];
      assert Decode([10]).value == "\n";
    }
  }

  lemma {:induction false} DecodeFirst(m: bytes)
    requires m != [] && Decode(m).Some?
    ensures Decode(m).value != ""
    ensures Folded(Decode(m).value) ==> m[0] == 32 || m[0] == 9
  {
    var w := Width(m);
    assert Decode(m).value[0] == DecodeChar(m);
  }

  lemma {:induction false} UnfoldFold(lines: seq<string>, c: string)
    ensures Unfold(lines, Some(c)) == [c + FoldLines(lines)] + Unfold(lines, None)
    decreases lines
  {
    if lines == [] || !Folded(lines[0]) {
      assert c + "" == c;
    } else {
      UnfoldFold(lines[1..], c + lines[0]);
      assert c + lines[0] + FoldLines(lines[1..]) == c + (lines[0] + FoldLines(lines[1..]));
    }
  }

  /** A field put in front takes up the continuation lines a block starts with; the other fields stay. */
  lemma {:induction false} FieldInFront(c: string, b: string)
    requires c != "" && !Folded(c) && CrlfAt(c + CRLF) == Some(|c|)
    ensures Fields(c + CRLF + b) == [c + Fold(b)] + Fields(b)
  {
    hide CrlfAt, Lines;
    var s := c + CRLF + b;
    CrlfAtFirst(c + CRLF, b);
    LinesStep(s, |c|);
    assert s[..|c|] == c && s[|c| + 2..] == b;
    var lines := [c] + Lines(b);
    assert lines[1..] == Lines(b);
    UnfoldFold(Lines(b), c);
    assert [] + Unfold(Lines(b), Some(c)) == Unfold(Lines(b), Some(c));
  }

  /** Prepended header lines and the block behind are decoded on their own. */
  lemma {:induction false} TextPrepend(p: bytes, m: bytes)
    requires HeaderLines(p) && !([13, 10] <= m)
    ensures HeaderText(p + m) == Both(Decode(p), HeaderText(m))
  {
    HeaderEndPrepend(p, m);
    DecodeAppend(p, m[..HeaderEnd(m)]);
  }

  /** The fields of prepended header lines come first, and both parts are read on their own. */
  lemma {:induction false} FieldsPrepend(p: bytes, m: bytes)
    requires HeaderLines(p) && StartsField(m)
    ensures HeaderText(p + m) == Both(Decode(p), HeaderText(m))
    ensures HeaderText(p + m).Some? ==>
              Fields(HeaderText(p + m).value) == Fields(Decode(p).value) + Fields(HeaderText(m).value)
  {
    TextPrepend(p, m);
    if HeaderText(p + m).Some? {
      if p == [] {
        assert EndsCrlf(Decode(p).value);
      } else {
        DecodeEndsCrlf(p);
      }
      assert m[..HeaderEnd(m)] != [];
      DecodeFirst(m[..HeaderEnd(m)]);
      FieldsAppend(Decode(p).value, HeaderText(m).value);
    }
  }

  /** An empty line: CRLF twice. */
  predicate EmptyLine(raw: bytes, i: int) {
    0 <= i <= |raw| - 4 && raw[i] == 13 && raw[i + 1] == 10 && raw[i + 2] == 13 && raw[i + 3] == 10
  }

  lemma {:induction false} FirstEmptyLine(raw: bytes)
    ensures BlankAt(raw).Some? ==>
              EmptyLine(raw, BlankAt(raw).value) && forall i :: 0 <= i < BlankAt(raw).value ==> !EmptyLine(raw, i)
    ensures BlankAt(raw).None? ==> forall i :: !EmptyLine(raw, i)
  {
    if |raw| >= 4 {
      assert raw[..4] == [raw[0], raw[1], raw[2], raw[3]];
      if raw[..4] == BLANK {
        assert raw[..4][0] == raw[0] && raw[..4][1] == raw[1] && raw[..4][2] == raw[2] && raw[..4][3] == raw[3];
      } else {
        assert !EmptyLine(raw, 0);
        var rest := raw[1..];
        FirstEmptyLine(rest);
        forall i | i > 0
          ensures EmptyLine(raw, i) <==> EmptyLine(rest, i - 1)
        {
        }
      }
    }
  }

  /** The header block ends at the first empty line, and the body is what follows it; without one all is header. */
  lemma {:induction false} BlockMeaning(raw: bytes, p: nat)
    ensures EmptyLine(raw, p) && (forall i :: 0 <= i < p ==> !EmptyLine(raw, i)) ==>
              raw[..HeaderEnd(raw)] == raw[..p] + [13, 10] && Body(raw) == raw[p + 4..]
    ensures (forall i :: !EmptyLine(raw, i)) ==> raw[..HeaderEnd(raw)] == raw && Body(raw) == []
  {
    FirstEmptyLine(raw);
    if EmptyLine(raw, p) && forall i :: 0 <= i < p ==> !EmptyLine(raw, i) {
      assert BlankAt(raw) == Some(p);
    }
  }

  /** Lines end at CRLF and nowhere else. */
  lemma {:induction false} CrlfMeaning(s: string)
    ensures forall i :: 0 <= i < (if CrlfAt(s).Some? then CrlfAt(s).value else |s| - 1) ==>
              !(s[i] == '\r' && s[i + 1] == '\n')
    ensures CrlfAt(s).Some? ==> s[CrlfAt(s).value] == '\r' && s[CrlfAt(s).value + 1] == '\n'
  {
    if |s| >= 2 && !(s[0] == CR && s[1] == LF) {
      var rest := s[1..];
      CrlfMeaning(rest);
      forall i | 0 <= i < (if CrlfAt(s).Some? then CrlfAt(s).value else |s| - 1)
        ensures !(s[i] == '\r' && s[i + 1] == '\n')
      {
        assert i > 0 ==> s[i] == rest[i - 1] && s[i + 1] == rest[i];
      }
    }
  }

  function Ended(lines: seq<string>): string {
    if lines == [] then "" else lines[0] + "\r\n" + Ended(lines[1..])
  }

  /** A block is its lines, each ended by CRLF, but for the last that may lack it; no line holds a CRLF. */
  lemma {:induction false} LinesMeaning(s: string)
    ensures Ended(Lines(s)) == s || (Ended(Lines(s)) == s + "\r\n" && s != "")
    ensures forall line :: line in Lines(s) ==> CrlfAt(line).None?
    decreases |s|
  {
    hide CrlfAt, Lines, Ended;
    match CrlfAt(s)
    case None => OnlyLine(s);
    case Some(i) =>
      var line, rest := s[..i], s[i + 2..];
      LinesStep(s, i);
      LinesMeaning(rest);
      EndedFirst(line, Lines(rest));
      assert s == line + "\r\n" + rest;
      assert line + "\r\n" + (rest + "\r\n") == line + "\r\n" + rest + "\r\n";
      CrlfMeaning(s);
      NoCrlf(line);
  }

  lemma {:induction false} OnlyLine(s: string)
    requires CrlfAt(s).None?
    ensures s == "" ==> Lines(s) == [] && Ended(Lines(s)) == s
    ensures s != "" ==> Lines(s) == [s] && Ended(Lines(s)) == s + "\r\n"
  {
    hide CrlfAt;
    EndedFirst(s, []);
    assert s + "\r\n" + "" == s + "\r\n";
  }

  lemma {:induction false} EndedFirst(line: string, lines: seq<string>)
    ensures Ended([line] + lines) == line + "\r\n" + Ended(lines) && Ended([line]) == line + "\r\n" + ""
  {
    assert ([line] + lines)[1..] == lines && [line][1..] == [];
  }

  lemma {:induction false} NoCrlf(s: string)
    requires forall i :: 0 <= i < |s| - 1 ==> !(s[i] == CR && s[i + 1] == LF)
    ensures CrlfAt(s).None?
  {
    if |s| >= 2 {
      NoCrlf(s[1..]);
    }
  }
}
