/** UTF-8 as `std::str::from_utf8` reads it (Table 3-7 of the Unicode Standard). */
module Utf8 {
  import opened Text

  type byte = b: int | 0 <= b < 256
  type bytes = seq<byte>

  predicate Cont(b: byte) {
    0x80 <= b <= 0xBF
  }

  /** How many bytes the well-formed scalar at the front of `s` takes; 0 when there is none. */
  function Width(s: bytes): (n: nat)
    ensures n <= 4 && n <= |s|
  {
    if s == [] then 0
    else if s[0] < 0x80 then 1
    else if |s| >= 2 && 0xC2 <= s[0] <= 0xDF && Cont(s[1]) then 2
    else if |s| >= 3 && 0xE0 <= s[0] <= 0xEF && Cont(s[1]) && Cont(s[2])
            && (s[0] == 0xE0 ==> 0xA0 <= s[1]) && (s[0] == 0xED ==> s[1] <= 0x9F) then 3
    else if |s| >= 4 && 0xF0 <= s[0] <= 0xF4 && Cont(s[1]) && Cont(s[2]) && Cont(s[3])
            && (s[0] == 0xF0 ==> 0x90 <= s[1]) && (s[0] == 0xF4 ==> s[1] <= 0x8F) then 4
    else 0
  }

  function DecodeChar(s: bytes): (c: char)
    requires Width(s) > 0
  {
    match Width(s)
    case 1 => s[0] as char
    case 2 => ((s[0] as int - 0xC0) * 0x40 + (s[1] as int - 0x80)) as char
    case 3 => ((s[0] as int - 0xE0) * 0x1000 + (s[1] as int - 0x80) * 0x40 + (s[2] as int - 0x80)) as char
    case _ =>
      var high := (s[0] as int - 0xF0) * 0x40000 + (s[1] as int - 0x80) * 0x1000;
      (high + (s[2] as int - 0x80) * 0x40 + (s[3] as int - 0x80)) as char
  }

  function EncodeChar(c: char): (r: bytes)
    ensures 1 <= |r| <= 4
    ensures c as int < 0x80 ==> r == [c as int]
    ensures c as int >= 0x80 ==> forall i :: 0 <= i < |r| ==> r[i] >= 0x80
  {
    var n := c as int;
    if n < 0x80 then [n]
    else if n < 0x800 then [0xC0 + n / 0x40, 0x80 + n % 0x40]
    else if n < 0x10000 then [0xE0 + n / 0x1000, 0x80 + n / 0x40 % 0x40, 0x80 + n % 0x40]
    else [0xF0 + n / 0x40000, 0x80 + n / 0x1000 % 0x40, 0x80 + n / 0x40 % 0x40, 0x80 + n % 0x40]
  }

  function Encode(s: string): bytes {
    if s == "" then [] else EncodeChar(s[0]) + Encode(s[1..])
  }

  function Decode(s: bytes): Option<string> {
    if s == [] then Some("")
    else if Width(s) == 0 then None
    else
      match Decode(s[Width(s)..])
      case None => None
      case Some(rest) => Some([DecodeChar(s)] + rest)
  }

  /** Two decodings side by side. */
  function Both(a: Option<string>, b: Option<string>): Option<string> {
    if a.Some? && b.Some? then Some(a.value + b.value) else None
  }

  lemma {:induction false} DecodeEncodeChar(c: char, rest: bytes)
    ensures Width(EncodeChar(c) + rest) == |EncodeChar(c)|
    ensures DecodeChar(EncodeChar(c) + rest) == c
  {
    var n := c as int;
    var s := EncodeChar(c) + rest;
    if n < 0x800 {
    } else if n < 0x10000 {
      ThreeBytes(n);
      assert s[..3] == EncodeChar(c);
      assert s[0] == s[..3][0] && s[1] == s[..3][1] && s[2] == s[..3][2];
    } else {
      FourBytes(n);
      assert s[..4] == EncodeChar(c);
      assert s[0] == s[..4][0] && s[1] == s[..4][1] && s[2] == s[..4][2] && s[3] == s[..4][3];
    }
  }

  lemma {:induction false} ThreeBytes(n: nat)
    requires n < 0x10000
    ensures n == n / 0x1000 * 0x1000 + n / 0x40 % 0x40 * 0x40 + n % 0x40
  {
  }

  lemma {:induction false} FourBytes(n: nat)
    requires n < 0x110000
    ensures n == n / 0x40000 * 0x40000 + n / 0x1000 % 0x40 * 0x1000 + n / 0x40 % 0x40 * 0x40 + n % 0x40
  {
    assert n / 0x1000 == n / 0x40000 * 0x40 + n / 0x1000 % 0x40;
    assert n / 0x40 == n / 0x1000 * 0x40 + n / 0x40 % 0x40;
  }

  /** Decoding undoes encoding. */
  lemma {:induction false} DecodeEncode(s: string)
    ensures Decode(Encode(s)) == Some(s)
  {
    if s != "" {
      var e := EncodeChar(s[0]);
      DecodeEncodeChar(s[0], Encode(s[1..]));
      assert Encode(s)[|e|..] == Encode(s[1..]);
      DecodeEncode(s[1..]);
      assert [s[0]] + s[1..] == s;
    }
  }

  lemma {:induction false} EncodeAppend(a: string, b: string)
    ensures Encode(a + b) == Encode(a) + Encode(b)
  {
    if a == "" {
      assert a + b == b;
    } else {
      assert (a + b)[1..] == a[1..] + b;
      EncodeAppend(a[1..], b);
    }
  }

  ghost predicate EndsAscii(a: bytes) {
    a == [] || a[|a| - 1] < 0x80
  }

  function Prepend(c: char, rest: Option<string>): Option<string> {
    if rest.Some? then Some([c] + rest.value) else None
  }

  /** No scalar straddles the end of a string whose last byte is ASCII. */
  lemma {:induction false} WidthWithin(a: bytes, b: bytes)
    requires a != [] && EndsAscii(a)
    ensures Width(a + b) == Width(a)
    ensures Width(a) > 0 ==> DecodeChar(a + b) == DecodeChar(a)
  {
    var s := a + b;
    forall i | 0 <= i < |a|
      ensures s[i] == a[i]
    {
    }
  }

  lemma {:induction false} DecodeStep(a: bytes, b: bytes) returns (w: nat, c: char)
    requires a != [] && EndsAscii(a)
    ensures w <= |a|
    ensures w == 0 ==> Decode(a) == Decode(a + b) == None
    ensures w > 0 ==> Decode(a) == Prepend(c, Decode(a[w..]))
    ensures w > 0 ==> Decode(a + b) == Prepend(c, Decode(a[w..] + b))
  {
    WidthWithin(a, b);
    w := Width(a);
    c := if w > 0 then DecodeChar(a) else 'x';
    assert (a + b)[w..] == a[w..] + b;
  }

  /** Text cut after an ASCII byte decodes piecewise, errors included. */
  lemma {:induction false} DecodeAppend(a: bytes, b: bytes)
    requires EndsAscii(a)
    ensures Decode(a + b) == Both(Decode(a), Decode(b))
    decreases |a|
  {
    if a == [] {
      assert a + b == b;
      assert Decode(b).Some? ==> "" + Decode(b).value == Decode(b).value;
    } else {
      var w, c := DecodeStep(a, b);
      if w > 0 {
        DecodeAppend(a[w..], b);
        PrependBoth(c, Decode(a[w..]), Decode(b));
      }
    }
  }

  lemma {:induction false} PrependBoth(c: char, a: Option<string>, b: Option<string>)
    ensures Prepend(c, Both(a, b)) == Both(Prepend(c, a), b)
  {
    if a.Some? && b.Some? {
      assert [c] + (a.value + b.value) == [c] + a.value + b.value;
    }
  }

  lemma {:induction false} WidthEncodes(s: bytes)
    requires Width(s) > 0
    ensures EncodeChar(DecodeChar(s)) == s[..Width(s)]
  {
    var w := Width(s);
    if w == 1 {
    } else if w == 2 {
    } else if w == 3 {
      TripleEncodes(s);
    } else {
      QuadEncodes(s);
    }
  }

  lemma {:induction false} TripleEncodes(s: bytes)
    requires Width(s) == 3
    ensures EncodeChar(DecodeChar(s)) == s[..3]
  {
    TripleDigits(s[0] - 0xE0, s[1] - 0x80, s[2] - 0x80);
    assert s[..3] == [s[0], s[1], s[2]];
  }

  lemma {:induction false} QuadEncodes(s: bytes)
    requires Width(s) == 4
    ensures EncodeChar(DecodeChar(s)) == s[..4]
  {
    QuadDigits(s[0] - 0xF0, s[1] - 0x80, s[2] - 0x80, s[3] - 0x80);
    assert s[..4] == [s[0], s[1], s[2], s[3]];
  }

  lemma {:induction false} TripleDigits(a: nat, b: nat, c: nat)
    requires b < 0x40 && c < 0x40
    ensures var n := a * 0x1000 + b * 0x40 + c; n / 0x1000 == a && n / 0x40 % 0x40 == b && n % 0x40 == c
  {
    var n := a * 0x1000 + b * 0x40 + c;
    assert n / 0x40 == a * 0x40 + b;
  }

  lemma {:induction false} QuadDigits(a: nat, b: nat, c: nat, d: nat)
    requires b < 0x40 && c < 0x40 && d < 0x40
    ensures var n := a * 0x40000 + b * 0x1000 + c * 0x40 + d;
            n / 0x40000 == a && n / 0x1000 % 0x40 == b && n / 0x40 % 0x40 == c && n % 0x40 == d
  {
    var n := a * 0x40000 + b * 0x1000 + c * 0x40 + d;
    assert n / 0x40 == a * 0x1000 + b * 0x40 + c;
    assert n / 0x1000 == a * 0x40 + b;
  }

  /** Bytes are read exactly when they are the encoding of a text, and then as that text. */
  lemma {:induction false} DecodeExact(b: bytes, s: string)
    ensures Decode(b) == Some(s) <==> b == Encode(s)
    decreases |b|
  {
    DecodeEncode(s);
    if b != [] && Decode(b) == Some(s) {
      var w := Width(b);
      DecodeExact(b[w..], s[1..]);
      WidthEncodes(b);
      assert b == b[..w] + b[w..];
    }
  }

  /** ASCII text is encoded as its codes. */
  lemma {:induction false} EncodeAscii(s: string)
    requires forall i :: 0 <= i < |s| ==> s[i] as int < 0x80
    ensures |Encode(s)| == |s| && forall i :: 0 <= i < |s| ==> Encode(s)[i] == s[i] as int
  {
    if s != "" {
      EncodeAscii(s[1..]);
    }
  }
}
