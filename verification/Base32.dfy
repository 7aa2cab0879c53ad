/** The streaming base32 encoder of generated secrets (section 6 of RFC 4648, lower case, unpadded). */
module Base32 {
  import opened Utf8
  import opened Bits

  type bit = b: int | 0 <= b < 2

  const ALPHABET := "abcdefghijklmnopqrstuvwxyz234567"

  /** `n` as `width` bits, most significant first. */
  function BitsOf(n: nat, width: nat): (r: seq<bit>)
    ensures |r| == width
  {
    if width == 0 then [] else BitsOf(n / 2, width - 1) + [n % 2]
  }

  function FromBits(s: seq<bit>): nat {
    if s == [] then 0 else FromBits(s[..|s| - 1]) * 2 + s[|s| - 1]
  }

  /** The bit stream of a byte string. */
  function Stream(data: bytes): (r: seq<bit>)
    ensures |r| == 8 * |data|
  {
    if data == [] then [] else Stream(data[..|data| - 1]) + BitsOf(data[|data| - 1], 8)
  }

  function ZeroBits(n: nat): (r: seq<bit>)
    ensures |r| == n
  {
    seq(n, _ => 0)
  }

  lemma {:induction false} FillLength(n: nat)
    ensures var z := (5 - n % 5) % 5; (n + z) % 5 == 0 && 0 <= z < 5
  {
    var q, r := n / 5, n % 5;
    if r == 0 {
    } else {
      Bits.MulDiv(q + 1, 5, 0);
      assert n + (5 - r) == (q + 1) * 5 + 0;
    }
  }

  /** The stream, filled up with zero bits to whole groups of five. */
  function Filled(data: bytes): (r: seq<bit>)
    ensures |r| % 5 == 0 && 8 * |data| <= |r| < 8 * |data| + 5
  {
    FillLength(8 * |data|);
    Stream(data) + ZeroBits((5 - 8 * |data| % 5) % 5)
  }

  function CharOf(group: seq<bit>): char
    requires |group| == 5
  {
    FromBitsBound(group);
    Pow2Five();
    ALPHABET[FromBits(group)]
  }

  /** One character for each group of five bits. */
  function GroupText(s: seq<bit>): (r: string)
    requires |s| % 5 == 0
    ensures 5 * |r| == |s|
  {
    if s == [] then "" else GroupText(s[..|s| - 5]) + [CharOf(s[|s| - 5..])]
  }

  /** The text of a byte string: the characters of its filled-up bit stream. */
  function EncodeText(data: bytes): (r: string) {
    GroupText(Filled(data))
  }

  /** The alphabet of RFC 4648 in lower case: the letters, then the digits from two on. */
  lemma {:induction false} AlphabetMeaning(group: seq<bit>)
    requires |group| == 5
    ensures CharOf(group) as int ==
            if FromBits(group) < 26 then 'a' as int + FromBits(group) else '2' as int + (FromBits(group) - 26)
  {
    FromBitsBound(group);
    Pow2Five();
    AlphabetAt(FromBits(group));
    hide FromBits, ALPHABET;
  }

  lemma {:induction false} AlphabetAt(v: nat)
    requires v < 32
    ensures |ALPHABET| == 32
    ensures ALPHABET[v] as int == if v < 26 then 'a' as int + v else '2' as int + (v - 26)
  {
  }

  // ----- decoding -----

  function IndexOfChar(c: char, k: nat): nat
    requires k <= 32
    decreases 32 - k
  {
    if k == 32 then 0 else if ALPHABET[k] == c then k else IndexOfChar(c, k + 1)
  }

  function TextBits(s: string): (r: seq<bit>)
    ensures |r| == 5 * |s|
  {
    if s == "" then [] else TextBits(s[..|s| - 1]) + BitsOf(IndexOfChar(s[|s| - 1], 0), 5)
  }

  function BytesOf(s: seq<bit>): bytes
    requires |s| % 8 == 0
  {
    if s == [] then []
    else
      FromBitsBound(s[|s| - 8..]);
      Pow2Eight();
      BytesOf(s[..|s| - 8]) + [FromBits(s[|s| - 8..])]
  }

  /** Drops the bits that do not make a whole byte. */
  function DecodeText(s: string): bytes {
    WholePart(5 * |s|);
    BytesOf(TextBits(s)[..5 * |s| / 8 * 8])
  }

  // ----- lemmas -----

  lemma {:induction false} FromBitsBound(s: seq<bit>)
    ensures FromBits(s) < Pow2(|s|)
  {
    if s != [] {
      FromBitsBound(s[..|s| - 1]);
    }
  }

  lemma {:induction false} Pow2Five()
    ensures Pow2(5) == 32
  {
    assert Pow2(3) == 8;
  }

  lemma {:induction false} Pow2Eight()
    ensures Pow2(8) == 256
  {
    Pow2Five();
    assert Pow2(7) == 128;
  }

  lemma {:induction false} Doubled(a: nat, p: nat)
    ensures a * (2 * p) == 2 * (a * p)
  {
  }

  lemma {:induction false} FromBitsAppend(a: seq<bit>, b: seq<bit>)
    ensures FromBits(a + b) == FromBits(a) * Pow2(|b|) + FromBits(b)
  {
    if b == [] {
      assert a + b == a;
    } else {
      var front := b[..|b| - 1];
      assert (a + b)[..|a + b| - 1] == a + front;
      FromBitsAppend(a, front);
      Doubled(FromBits(a), Pow2(|front|));
    }
  }

  lemma {:induction false} FromBitsOf(n: nat, width: nat)
    requires n < Pow2(width)
    ensures FromBits(BitsOf(n, width)) == n
  {
    if width > 0 {
      FromBitsOf(n / 2, width - 1);
      assert BitsOf(n, width)[..width - 1] == BitsOf(n / 2, width - 1);
    }
  }

  lemma {:induction false} BitsOfFrom(s: seq<bit>)
    ensures BitsOf(FromBits(s), |s|) == s
  {
    if s != [] {
      var front, last := s[..|s| - 1], s[|s| - 1];
      BitsOfFrom(front);
      assert FromBits(s) / 2 == FromBits(front) && FromBits(s) % 2 == last;
      assert s == front + [last];
    }
  }

  lemma {:induction false} ZeroBitsValue(n: nat)
    ensures FromBits(ZeroBits(n)) == 0
  {
    if n > 0 {
      assert ZeroBits(n)[..n - 1] == ZeroBits(n - 1);
      ZeroBitsValue(n - 1);
    }
  }

  lemma {:induction false} AlphabetIndex(i: nat)
    requires i < 32
    ensures IndexOfChar(ALPHABET[i], 0) == i
  {
    AlphabetFrom(i, 0);
  }

  lemma {:induction false} AlphabetFrom(i: nat, k: nat)
    requires k <= i < 32
    ensures IndexOfChar(ALPHABET[i], k) == i
    decreases i - k
  {
    AlphabetDistinct(i, k);
    if k < i {
      AlphabetFrom(i, k + 1);
    }
  }

  lemma {:induction false} AlphabetChar(i: nat)
    requires i < 32
    ensures ALPHABET[i] as int == if i < 26 then 'a' as int + i else '2' as int + i - 26
  {
  }

  lemma {:induction false} AlphabetDistinct(i: nat, k: nat)
    requires k <= i < 32
    ensures ALPHABET[k] == ALPHABET[i] ==> k == i
  {
    AlphabetChar(i);
    AlphabetChar(k);
  }

  lemma {:induction false} TextBitsPush(t: string, c: char)
    ensures TextBits(t + [c]) == TextBits(t) + BitsOf(IndexOfChar(c, 0), 5)
  {
    var u := t + [c];
    assert u[..|u| - 1] == t;
  }

  /** Reading the characters gives the bits back. */
  lemma {:induction false} GroupTextBits(s: seq<bit>)
    requires |s| % 5 == 0
    ensures TextBits(GroupText(s)) == s
  {
    if s != [] {
      var front, group := s[..|s| - 5], s[|s| - 5..];
      GroupTextBits(front);
      IndexBelow(group);
      AlphabetIndex(FromBits(group));
      BitsOfFrom(group);
      TextBitsPush(GroupText(front), CharOf(group));
      GroupTextPush(front, group);
      hide FromBits, GroupText, TextBits, CharOf, IndexOfChar, BitsOf;
      assert s == front + group;
    }
  }

  lemma {:induction false} BytesOfPush(s: seq<bit>, b: byte)
    requires |s| % 8 == 0
    ensures BytesOf(s + BitsOf(b, 8)) == BytesOf(s) + [b]
  {
    Pow2Eight();
    FromBitsOf(b, 8);
    var t := s + BitsOf(b, 8);
    hide FromBits, BitsOf, Pow2;
    assert t[..|t| - 8] == s && t[|t| - 8..] == BitsOf(b, 8);
  }

  lemma {:induction false} WholePart(n: nat)
    ensures n / 8 * 8 <= n && n / 8 * 8 % 8 == 0
  {
    Bits.MulDiv(n / 8, 8, 0);
  }

  lemma {:induction false} WholeEights(n: nat)
    ensures 8 * n % 8 == 0
  {
  }

  lemma {:induction false} NoStream()
    ensures BytesOf(Stream([])) == []
  {
  }

  lemma {:induction false} StreamLast(data: bytes)
    requires data != []
    ensures Stream(data) == Stream(data[..|data| - 1]) + BitsOf(data[|data| - 1], 8)
  {
    hide BitsOf;
  }

  lemma {:induction false} StreamBytes(data: bytes)
    ensures BytesOf(Stream(data)) == data
  {
    hide BytesOf, BitsOf, Stream;
    if data == [] {
      NoStream();
    } else {
      var front, last := data[..|data| - 1], data[|data| - 1];
      StreamBytes(front);
      StreamLast(data);
      WholeEights(|front|);
      BytesOfPush(Stream(front), last);
      assert data == front + [last];
    }
  }

  /** Decoding recovers the bytes. */
  lemma {:induction false} Base32RoundTrip(data: bytes)
    ensures DecodeText(EncodeText(data)) == data
  {
    var t := EncodeText(data);
    assert Filled(data)[..8 * |data|] == Stream(data);
    GroupTextBits(Filled(data));
    StreamBytes(data);
    WholeBytes(|data|, 5 * |t|);
    hide GroupText, TextBits, Stream, BytesOf, Filled;
  }

  lemma {:induction false} WholeBytes(n: nat, total: nat)
    requires 8 * n <= total < 8 * n + 5
    ensures total / 8 * 8 == 8 * n
  {
  }

  /** ceil(8n/5) characters, all from the alphabet. */
  lemma {:induction false} Base32Length(data: bytes)
    ensures |EncodeText(data)| == (8 * |data| + 4) / 5
  {
  }

  // ----- the encoder -----

  lemma {:induction false} GroupTextPush(s: seq<bit>, group: seq<bit>)
    requires |s| % 5 == 0 && |group| == 5
    ensures GroupText(s + group) == GroupText(s) + [CharOf(group)]
  {
    var t := s + group;
    assert t[..|t| - 5] == s && t[|t| - 5..] == group;
  }

  /** What the register's low bits become when a byte is shifted in. */
  lemma {:induction false} ShiftIn(buffer: nat, pending: seq<bit>, b: byte)
    requires |pending| < 5 && buffer % Pow2(|pending|) == FromBits(pending)
    ensures BitOr(Shl(buffer, 8, 32), b) % Pow2(|pending| + 8) == FromBits(pending + BitsOf(b, 8))
  {
    hide Pow2, Shl, BitOr, FromBits, BitsOf;
    var k := |pending|;
    Pow2Eight();
    FromBitsOf(b, 8);
    FromBitsAppend(pending, BitsOf(b, 8));
    Pow2Add(k, 8);
    ShlByte(buffer);
    var q := buffer % Pow2(24);
    OrDisjoint(q, 8, b);
    LowOfRegister(buffer, k);
    LowBits(q, Pow2(k), b);
  }

  lemma {:induction false} LowOfRegister(buffer: nat, k: nat)
    requires k <= 24
    ensures buffer % Pow2(24) % Pow2(k) == buffer % Pow2(k)
  {
    hide Pow2;
    Pow2Add(k, 24 - k);
    ModOfMod(buffer, Pow2(k), Pow2(24 - k));
  }

  lemma {:induction false} ShlByte(buffer: nat)
    ensures Shl(buffer, 8, 32) == buffer % Pow2(24) * Pow2(8)
  {
    hide Pow2;
    Pow2Add(24, 8);
    ScaleMod(buffer, Pow2(24), Pow2(8));
  }

  lemma {:induction false} LowBits(q: nat, p: nat, b: nat)
    requires p > 0 && b < 256
    ensures p * 256 > 0 && (q * 256 + b) % (p * 256) == q % p * 256 + b
  {
    var c, r := q / p, q % p;
    assert q == c * p + r;
    assert q * 256 + b == c * (p * 256) + (r * 256 + b);
    MulDiv(c, p * 256, r * 256 + b);
  }

  /** The five bits above the low `bits` are the next group; the rest stays pending. */
  lemma {:induction false} ShiftOut(buffer: nat, group: seq<bit>, rest: seq<bit>)
    requires |group| == 5 && buffer % Pow2(5 + |rest|) == FromBits(group + rest)
    ensures BitAnd(Shr(buffer, |rest|), 31) == FromBits(group)
    ensures buffer % Pow2(|rest|) == FromBits(rest)
  {
    var k := |rest|;
    Pow2Five();
    Pow2Add(k, 5);
    FromBitsAppend(group, rest);
    FromBitsBound(rest);
    FromBitsBound(group);
    AndLow(Shr(buffer, k), 5);
    DivThenMod(buffer, Pow2(k), 32);
    ModOfMod(buffer, Pow2(k), 32);
    MulDiv(FromBits(group), Pow2(k), FromBits(rest));
  }

  /** The last, short group is filled up with zeros by a left shift. */
  lemma {:induction false} ShiftLast(buffer: nat, pending: seq<bit>)
    requires 0 < |pending| < 5 && buffer % Pow2(|pending|) == FromBits(pending)
    ensures BitAnd(Shl(buffer, 5 - |pending|, 32), 31) == FromBits(pending + ZeroBits(5 - |pending|))
  {
    hide Pow2, BitAnd, FromBits;
    var k := |pending|;
    Pow2Five();
    FromBitsAppend(pending, ZeroBits(5 - k));
    ZeroBitsValue(5 - k);
    Pow2Add(k, 5 - k);
    Pow2Add(5, 27);
    var x := buffer * Pow2(5 - k);
    AndLow(x % Pow2(32), 5);
    ModOfMod(x, 32, Pow2(27));
    FillLow(buffer, Pow2(k), Pow2(5 - k));
  }

  lemma {:induction false} FillLow(buffer: nat, p: nat, s: nat)
    requires p > 0 && s > 0 && p * s == 32
    ensures buffer * s % 32 == buffer % p * s
  {
    ScaleMod(buffer, p, s);
  }

  lemma {:induction false} IndexBelow(group: seq<bit>)
    requires |group| == 5
    ensures FromBits(group) < 32 && CharOf(group) == ALPHABET[FromBits(group)]
  {
    FromBitsBound(group);
    Pow2Five();
  }

  /** The text holds the whole groups of the stream, the register's low `count` bits hold the rest. */
  ghost predicate Held(stream: seq<bit>, out: string, buffer: nat, count: nat) {
    && 5 * |out| + count == |stream|
    && out == GroupText(stream[..5 * |out|])
    && buffer % Pow2(count) == FromBits(stream[5 * |out|..])
  }

  lemma {:induction false} HeldIn(stream: seq<bit>, out: string, buffer: nat, count: nat, b: byte)
    requires Held(stream, out, buffer, count) && count < 5
    ensures Held(stream + BitsOf(b, 8), out, BitOr(Shl(buffer, 8, 32), b), count + 8)
  {
    hide GroupText, FromBits, Pow2, BitOr, Shl, BitsOf;
    var n := 5 * |out|;
    ShiftIn(buffer, stream[n..], b);
    var next := stream + BitsOf(b, 8);
    assert next[..n] == stream[..n] && next[n..] == stream[n..] + BitsOf(b, 8);
  }

  lemma {:induction false} HeldOut(stream: seq<bit>, out: string, buffer: nat, count: nat)
    requires Held(stream, out, buffer, count) && count >= 5
    ensures BitAnd(Shr(buffer, count - 5), 31) < 32
    ensures Held(stream, out + [ALPHABET[BitAnd(Shr(buffer, count - 5), 31)]], buffer, count - 5)
  {
    hide GroupText, FromBits, Pow2, BitAnd, Shr, CharOf;
    var n := 5 * |out|;
    var group, rest := stream[n..n + 5], stream[n + 5..];
    assert stream[n..] == group + rest;
    ShiftOut(buffer, group, rest);
    IndexBelow(group);
    GroupTextPush(stream[..n], group);
    assert stream[..n + 5] == stream[..n] + group;
  }

  lemma {:induction false} HeldLast(stream: seq<bit>, out: string, buffer: nat, count: nat)
    requires Held(stream, out, buffer, count) && 0 < count < 5
    ensures BitAnd(Shl(buffer, 5 - count, 32), 31) < 32
    ensures (|stream| + 5 - count) % 5 == 0
    ensures out + [ALPHABET[BitAnd(Shl(buffer, 5 - count, 32), 31)]] == GroupText(stream + ZeroBits(5 - count))
  {
    hide GroupText, FromBits, Pow2, BitAnd, Shl, CharOf;
    var n := 5 * |out|;
    ShiftLast(buffer, stream[n..]);
    var group := stream[n..] + ZeroBits(5 - count);
    IndexBelow(group);
    GroupTextPush(stream[..n], group);
    assert stream + ZeroBits(5 - count) == stream[..n] + group;
  }

  lemma {:induction false} HeldStart()
    ensures Held([], "", 0, 0)
  {
  }

  lemma {:induction false} StreamPush(data: bytes, i: nat)
    requires i < |data|
    ensures Stream(data[..i + 1]) == Stream(data[..i]) + BitsOf(data[i], 8)
  {
    assert data[..i + 1][..i] == data[..i];
  }

  /** The register loop emits exactly the text of the bit stream, although high bits fall off the register. */
  method EncodeSecret(data: bytes) returns (out: string)
    ensures out == EncodeText(data)
  {
    hide Held, GroupText, BitAnd, BitOr, Shl, Shr, BitsOf;
    out := "";
    var buffer: nat := 0;
    var count: nat := 0;
    HeldStart();
    for i := 0 to |data|
      invariant Held(Stream(data[..i]), out, buffer, count) && count < 5
    {
      HeldIn(Stream(data[..i]), out, buffer, count, data[i]);
      StreamPush(data, i);
      buffer := BitOr(Shl(buffer, 8, 32), data[i]);
      count := count + 8;
      while count >= 5
        invariant Held(Stream(data[..i + 1]), out, buffer, count)
      {
        HeldOut(Stream(data[..i + 1]), out, buffer, count);
        count := count - 5;
        var index := BitAnd(Shr(buffer, count), 31);
        out := out + [ALPHABET[index]];
      }
    }
    assert data[..|data|] == data;
    HeldDone(data, out, buffer, count);
    if count > 0 {
      HeldLast(Stream(data), out, buffer, count);
      var index := BitAnd(Shl(buffer, 5 - count, 32), 31);
      out := out + [ALPHABET[index]];
    }
  }

  lemma {:induction false} Over(n: nat, groups: nat, count: nat)
    requires n == 5 * groups + count && count < 5
    ensures (5 - n % 5) % 5 == (5 - count) % 5
  {
    Bits.MulDiv(groups, 5, count);
  }

  lemma {:induction false} HeldDone(data: bytes, out: string, buffer: nat, count: nat)
    requires Held(Stream(data), out, buffer, count) && count < 5
    ensures Filled(data) == Stream(data) + ZeroBits((5 - count) % 5)
    ensures count == 0 ==> out == EncodeText(data)
  {
    hide GroupText, FromBits, Pow2, ZeroBits;
    Over(8 * |data|, |out|, count);
    if count == 0 {
      var stream := Stream(data);
      hide Stream;
      assert stream[..5 * |out|] == stream && stream + ZeroBits(0) == stream;
    }
  }
}
