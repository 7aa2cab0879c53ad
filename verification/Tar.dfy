/** The USTAR archive of a backup: writer, in-place header, and reader. */
module Tar {
  import opened Text
  import opened Utf8
  import opened Bits

  datatype Entry = Entry(name: bytes, mode: nat, data: bytes)

  const BLOCK: nat := 512

  const USTAR: bytes := [117, 115, 116, 97, 114]
  const MAGIC: bytes := [117, 115, 116, 97, 114, 0]
  const VERSION: bytes := [48, 48]
  const SPACES: bytes := [32, 32, 32, 32, 32, 32, 32, 32]
  const ZERO_FIELD: bytes := [48, 48, 48, 48, 48, 48, 48]
  const ZERO_TIME: bytes := [48, 48, 48, 48, 48, 48, 48, 48, 48, 48, 48]

  function Zeros(n: nat): (r: bytes)
    ensures |r| == n
  {
    seq(n, _ => 0)
  }

  /** Octal digits without leading zeros. */
  function Octal(n: nat): (r: bytes)
    ensures |r| >= 1
  {
    if n < 8 then [48 + n] else Octal(n / 8) + [48 + n % 8]
  }

  function ZeroDigits(n: nat): (r: bytes)
    ensures |r| == n
  {
    seq(n, _ => 48)
  }

  /** `{:0width$o}`: octal, padded with zeros to at least `width`. */
  function OctalPadded(n: nat, width: nat): (r: bytes)
    ensures |r| >= width
  {
    var digits := Octal(n);
    if |digits| < width then ZeroDigits(width - |digits|) + digits else digits
  }

  /** `s` with `v` written over it from `at` on. */
  function Overwrite(s: bytes, at: nat, v: bytes): (r: bytes)
    requires at + |v| <= |s|
    ensures |r| == |s|
  {
    s[..at] + v + s[at + |v|..]
  }

  /** A field of `len` bytes keeps at least its last byte NUL: longer values are cut. */
  function Clipped(v: bytes, len: nat): (r: bytes)
    requires len > 0
    ensures |r| < len
  {
    if |v| <= len - 1 then v else v[..len - 1]
  }

  function Sum(s: bytes): nat {
    if s == [] then 0 else Sum(s[..|s| - 1]) + s[|s| - 1]
  }

  /** The header with the checksum field still blank. */
  function Unsummed(name: bytes, mode: nat, size: nat): (r: bytes)
    requires |name| <= 100
    ensures |r| == BLOCK
  {
    var h := Overwrite(Zeros(BLOCK), 0, name);
    var h := Overwrite(h, 100, Clipped(OctalPadded(BitAnd(mode, 4095), 7), 8));
    var h := Overwrite(h, 108, ZERO_FIELD);
    var h := Overwrite(h, 116, ZERO_FIELD);
    var h := Overwrite(h, 124, Clipped(OctalPadded(size, 11), 12));
    var h := Overwrite(h, 136, ZERO_TIME);
    var h := Overwrite(h, 156, [48]);
    var h := Overwrite(h, 257, MAGIC);
    var h := Overwrite(h, 263, VERSION);
    Overwrite(h, 148, SPACES)
  }

  function ChecksumText(sum: nat): bytes {
    OctalPadded(sum, 6) + [0, 32]
  }

  function Header(name: bytes, mode: nat, size: nat): (r: bytes)
    requires |name| <= 100
    ensures |r| == BLOCK
  {
    var h := Unsummed(name, mode, size);
    ChecksumFits(h);
    Overwrite(h, 148, ChecksumText(Sum(h)))
  }

  function Padding(size: nat): nat {
    (512 - size % 512) % 512
  }

  function EntryBytes(e: Entry): (r: bytes)
    requires |e.name| <= 100
  {
    Header(e.name, e.mode, |e.data|) + e.data + Zeros(Padding(|e.data|))
  }

  predicate NamesFit(entries: seq<Entry>) {
    forall i :: 0 <= i < |entries| ==> |entries[i].name| <= 100
  }

  function Body(entries: seq<Entry>): bytes
    requires NamesFit(entries)
  {
    if entries == [] then [] else EntryBytes(entries[0]) + Body(entries[1..])
  }

  /** The archive before compression; an error when a name is too long. */
  function Archive(entries: seq<Entry>): Option<bytes> {
    if NamesFit(entries) then Some(Body(entries) + Zeros(1024)) else None
  }

  // ----- the reader -----

  function TrimNulStart(s: string): string {
    if s != "" && s[0] == '\0' then TrimNulStart(s[1..]) else s
  }

  function TrimNulEnd(s: string): string {
    if s != "" && s[|s| - 1] == '\0' then TrimNulEnd(s[..|s| - 1]) else s
  }

  predicate IsOctal(s: string) {
    forall i :: 0 <= i < |s| ==> '0' <= s[i] <= '7'
  }

  function OctalValue(s: string): nat
    requires IsOctal(s)
  {
    if s == "" then 0 else OctalValue(s[..|s| - 1]) * 8 + (s[|s| - 1] as int - '0' as int)
  }

  /** `from_str_radix(.., 8)` with 0 for everything it refuses. */
  function ParseOctal(s: string, max: nat): nat {
    var digits := if s != "" && s[0] == '+' then s[1..] else s;
    if digits == "" || !IsOctal(digits) || OctalValue(digits) > max then 0 else OctalValue(digits)
  }

  function ReadField(field: bytes, max: nat): nat {
    match Decode(field)
    case None => 0
    case Some(text) => ParseOctal(Trim(TrimNulEnd(TrimNulStart(text))), max)
  }

  /** The bytes before the first NUL. */
  function UpToNul(s: bytes): (r: bytes)
    ensures |r| <= |s|
  {
    if s == [] || s[0] == 0 then [] else [s[0]] + UpToNul(s[1..])
  }

  predicate AllZero(s: bytes) {
    forall i :: 0 <= i < |s| ==> s[i] == 0
  }

  function Blocks(size: nat): nat {
    (size + 511) / 512 * 512
  }

  /** The entries of an archive; nothing when the reader panics (bad magic, content cut off). */
  function ReadTar(tar: bytes): Option<seq<Entry>>
    decreases |tar|
  {
    if |tar| < BLOCK then Some([])
    else
      var h := tar[..BLOCK];
      if AllZero(h) then Some([])
      else if h[257..262] != USTAR then None
      else
        var size := ReadField(h[124..135], MAX_U64);
        if BLOCK + size > |tar| then None
        else
          var entry := Entry(UpToNul(h[..100]), ReadField(h[100..108], MAX_U32), tar[BLOCK..BLOCK + size]);
          var next := BLOCK + Blocks(size);
          match ReadTar(if next <= |tar| then tar[next..] else [])
          case None => None
          case Some(rest) => Some([entry] + rest)
  }

  // ----- lemmas: fields -----

  lemma {:induction false} SumBound(s: bytes)
    ensures Sum(s) <= 255 * |s|
  {
    if s != [] {
      SumBound(s[..|s| - 1]);
    }
  }

  function Pow8(n: nat): (p: nat)
    ensures p >= 1
  {
    if n == 0 then 1 else 8 * Pow8(n - 1)
  }

  lemma {:induction false} OctalLength(n: nat, width: nat)
    requires n < Pow8(width) && width > 0
    ensures |Octal(n)| <= width
  {
    if n >= 8 {
      OctalLength(n / 8, width - 1);
    }
  }

  lemma {:induction false} Pow8Six()
    ensures Pow8(6) == 262144 && Pow8(4) == 4096
  {
    assert Pow8(2) == 64;
    assert Pow8(3) == 512;
    assert Pow8(5) == 32768;
  }

  /** The sum of a block fits six octal digits, so the checksum fills its field exactly. */
  lemma {:induction false} ChecksumFits(h: bytes)
    requires |h| == BLOCK
    ensures |ChecksumText(Sum(h))| == 8
  {
    SumBound(h);
    Pow8Six();
    OctalLength(Sum(h), 6);
  }

  lemma {:induction false} OverwriteAt(s: bytes, at: nat, v: bytes, i: nat)
    requires at + |v| <= |s| && i < |s|
    ensures Overwrite(s, at, v)[i] == if at <= i < at + |v| then v[i - at] else s[i]
  {
  }

  /** Every byte of the unsummed header. */
  lemma {:induction false} UnsummedAt(name: bytes, mode: nat, size: nat, i: nat)
    requires |name| <= 100 && i < BLOCK
    ensures var m, z := Clipped(OctalPadded(BitAnd(mode, 4095), 7), 8), Clipped(OctalPadded(size, 11), 12);
            Unsummed(name, mode, size)[i] ==
            if i < |name| then name[i]
            else if 100 <= i < 100 + |m| then m[i - 100]
            else if 108 <= i < 115 || 116 <= i < 123 then 48
            else if 124 <= i < 124 + |z| then z[i - 124]
            else if 136 <= i < 147 then 48
            else if 148 <= i < 156 then 32
            else if i == 156 then 48
            else if 257 <= i < 263 then MAGIC[i - 257]
            else if 263 <= i < 265 then 48
            else 0
  {
    hide OctalPadded, BitAnd, Clipped, Overwrite;
    var m, z := Clipped(OctalPadded(BitAnd(mode, 4095), 7), 8), Clipped(OctalPadded(size, 11), 12);
    var h0 := Zeros(BLOCK);
    OverwriteAt(h0, 0, name, i);
    var h1 := Overwrite(h0, 0, name);
    OverwriteAt(h1, 100, m, i);
    var h2 := Overwrite(h1, 100, m);
    OverwriteAt(h2, 108, ZERO_FIELD, i);
    var h3 := Overwrite(h2, 108, ZERO_FIELD);
    OverwriteAt(h3, 116, ZERO_FIELD, i);
    var h4 := Overwrite(h3, 116, ZERO_FIELD);
    OverwriteAt(h4, 124, z, i);
    var h5 := Overwrite(h4, 124, z);
    OverwriteAt(h5, 136, ZERO_TIME, i);
    var h6 := Overwrite(h5, 136, ZERO_TIME);
    OverwriteAt(h6, 156, [48], i);
    var h7 := Overwrite(h6, 156, [48]);
    OverwriteAt(h7, 257, MAGIC, i);
    var h8 := Overwrite(h7, 257, MAGIC);
    OverwriteAt(h8, 263, VERSION, i);
    var h9 := Overwrite(h8, 263, VERSION);
    OverwriteAt(h9, 148, SPACES, i);
    Constants(i);
  }

  /** The fixed parts of a header: no owner, group or time, a regular file, and the magic of POSIX archives. */
  lemma {:induction false} FixedParts(name: bytes, mode: nat, size: nat)
    requires |name| <= 100
    ensures var h := Header(name, mode, size);
            && |h| == 512
            && (forall i :: 108 <= i < 115 || 116 <= i < 123 || 136 <= i < 147 || i == 156 ==> h[i] == '0' as int)
            && h[107] == 0 && h[115] == 0 && h[123] == 0 && h[135] == 0 && h[147] == 0
            && h[257..265] == Encode("ustar") + [0] + Encode("00")
            && (forall i :: 157 <= i < 257 || 265 <= i < 512 ==> h[i] == 0)
  {
    hide Header, Unsummed, Encode, Clipped, OctalPadded, BitAnd;
    var h := Header(name, mode, size);
    forall i | 0 <= i < 512 && !(148 <= i < 156)
      ensures h[i] == Unsummed(name, mode, size)[i]
    {
      HeaderAt(name, mode, size, i);
    }
    forall i | 100 <= i < 512
      ensures var m, z := Clipped(OctalPadded(BitAnd(mode, 4095), 7), 8), Clipped(OctalPadded(size, 11), 12);
              Unsummed(name, mode, size)[i] ==
              if 100 <= i < 100 + |m| then m[i - 100]
              else if 108 <= i < 115 || 116 <= i < 123 then 48
              else if 124 <= i < 124 + |z| then z[i - 124]
              else if 136 <= i < 147 then 48
              else if 148 <= i < 156 then 32
              else if i == 156 then 48
              else if 257 <= i < 263 then MAGIC[i - 257]
              else if 263 <= i < 265 then 48
              else 0
    {
      UnsummedAt(name, mode, size, i);
    }
    EncodeAscii("ustar");
    EncodeAscii("00");
  }

  lemma {:induction false} Constants(i: nat)
    ensures forall k :: 0 <= k < 7 ==> ZERO_FIELD[k] == 48
    ensures forall k :: 0 <= k < 11 ==> ZERO_TIME[k] == 48
    ensures forall k :: 0 <= k < 8 ==> SPACES[k] == 32
    ensures VERSION[0] == 48 && VERSION[1] == 48
    ensures |ZERO_FIELD| == 7 && |ZERO_TIME| == 11 && |SPACES| == 8 && |VERSION| == 2 && |MAGIC| == 6
  {
  }

  lemma {:induction false} HeaderAt(name: bytes, mode: nat, size: nat, i: nat)
    requires |name| <= 100 && i < BLOCK && !(148 <= i < 156)
    ensures Header(name, mode, size)[i] == Unsummed(name, mode, size)[i]
  {
    hide Unsummed, ChecksumText, Sum, Overwrite;
    var h := Unsummed(name, mode, size);
    ChecksumFits(h);
    OverwriteAt(h, 148, ChecksumText(Sum(h)), i);
  }

  /** The reader's view of a header: name, mode and size fields, magic, and not a zero block. */
  lemma {:induction false} HeaderFields(name: bytes, mode: nat, size: nat)
    requires |name| <= 100
    ensures var h := Header(name, mode, size);
            && h[..100] == name + Zeros(100 - |name|)
            && h[100..108] == OctalPadded(BitAnd(mode, 4095), 7) + [0]
            && h[124..135] == OctalPadded(size, 11)[..11]
            && h[257..262] == USTAR
            && !AllZero(h)
  {
    ModeDigits(mode);
    hide Header, OctalPadded, BitAnd, Unsummed;
    var h := Header(name, mode, size);
    forall i | 0 <= i < BLOCK && !(148 <= i < 156)
      ensures h[i] == Unsummed(name, mode, size)[i]
    {
      HeaderAt(name, mode, size, i);
    }
    forall i | 0 <= i < 100
      ensures h[i] == (name + Zeros(100 - |name|))[i]
    {
      UnsummedAt(name, mode, size, i);
    }
    var m := OctalPadded(BitAnd(mode, 4095), 7);
    forall i | 100 <= i < 108
      ensures h[i] == (m + [0])[i - 100]
    {
      UnsummedAt(name, mode, size, i);
    }
    forall i | 124 <= i < 135
      ensures h[i] == OctalPadded(size, 11)[i - 124]
    {
      UnsummedAt(name, mode, size, i);
    }
    forall i | 257 <= i < 262
      ensures h[i] == USTAR[i - 257]
    {
      UnsummedAt(name, mode, size, i);
    }
    UnsummedAt(name, mode, size, 156);
  }

  lemma {:induction false} MaskBound(mode: nat)
    ensures BitAnd(mode, 4095) == mode % 4096
  {
    Pow2Twelve();
    AndLow(mode, 12);
  }

  lemma {:induction false} Pow2Twelve()
    ensures Pow2(12) == 4096
  {
    assert Pow2(4) == 16;
    assert Pow2(8) == 256 by {
      assert Pow2(6) == 64;
    }
    assert Pow2(10) == 1024;
  }

  lemma {:induction false} Pow8Grows(a: nat, b: nat)
    requires a <= b
    ensures Pow8(a) <= Pow8(b)
    decreases b - a
  {
    if a < b {
      Pow8Grows(a, b - 1);
    }
  }

  lemma {:induction false} PaddedLength(n: nat, width: nat)
    requires n < Pow8(width) && width > 0
    ensures |OctalPadded(n, width)| == width
  {
    OctalLength(n, width);
  }

  lemma {:induction false} ModeDigits(mode: nat)
    ensures |OctalPadded(BitAnd(mode, 4095), 7)| == 7
  {
    MaskBound(mode);
    Pow8Six();
    Pow8Grows(4, 7);
    hide BitAnd, Pow8, OctalPadded;
    PaddedLength(BitAnd(mode, 4095), 7);
  }

  // ----- lemmas: reading digits -----

  predicate OctalBytes(v: bytes) {
    forall i :: 0 <= i < |v| ==> 48 <= v[i] <= 55
  }

  function BytesValue(v: bytes): nat
    requires OctalBytes(v)
  {
    if v == [] then 0 else BytesValue(v[..|v| - 1]) * 8 + (v[|v| - 1] as int - 48)
  }

  function AsciiText(v: bytes): (s: string)
    requires forall i :: 0 <= i < |v| ==> v[i] < 128
    ensures |s| == |v|
  {
    seq(|v|, i requires 0 <= i < |v| => v[i] as char)
  }

  lemma {:induction false} DecodeAscii(v: bytes)
    requires forall i :: 0 <= i < |v| ==> v[i] < 128
    ensures Decode(v) == Some(AsciiText(v))
  {
    if v != [] {
      DecodeAscii(v[1..]);
      assert AsciiText(v) == [v[0] as char] + AsciiText(v[1..]);
    }
  }

  lemma {:induction false} TextValue(v: bytes)
    requires OctalBytes(v)
    ensures IsOctal(AsciiText(v)) && OctalValue(AsciiText(v)) == BytesValue(v)
  {
    if v != [] {
      var front := v[..|v| - 1];
      TextValue(front);
      var t := AsciiText(v);
      assert t[..|t| - 1] == AsciiText(front);
    }
  }

  lemma {:induction false} TrimsNothing(s: string)
    requires s != "" && IsOctal(s)
    ensures Trim(TrimNulEnd(TrimNulStart(s))) == s
    ensures Trim(TrimNulEnd(TrimNulStart(s + "\0"))) == s
  {
    assert s[0] in s && s[|s| - 1] in s;
    var t := s + "\0";
    assert t[0] == s[0] && TrimNulStart(t) == t;
    assert t[..|t| - 1] == s;
    assert TrimNulEnd(t) == TrimNulEnd(s) == s;
    assert !IsWhitespace(s[0]) && !IsWhitespace(s[|s| - 1]);
  }

  /** A digit field, with or without its NUL, reads as its value. */
  lemma {:induction false} ReadDigits(v: bytes, max: nat)
    requires v != [] && OctalBytes(v) && BytesValue(v) <= max
    ensures ReadField(v, max) == BytesValue(v)
    ensures ReadField(v + [0], max) == BytesValue(v)
  {
    DecodeAscii(v);
    DecodeAscii(v + [0]);
    TextValue(v);
    hide Decode, Trim, TrimNulEnd, TrimNulStart, OctalValue, BytesValue;
    var s := AsciiText(v);
    assert AsciiText(v + [0]) == s + "\0";
    TrimsNothing(s);
    assert s[0] != '+';
  }

  lemma {:induction false} OctalReads(n: nat)
    ensures OctalBytes(Octal(n)) && BytesValue(Octal(n)) == n
  {
    if n >= 8 {
      OctalReads(n / 8);
      var v := Octal(n);
      assert v[..|v| - 1] == Octal(n / 8);
    } else {
      assert Octal(n)[..0] == [];
    }
  }

  lemma {:induction false} LeadingZeros(z: nat, v: bytes)
    requires OctalBytes(v)
    ensures OctalBytes(ZeroDigits(z) + v) && BytesValue(ZeroDigits(z) + v) == BytesValue(v)
  {
    var t := ZeroDigits(z) + v;
    if v == [] {
      if z > 0 {
        assert t[..|t| - 1] == ZeroDigits(z - 1) + [];
        LeadingZeros(z - 1, []);
      }
    } else {
      assert t[..|t| - 1] == ZeroDigits(z) + v[..|v| - 1];
      LeadingZeros(z, v[..|v| - 1]);
    }
  }

  lemma {:induction false} PaddedReads(n: nat, width: nat)
    ensures OctalBytes(OctalPadded(n, width)) && BytesValue(OctalPadded(n, width)) == n
  {
    OctalReads(n);
    hide Octal, BytesValue, ZeroDigits;
    if |Octal(n)| < width {
      LeadingZeros(width - |Octal(n)|, Octal(n));
    }
  }

  lemma {:induction false} ValueBound(v: bytes)
    requires OctalBytes(v)
    ensures BytesValue(v) < Pow8(|v|)
  {
    if v != [] {
      ValueBound(v[..|v| - 1]);
    }
  }

  lemma {:induction false} Pow8Eleven()
    ensures Pow8(11) == 8_589_934_592
  {
    Pow8Six();
    assert Pow8(8) == 16_777_216;
    assert Pow8(10) == 1_073_741_824;
  }

  /** The stored size reads back exactly when it fits eleven octal digits. */
  lemma {:induction false} SizeReads(size: nat)
    ensures ReadField(OctalPadded(size, 11)[..11], MAX_U64) == size <==> size < 8_589_934_592
  {
    Pow8Eleven();
    PaddedReads(size, 11);
    hide Pow8, OctalPadded, BytesValue, ReadField;
    var v := OctalPadded(size, 11);
    ValueBound(v[..11]);
    ReadDigits(v[..11], MAX_U64);
    if size < 8_589_934_592 {
      PaddedLength(size, 11);
      assert v[..11] == v;
    }
  }

  lemma {:induction false} ModeReads(mode: nat)
    ensures ReadField(OctalPadded(BitAnd(mode, 4095), 7) + [0], MAX_U32) == mode % 4096
  {
    MaskBound(mode);
    var m := BitAnd(mode, 4095);
    PaddedReads(m, 7);
    hide BitAnd, OctalPadded, BytesValue, ReadField;
    ReadDigits(OctalPadded(m, 7), MAX_U32);
  }

  /** A name padded with NULs reads back exactly when it holds none itself. */
  lemma {:induction false} NameReads(name: bytes, z: nat)
    ensures UpToNul(name + Zeros(z)) == name <==> 0 !in name
  {
    var s := name + Zeros(z);
    if name != [] {
      if name[0] != 0 {
        assert s[1..] == name[1..] + Zeros(z);
        NameReads(name[1..], z);
        assert name == [name[0]] + name[1..];
      }
    }
  }
}
