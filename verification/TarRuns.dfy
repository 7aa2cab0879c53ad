/** Reading a written archive, and the loops of writer and reader. */
module TarRuns {
  import opened Text
  import opened Utf8
  import opened Bits
  import opened Tar

  /** An entry whose header can carry its name and size. */
  predicate Storable(e: Entry) {
    0 !in e.name && |e.data| < 8_589_934_592
  }

  function Masked(e: Entry): Entry {
    e.(mode := e.mode % 4096)
  }

  function MaskedAll(entries: seq<Entry>): (r: seq<Entry>)
    ensures |r| == |entries|
  {
    if entries == [] then [] else [Masked(entries[0])] + MaskedAll(entries[1..])
  }

  lemma {:induction false} PaddingFills(size: nat)
    ensures size + Padding(size) == Blocks(size)
  {
  }

  lemma {:induction false} EntryLength(e: Entry)
    requires |e.name| <= 100
    ensures |EntryBytes(e)| == BLOCK + Blocks(|e.data|) && |EntryBytes(e)| % 512 == 0
  {
    hide Header, Padding, Blocks;
    PaddingFills(|e.data|);
    BlocksAligned(|e.data|);
  }

  lemma {:induction false} BlocksAligned(size: nat)
    ensures (BLOCK + Blocks(size)) % 512 == 0
  {
    MulDiv((size + 511) / 512 + 1, 512, 0);
  }

  lemma {:induction false} AlignedSum(a: nat, b: nat)
    requires a % 512 == 0 && b % 512 == 0
    ensures (a + b) % 512 == 0
  {
  }

  lemma {:induction false} BodyAligned(entries: seq<Entry>)
    requires NamesFit(entries)
    ensures |Body(entries)| % 512 == 0
  {
    hide EntryBytes;
    if entries != [] {
      EntryLength(entries[0]);
      BodyAligned(entries[1..]);
      AlignedSum(|EntryBytes(entries[0])|, |Body(entries[1..])|);
    }
  }

  /** The archive always ends on a block boundary. */
  lemma {:induction false} ArchiveAligned(entries: seq<Entry>)
    requires NamesFit(entries)
    ensures Archive(entries).Some? && |Archive(entries).value| % 512 == 0
  {
    hide Body;
    BodyAligned(entries);
    AlignedSum(|Body(entries)|, 1024);
  }

  /** An entry is its header, its data, and NULs up to the next block boundary. */
  lemma {:induction false} EntryLayout(e: Entry)
    requires |e.name| <= 100
    ensures var b := EntryBytes(e);
            && 512 + |e.data| <= |b| < 1024 + |e.data| && |b| % 512 == 0
            && b[..512] == Header(e.name, e.mode, |e.data|) && b[512..512 + |e.data|] == e.data
            && forall i :: 512 + |e.data| <= i < |b| ==> b[i] == 0
  {
    hide Header, Blocks;
    EntryLength(e);
    var b, end := EntryBytes(e), 512 + |e.data|;
    forall i | end <= i < |b|
      ensures b[i] == 0
    {
      assert b[i] == Zeros(Padding(|e.data|))[i - end];
    }
  }

  /** Two blocks of NULs end an archive. */
  lemma {:induction false} ArchiveEnd(entries: seq<Entry>)
    requires NamesFit(entries)
    ensures Archive(entries).Some?
    ensures var a := Archive(entries).value;
            |a| == |Body(entries)| + 1024 && forall i :: |a| - 1024 <= i < |a| ==> a[i] == 0
  {
    hide Body;
    var a, n := Archive(entries).value, |Body(entries)|;
    forall i | n <= i < |a|
      ensures a[i] == 0
    {
      assert a[i] == Zeros(1024)[i - n];
    }
  }

  /** The stored checksum is the sum of the header with blanks in its place. */
  lemma {:induction false} ChecksumStored(name: bytes, mode: nat, size: nat)
    requires |name| <= 100
    ensures var h := Header(name, mode, size);
            && ReadField(h[148..154], MAX_U32) == Sum(Overwrite(h, 148, SPACES))
            && h[154] == 0 && h[155] == 32
  {
    hide Sum, OctalPadded, ReadField, BytesValue, Unsummed, Overwrite;
    var u := Unsummed(name, mode, size);
    ChecksumFits(u);
    SumDigits(u);
    var digits := OctalPadded(Sum(u), 6);
    SixDigits(u, digits);
    Overwritten(u, digits);
    BlankAlready(name, mode, size);
  }

  lemma {:induction false} SumDigits(u: bytes)
    requires |u| == BLOCK
    ensures |OctalPadded(Sum(u), 6)| == 6 && ReadField(OctalPadded(Sum(u), 6), MAX_U32) == Sum(u)
  {
    ChecksumFits(u);
    SumBound(u);
    PaddedReads(Sum(u), 6);
    hide Sum, OctalPadded, ReadField, BytesValue;
    ReadDigits(OctalPadded(Sum(u), 6), MAX_U32);
  }

  lemma {:induction false} Overwritten(u: bytes, digits: bytes)
    requires |u| == BLOCK && |digits| == 6
    ensures Overwrite(Overwrite(u, 148, digits + [0, 32]), 148, SPACES) == Overwrite(u, 148, SPACES)
  {
  }

  lemma {:induction false} SixDigits(u: bytes, digits: bytes)
    requires |u| == BLOCK && |digits| == 6
    ensures var h := Overwrite(u, 148, digits + [0, 32]);
            h[148..154] == digits && h[154] == 0 && h[155] == 32
  {
  }

  lemma {:induction false} BlankAlready(name: bytes, mode: nat, size: nat)
    requires |name| <= 100
    ensures Overwrite(Unsummed(name, mode, size), 148, SPACES) == Unsummed(name, mode, size)
  {
    var u := Unsummed(name, mode, size);
    forall i | 148 <= i < 156
      ensures u[i] == SPACES[i - 148]
    {
      UnsummedAt(name, mode, size, i);
    }
    hide Unsummed;
  }

  // ----- reading back -----

  /** What the reader makes of the first block of an entry. */
  lemma {:induction false} FirstBlock(e: Entry)
    requires |e.name| <= 100
    ensures |EntryBytes(e)| == BLOCK + |e.data| + Padding(|e.data|) == BLOCK + Blocks(|e.data|)
    ensures EntryBytes(e)[..BLOCK] == Header(e.name, e.mode, |e.data|)
    ensures EntryBytes(e)[BLOCK..BLOCK + |e.data|] == e.data
  {
    hide Header, Padding, Blocks;
    PaddingFills(|e.data|);
  }

  lemma {:induction false} ReadStorable(e: Entry, rest: bytes)
    requires |e.name| <= 100 && Storable(e)
    ensures ReadTar(EntryBytes(e) + rest) ==
            match ReadTar(rest) case None => None case Some(more) => Some([Masked(e)] + more)
  {
    hide EntryBytes, Header, ReadField, OctalPadded, UpToNul, AllZero, BitAnd, Blocks, Padding;
    var tar := EntryBytes(e) + rest;
    EntryLength(e);
    FirstBlock(e);
    HeaderFields(e.name, e.mode, |e.data|);
    SizeReads(|e.data|);
    ModeReads(e.mode);
    NameReads(e.name, 100 - |e.name|);
    BlocksCover(|e.data|);
    assert tar[..BLOCK] == EntryBytes(e)[..BLOCK];
    assert tar[BLOCK..BLOCK + |e.data|] == EntryBytes(e)[BLOCK..BLOCK + |e.data|];
    assert tar[|EntryBytes(e)|..] == rest;
  }

  lemma {:induction false} BlocksCover(size: nat)
    ensures size <= Blocks(size)
  {
  }

  /** An entry that cannot be stored is never read back as itself. */
  lemma {:induction false} ReadUnstorable(e: Entry, rest: bytes)
    requires |e.name| <= 100 && !Storable(e)
    ensures var got := ReadTar(EntryBytes(e) + rest);
            got.Some? ==> got.value != [] && got.value[0] != Masked(e)
  {
    var tar := EntryBytes(e) + rest;
    FirstBlock(e);
    HeaderFields(e.name, e.mode, |e.data|);
    SizeReads(|e.data|);
    NameReads(e.name, 100 - |e.name|);
    hide EntryBytes, Header, ReadField, OctalPadded, UpToNul, AllZero, BitAnd, Blocks, Padding;
    assert tar[..BLOCK] == EntryBytes(e)[..BLOCK];
    var size := ReadField(tar[..BLOCK][124..135], MAX_U64);
    assert BLOCK + size <= |tar| ==> |tar[BLOCK..BLOCK + size]| == size;
  }

  lemma {:induction false} ReadEnd()
    ensures ReadTar(Zeros(1024)) == Some([])
  {
    assert AllZero(Zeros(1024)[..BLOCK]);
  }

  /** Reading a written archive gives back names, contents and order, with modes masked to 12 bits,
      exactly when every name is NUL-free and every size fits its field. */
  lemma {:induction false} TarRoundTrip(entries: seq<Entry>)
    requires NamesFit(entries)
    ensures ReadTar(Body(entries) + Zeros(1024)) == Some(MaskedAll(entries)) <==>
            forall i :: 0 <= i < |entries| ==> Storable(entries[i])
  {
    hide ReadTar, EntryBytes, Storable;
    if entries == [] {
      ReadEnd();
      assert Body(entries) + Zeros(1024) == Zeros(1024);
    } else {
      var e, more := entries[0], entries[1..];
      var rest := Body(more) + Zeros(1024);
      assert Body(entries) + Zeros(1024) == EntryBytes(e) + rest;
      TarRoundTrip(more);
      if Storable(e) {
        ReadStorable(e, rest);
        AllStorable(entries);
        if ReadTar(rest).Some? {
          assert ([Masked(e)] + ReadTar(rest).value)[1..] == ReadTar(rest).value;
        }
        assert MaskedAll(entries)[1..] == MaskedAll(more);
      } else {
        ReadUnstorable(e, rest);
        assert MaskedAll(entries)[0] == Masked(e);
      }
    }
  }

  lemma {:induction false} AllStorable(entries: seq<Entry>)
    requires entries != [] && Storable(entries[0])
    ensures (forall i :: 0 <= i < |entries| ==> Storable(entries[i])) <==>
            (forall i :: 0 <= i < |entries[1..]| ==> Storable(entries[1..][i]))
  {
    hide Storable;
    if forall i :: 0 <= i < |entries[1..]| ==> Storable(entries[1..][i]) {
      forall i | 0 <= i < |entries|
        ensures Storable(entries[i])
      {
        if i > 0 {
          assert entries[i] == entries[1..][i - 1];
        }
      }
    }
  }

  // ----- the writer in place -----

  method WriteAt(a: array<byte>, at: nat, v: bytes)
    requires at + |v| <= a.Length
    modifies a
    ensures a[..] == Overwrite(old(a[..]), at, v)
  {
    forall i | 0 <= i < |v| {
      a[at + i] := v[i];
    }
  }

  method SumBytes(s: bytes) returns (sum: nat)
    ensures sum == Sum(s)
  {
    sum := 0;
    for i := 0 to |s|
      invariant sum == Sum(s[..i])
    {
      assert s[..i + 1][..i] == s[..i];
      sum := sum + s[i];
    }
    assert s[..|s|] == s;
  }

  /** One 512-byte header, written field by field into a zeroed block; an error for a long name. */
  method BuildHeader(name: bytes, mode: nat, size: nat) returns (r: Option<bytes>)
    ensures r == if |name| > 100 then None else Some(Header(name, mode, size))
  {
    hide OctalPadded, BitAnd, Sum, Overwrite;
    if |name| > 100 {
      return None;
    }
    var header := new byte[BLOCK](_ => 0);
    assert header[..] == Zeros(BLOCK);
    WriteAt(header, 0, name);
    WriteAt(header, 100, Clipped(OctalPadded(BitAnd(mode, 4095), 7), 8));
    WriteAt(header, 108, ZERO_FIELD);
    WriteAt(header, 116, ZERO_FIELD);
    WriteAt(header, 124, Clipped(OctalPadded(size, 11), 12));
    WriteAt(header, 136, ZERO_TIME);
    WriteAt(header, 156, [48]);
    WriteAt(header, 257, MAGIC);
    WriteAt(header, 263, VERSION);
    WriteAt(header, 148, SPACES);
    assert header[..] == Unsummed(name, mode, size);
    var sum := SumBytes(header[..]);
    ChecksumFits(header[..]);
    WriteAt(header, 148, ChecksumText(sum));
    r := Some(header[..]);
  }

  lemma {:induction false} BodyPush(entries: seq<Entry>, n: nat)
    requires n < |entries| && NamesFit(entries[..n + 1])
    ensures NamesFit(entries[..n])
    ensures Body(entries[..n + 1]) == Body(entries[..n]) + EntryBytes(entries[n])
  {
    hide EntryBytes;
    assert forall i :: 0 <= i < n ==> entries[..n][i] == entries[..n + 1][i];
    BodyAppend(entries[..n], entries[n]);
    assert entries[..n + 1] == entries[..n] + [entries[n]];
  }

  lemma {:induction false} BodyAppend(entries: seq<Entry>, e: Entry)
    requires NamesFit(entries) && |e.name| <= 100
    ensures NamesFit(entries + [e]) && Body(entries + [e]) == Body(entries) + EntryBytes(e)
  {
    hide EntryBytes;
    if entries == [] {
      assert (entries + [e])[1..] == [];
    } else {
      assert (entries + [e])[1..] == entries[1..] + [e];
      BodyAppend(entries[1..], e);
    }
  }

  method WriteArchive(entries: seq<Entry>) returns (r: Option<bytes>)
    ensures r == Archive(entries)
  {
    hide Header, Overwrite;
    var out: bytes := [];
    for n := 0 to |entries|
      invariant NamesFit(entries[..n]) && out == Body(entries[..n])
    {
      var e := entries[n];
      var header := BuildHeader(e.name, e.mode, |e.data|);
      if header.None? {
        return None;
      }
      assert NamesFit(entries[..n + 1]);
      BodyPush(entries, n);
      var pad := (512 - |e.data| % 512) % 512;
      out := out + (header.value + e.data + Zeros(pad));
    }
    assert entries[..|entries|] == entries;
    r := Some(out + Zeros(1024));
  }

  // ----- the reader's loop -----

  ghost function Onto(acc: seq<Entry>, rest: Option<seq<Entry>>): Option<seq<Entry>> {
    if rest.Some? then Some(acc + rest.value) else None
  }

  lemma {:induction false} ReadShort(tar: bytes)
    requires |tar| < BLOCK
    ensures ReadTar(tar) == Some([])
  {
  }

  /** What the reader makes of the first block left, and where it goes on. */
  lemma {:induction false} ReadStep(left: bytes)
    requires |left| >= BLOCK
    ensures var h := left[..BLOCK];
            var size := ReadField(h[124..135], MAX_U64);
            var next := BLOCK + Blocks(size);
            ReadTar(left) ==
            if AllZero(h) then Some([])
            else if h[257..262] != USTAR || BLOCK + size > |left| then None
            else
              var entry := Entry(UpToNul(h[..100]), ReadField(h[100..108], MAX_U32), left[BLOCK..BLOCK + size]);
              Onto([entry], ReadTar(if next <= |left| then left[next..] else []))
  {
    hide ReadField, UpToNul, AllZero, Blocks;
  }

  method ReadArchive(tar: bytes) returns (r: Option<seq<Entry>>)
    ensures r == ReadTar(tar)
  {
    hide ReadField, UpToNul, AllZero, ReadTar;
    var out: seq<Entry> := [];
    var offset := 0;
    assert tar[0..] == tar;
    assert ReadTar(tar).Some? ==> [] + ReadTar(tar).value == ReadTar(tar).value;
    while offset + BLOCK <= |tar|
      invariant ReadTar(tar) == Onto(out, ReadTar(if offset <= |tar| then tar[offset..] else []))
    {
      ghost var start, left := offset, tar[offset..];
      var header := tar[offset..offset + BLOCK];
      assert left[..BLOCK] == header;
      ReadStep(left);
      if AllZero(header) {
        assert out + [] == out;
        return Some(out);
      }
      if header[257..262] != USTAR {
        return None;
      }
      var name := UpToNul(header[..100]);
      var mode := ReadField(header[100..108], MAX_U32);
      var size := ReadField(header[124..135], MAX_U64);
      offset := offset + BLOCK;
      if offset + size > |tar| {
        return None;
      }
      var entry := Entry(name, mode, tar[offset..offset + size]);
      assert left[BLOCK..BLOCK + size] == tar[offset..offset + size];
      offset := offset + (size + 511) / 512 * 512;
      assert offset == start + BLOCK + Blocks(size);
      TailAfter(tar, start, Blocks(size));
      OntoPush(out, entry, ReadTar(if offset <= |tar| then tar[offset..] else []));
      out := out + [entry];
    }
    ReadShort(if offset <= |tar| then tar[offset..] else []);
    assert out + [] == out;
    r := Some(out);
  }

  lemma {:induction false} TailAfter(tar: bytes, start: nat, blocks: nat)
    requires start + BLOCK <= |tar|
    ensures var left, next := tar[start..], start + BLOCK + blocks;
            (if next <= |tar| then tar[next..] else []) ==
            (if BLOCK + blocks <= |left| then left[BLOCK + blocks..] else [])
  {
  }

  lemma {:induction false} OntoPush(acc: seq<Entry>, e: Entry, rest: Option<seq<Entry>>)
    ensures Onto(acc, Onto([e], rest)) == Onto(acc + [e], rest)
  {
    if rest.Some? {
      assert acc + ([e] + rest.value) == acc + [e] + rest.value;
    }
  }
}
