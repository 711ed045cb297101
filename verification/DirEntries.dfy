/** The 32-byte directory entry of FAT: fields, encoding, and 8.3 name matching. */
module DirEntries {
  import opened Bytes

  const ENTRY_SIZE: nat := 32

  /** `stamps` holds the reserved byte, the times and dates and the extended attributes. */
  datatype DirEntry = DirEntry(
    fileName: seq<Byte>,
    ext: seq<Byte>,
    attributes: Byte,
    stamps: seq<Byte>,
    firstCluster: nat,
    byteSize: nat)
  {
    ghost predicate Valid() {
      && |fileName| == 8 && |ext| == 3 && |stamps| == 14
      && firstCluster < 0x1_0000 && byteSize < 0x1_0000_0000
    }
  }

  function Le16(n: nat): (b: seq<Byte>)
    ensures |b| == 2
  {
    [n % 0x100, n / 0x100 % 0x100]
  }

  function Le32(n: nat): (b: seq<Byte>)
    ensures |b| == 4
  {
    Le16(n % 0x1_0000) + Le16(n / 0x1_0000 % 0x1_0000)
  }

  function FromLe16(b: seq<Byte>): (n: nat)
    requires |b| == 2
    ensures n < 0x1_0000
  {
    b[0] as int + b[1] as int * 0x100
  }

  function FromLe32(b: seq<Byte>): (n: nat)
    requires |b| == 4
    ensures n < 0x1_0000_0000
  {
    FromLe16(b[..2]) + FromLe16(b[2..]) * 0x1_0000
  }

  /** The entry as it lies on the disk. */
  function Encode(e: DirEntry): (b: seq<Byte>)
    requires |e.fileName| == 8 && |e.ext| == 3 && |e.stamps| == 14
    ensures |b| == ENTRY_SIZE
  {
    e.fileName + e.ext + [e.attributes] + e.stamps + Le16(e.firstCluster) + Le32(e.byteSize)
  }

  function Decode(b: seq<Byte>): (e: DirEntry)
    requires |b| == ENTRY_SIZE
    ensures e.Valid()
  {
    DirEntry(b[..8], b[8..11], b[11], b[12..26], FromLe16(b[26..28]), FromLe32(b[28..]))
  }

  /** The entry is in the bytes from `at` on: each field in its place, numbers with the low byte first. */
  ghost predicate LiesAt(e: DirEntry, v: seq<Byte>, at: nat) {
    && at + ENTRY_SIZE <= |v|
    && e.fileName == v[at..at + 8] && e.ext == v[at + 8..at + 11] && e.attributes == v[at + 11]
    && e.stamps == v[at + 12..at + 26]
    && e.firstCluster == v[at + 26] as int + v[at + 27] as int * 0x100
    && e.byteSize == v[at + 28] as int + v[at + 29] as int * 0x100 + v[at + 30] as int * 0x1_0000
                     + v[at + 31] as int * 0x100_0000
  }

  /** Any 32 bytes decode to an entry exactly when they hold its fields. */
  lemma DecodesExactly(v: seq<Byte>, at: nat, e: DirEntry)
    requires at + ENTRY_SIZE <= |v|
    ensures Decode(v[at..at + ENTRY_SIZE]) == e <==> LiesAt(e, v, at)
  {
    var b := v[at..at + ENTRY_SIZE];
    SubSlice(v, at, at + ENTRY_SIZE, 0, 8);
    SubSlice(v, at, at + ENTRY_SIZE, 8, 3);
    SubSlice(v, at, at + ENTRY_SIZE, 12, 14);
    assert b[26..28] == [v[at + 26], v[at + 27]];
    assert b[28..][..2] == [v[at + 28], v[at + 29]] && b[28..][2..] == [v[at + 30], v[at + 31]];
  }

  /** The same bytes hold the same entry, and no other. */
  lemma SameBytesSameEntry(v: seq<Byte>, w: seq<Byte>, at: nat, e: DirEntry, e': DirEntry)
    requires at + ENTRY_SIZE <= |v| == |w| && v[at..at + ENTRY_SIZE] == w[at..at + ENTRY_SIZE]
    ensures LiesAt(e, v, at) <==> LiesAt(e, w, at)
    ensures LiesAt(e, v, at) ==> (LiesAt(e', w, at) <==> e' == e)
  {
    DecodesExactly(v, at, e);
    DecodesExactly(w, at, e);
    DecodesExactly(w, at, e');
  }

  /** An entry that is written is there, field by field, and nothing behind or before it changes. */
  lemma EncodesInPlace(v: seq<Byte>, at: nat, e: DirEntry)
    requires at + ENTRY_SIZE <= |v| && e.Valid()
    ensures var w := Splice(v, at, Encode(e));
            LiesAt(e, w, at) && forall i | 0 <= i < |v| && !(at <= i < at + ENTRY_SIZE) :: w[i] == v[i]
  {
    hide Encode, Decode, LiesAt;
    var w := Splice(v, at, Encode(e));
    SpliceAt(v, at, Encode(e));
    assert w[at..at + ENTRY_SIZE] == Encode(e);
    EntryRoundTrip(e);
    DecodesExactly(w, at, e);
  }

  lemma Le16RoundTrip(n: nat)
    requires n < 0x1_0000
    ensures FromLe16(Le16(n)) == n
  {
  }

  lemma Le32RoundTrip(n: nat)
    requires n < 0x1_0000_0000
    ensures FromLe32(Le32(n)) == n
  {
    hide Le16, FromLe16;
    var lo, hi := n % 0x1_0000, n / 0x1_0000;
    assert hi < 0x1_0000 && hi % 0x1_0000 == hi;
    Le16RoundTrip(lo);
    Le16RoundTrip(hi);
    var b := Le32(n);
    assert b[..2] == Le16(lo) && b[2..] == Le16(hi);
  }

  /** What is written to the disk reads back as the same entry. */
  lemma EntryRoundTrip(e: DirEntry)
    requires e.Valid()
    ensures Decode(Encode(e)) == e
  {
    hide FromLe16, FromLe32, Le16, Le32;
    var b := Encode(e);
    assert b[..8] == e.fileName && b[8..11] == e.ext && b[12..26] == e.stamps;
    assert b[26..28] == Le16(e.firstCluster) && b[28..] == Le32(e.byteSize);
    Le16RoundTrip(e.firstCluster);
    Le32RoundTrip(e.byteSize);
  }

  lemma Le16Back(b: seq<Byte>)
    requires |b| == 2
    ensures Le16(FromLe16(b)) == b
  {
  }

  lemma Le32Back(b: seq<Byte>)
    requires |b| == 4
    ensures Le32(FromLe32(b)) == b
  {
    hide Le16, FromLe16;
    Le16Back(b[..2]);
    Le16Back(b[2..]);
    var lo, hi := FromLe16(b[..2]), FromLe16(b[2..]);
    assert FromLe32(b) % 0x1_0000 == lo && FromLe32(b) / 0x1_0000 == hi;
    assert b == b[..2] + b[2..];
  }

  /** Every 32 bytes are the encoding of the entry they decode to. */
  lemma BytesRoundTrip(b: seq<Byte>)
    requires |b| == ENTRY_SIZE
    ensures Encode(Decode(b)) == b
  {
    hide FromLe16, FromLe32, Le16, Le32;
    Le16Back(b[26..28]);
    Le32Back(b[28..]);
    assert b == b[..8] + b[8..11] + [b[11]] + b[12..26] + b[26..28] + b[28..];
  }

  function Upper(b: Byte): Byte {
    if 0x60 < b < 0x7b then b - 0x20 else b
  }

  function Uppers(s: seq<Byte>): (r: seq<Byte>)
    ensures |r| == |s| && forall i | 0 <= i < |s| :: r[i] == Upper(s[i])
  {
    seq(|s|, i requires 0 <= i < |s| => Upper(s[i]))
  }

  /** Equal characters, or the small and the capital form of one letter. */
  predicate AsciiCharMatches(a: Byte, b: Byte): (r: bool)
    ensures r <==> Upper(a) == Upper(b)
    ensures r <==> a == b || (0x41 <= a <= 0x5a && b == a + 0x20) || (0x41 <= b <= 0x5a && a == b + 0x20)
  {
    if 0x40 < a < 0x5b then a == b || a + 0x20 == b
    else if 0x60 < a < 0x7b then a == b || a == b + 0x20
    else a == b
  }

  /** The same but for the case of the letters A to Z. */
  ghost predicate SameLetters(s: seq<Byte>, t: seq<Byte>) {
    |s| == |t| && forall i | 0 <= i < |s| ::
                    s[i] == t[i] || (0x41 <= s[i] <= 0x5a && t[i] == s[i] + 0x20)
                    || (0x41 <= t[i] <= 0x5a && s[i] == t[i] + 0x20)
  }

  predicate MatchesName(e: DirEntry, fileName: seq<Byte>, ext: seq<Byte>): (r: bool)
    requires |e.fileName| == |fileName| == 8 && |e.ext| == |ext| == 3
    ensures r <==> Uppers(e.fileName) == Uppers(fileName) && Uppers(e.ext) == Uppers(ext)
    ensures r <==> SameLetters(e.fileName, fileName) && SameLetters(e.ext, ext)
  {
    var name := forall i | 0 <= i < 8 :: AsciiCharMatches(e.fileName[i], fileName[i]);
    var extension := forall i | 0 <= i < 3 :: AsciiCharMatches(e.ext[i], ext[i]);
    assert Uppers(e.fileName) == Uppers(fileName) ==>
        forall i | 0 <= i < 8 :: Uppers(e.fileName)[i] == Uppers(fileName)[i];
    assert Uppers(e.ext) == Uppers(ext) ==> forall i | 0 <= i < 3 :: Uppers(e.ext)[i] == Uppers(ext)[i];
    name && extension
  }
}
