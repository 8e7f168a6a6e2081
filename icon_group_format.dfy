/**
 * The RT_GROUP_ICON resource layout (GRPICONDIR followed by GRPICONDIRENTRY
 * records, packed on 1-byte boundaries) and the decoder's first loop, which
 * turns the directory into the set of distinct icon sizes it advertises.
 *
 * Layout, little-endian:
 *   GRPICONDIR       idReserved @0 (WORD), idType @2 (WORD), idCount @4 (WORD),
 *                    then idCount entries from offset 6
 *   GRPICONDIRENTRY  bWidth @0, bHeight @1, bColorCount @2, bReserved @3 (BYTE),
 *                    wPlanes @4, wBitCount @6 (WORD), dwBytesInRes @8 (DWORD),
 *                    nId @12 (WORD); 14 bytes in all
 */
module IconGroupFormat {
  import opened Win32

  /** sizeof(GRPICONDIR) - sizeof(GRPICONDIRENTRY): the header alone. */
  const HeaderSize: nat := 6
  /** sizeof(GRPICONDIRENTRY) with 1-byte packing. */
  const EntrySize: nat := 14
  const CountOffset: nat := 4
  const HeightOffset: nat := 1

  /** A little-endian WORD at `offset`. */
  function ReadWord(bytes: seq<Byte>, offset: nat): (w: Word)
    requires offset + 2 <= |bytes|
  {
    bytes[offset] as int + 0x100 * bytes[offset + 1] as int
  }

  /** idCount of the directory header. */
  function IdCount(bytes: seq<Byte>): Word
    requires HeaderSize <= |bytes|
  {
    ReadWord(bytes, CountOffset)
  }

  /** The length check the decoder performs: only the header must fit. */
  predicate HeaderFits(size: nat)
  {
    size >= HeaderSize
  }

  /** Offset of idEntries[i].bHeight. */
  function HeightIndex(i: nat): nat
  {
    HeaderSize + EntrySize * i + HeightOffset
  }

  /**
   * Every height byte the size loop reads lies inside the resource. The
   * decoder never checks this: it trusts idCount.
   */
  predicate HeightsInBounds(bytes: seq<Byte>)
  {
    HeaderSize <= |bytes| && (IdCount(bytes) == 0 || HeightIndex(IdCount(bytes) - 1) < |bytes|)
  }

  /** idEntries[i].bHeight. */
  function EntryHeight(bytes: seq<Byte>, i: nat): Byte
    requires HeightsInBounds(bytes) && i < IdCount(bytes)
  {
    bytes[HeightIndex(i)]
  }

  /** A height byte of 0 stands for 256 pixels. */
  function NormaliseHeight(h: Byte): (size: int)
    ensures 1 <= size <= 256
  {
    if h == 0 then 256 else h
  }

  /** The normalised heights of entries 0 .. n-1. */
  ghost function SizesUpTo(bytes: seq<Byte>, n: nat): set<int>
    requires HeightsInBounds(bytes) && n <= IdCount(bytes)
  {
    set i | 0 <= i < n :: NormaliseHeight(EntryHeight(bytes, i))
  }

  /** The distinct icon sizes a directory advertises. */
  ghost function SizeSet(bytes: seq<Byte>): set<int>
    requires HeightsInBounds(bytes)
  {
    SizesUpTo(bytes, IdCount(bytes))
  }

  /** The integers lo .. hi-1 (with lo = 1, hi = 257: the sizes a height byte can stand for). */
  ghost function SizeRange(lo: int, hi: int): (r: set<int>)
    ensures forall k :: k in r <==> lo <= k < hi
    ensures lo <= hi ==> |r| == hi - lo
    decreases hi - lo
  {
    if lo >= hi then {} else {lo} + SizeRange(lo + 1, hi)
  }

  lemma {:induction false} SizesUpToStep(bytes: seq<Byte>, n: nat)
    requires HeightsInBounds(bytes) && n < IdCount(bytes)
    ensures SizesUpTo(bytes, n + 1) == SizesUpTo(bytes, n) + {NormaliseHeight(EntryHeight(bytes, n))}
  {
    var h := NormaliseHeight(EntryHeight(bytes, n));
    forall s | s in SizesUpTo(bytes, n + 1)
      ensures s in SizesUpTo(bytes, n) + {h}
    {
      var i :| 0 <= i < n + 1 && s == NormaliseHeight(EntryHeight(bytes, i));
      if i < n {
        assert s in SizesUpTo(bytes, n);
      }
    }
    forall s | s in SizesUpTo(bytes, n) + {h}
      ensures s in SizesUpTo(bytes, n + 1)
    {
      if s in SizesUpTo(bytes, n) {
        var i :| 0 <= i < n && s == NormaliseHeight(EntryHeight(bytes, i));
        assert s == NormaliseHeight(EntryHeight(bytes, i));
      } else {
        assert s == NormaliseHeight(EntryHeight(bytes, n));
      }
    }
  }

  /** No more distinct sizes than entries read. */
  lemma {:induction false} SizesUpToCount(bytes: seq<Byte>, n: nat)
    requires HeightsInBounds(bytes) && n <= IdCount(bytes)
    ensures |SizesUpTo(bytes, n)| <= n
  {
    if n == 0 {
      assert SizesUpTo(bytes, 0) == {};
    } else {
      SizesUpToCount(bytes, n - 1);
      SizesUpToStep(bytes, n - 1);
    }
  }

  lemma SubsetCount(a: set<int>, b: set<int>)
    requires a <= b
    ensures |a| <= |b|
  {
    assert b == a + (b - a);
  }

  /**
   * Every size lies in [1, 256], and there are at most min(idCount, 256)
   * distinct sizes.
   */
  lemma SizeSetBounds(bytes: seq<Byte>)
    requires HeightsInBounds(bytes)
    ensures forall s :: s in SizeSet(bytes) ==> 1 <= s <= 256
    ensures |SizeSet(bytes)| <= IdCount(bytes) && |SizeSet(bytes)| <= 256
  {
    SizesUpToCount(bytes, IdCount(bytes));
    SubsetCount(SizeSet(bytes), SizeRange(1, 257));
  }

  /**
   * The loop at the head of the decoder: one pass over idCount entries,
   * inserting each normalised height into a set.
   */
  method CollectSizes(bytes: seq<Byte>) returns (sizes: set<int>)
    requires HeightsInBounds(bytes)
    ensures sizes == SizeSet(bytes)
    ensures forall i :: 0 <= i < IdCount(bytes) ==> NormaliseHeight(EntryHeight(bytes, i)) in sizes
    ensures forall s :: s in sizes ==> exists i :: 0 <= i < IdCount(bytes) && s == NormaliseHeight(EntryHeight(bytes, i))
    ensures forall s :: s in sizes ==> 1 <= s <= 256
    ensures |sizes| <= IdCount(bytes) && |sizes| <= 256
  {
    var count := IdCount(bytes);
    sizes := {};
    for i := 0 to count
      invariant sizes == SizesUpTo(bytes, i)
    {
      var size: int := bytes[HeightIndex(i)];
      if size == 0 {
        size := 256;
      }
      SizesUpToStep(bytes, i);
      sizes := sizes + {size};
    }
    SizeSetBounds(bytes);
  }

  // ---------------------------------------------------------------------
  // The directory as a value, and the bytes that encode it. Decoding what
  // the encoder wrote recovers idCount and every height, so the size set
  // of an encoded directory is exactly the normalised heights of its
  // entries.

  datatype DirEntry = DirEntry(
    width: Byte, height: Byte, colorCount: Byte, reserved: Byte,
    planes: Word, bitCount: Word, bytesInRes: DWord, id: Word)

  datatype GroupIconDir = GroupIconDir(reserved: Word, kind: Word, entries: seq<DirEntry>)

  function WordBytes(w: Word): seq<Byte>
  {
    [w % 0x100, w / 0x100]
  }

  function DWordBytes(d: DWord): seq<Byte>
  {
    [d % 0x100, (d / 0x100) % 0x100, (d / 0x1_0000) % 0x100, d / 0x100_0000]
  }

  function EncodeEntry(e: DirEntry): (b: seq<Byte>)
    ensures |b| == EntrySize
  {
    [e.width, e.height, e.colorCount, e.reserved]
      + WordBytes(e.planes) + WordBytes(e.bitCount) + DWordBytes(e.bytesInRes) + WordBytes(e.id)
  }

  function EncodeEntries(es: seq<DirEntry>): (b: seq<Byte>)
    ensures |b| == EntrySize * |es|
  {
    if es == [] then [] else EncodeEntry(es[0]) + EncodeEntries(es[1..])
  }

  /** The resource bytes of a directory (its entry count must fit a WORD). */
  function Encode(dir: GroupIconDir): seq<Byte>
    requires |dir.entries| < 0x1_0000
  {
    WordBytes(dir.reserved) + WordBytes(dir.kind) + WordBytes(|dir.entries|) + EncodeEntries(dir.entries)
  }

  /** A WORD written little-endian reads back unchanged. */
  lemma ReadWordBytes(w: Word)
    ensures ReadWord(WordBytes(w), 0) == w
  {
  }

  lemma {:induction false} EncodeEntriesAt(es: seq<DirEntry>, i: nat, k: nat)
    requires i < |es| && k < EntrySize
    ensures EntrySize * i + k < |EncodeEntries(es)|
    ensures EncodeEntries(es)[EntrySize * i + k] == EncodeEntry(es[i])[k]
  {
    if i > 0 {
      EncodeEntriesAt(es[1..], i - 1, k);
      assert EntrySize * i + k == EntrySize + (EntrySize * (i - 1) + k);
    }
  }

  /** Decoding an encoded directory recovers its count and its heights. */
  lemma DecodeEncode(dir: GroupIconDir)
    requires |dir.entries| < 0x1_0000
    ensures HeightsInBounds(Encode(dir))
    ensures IdCount(Encode(dir)) == |dir.entries|
    ensures forall i :: 0 <= i < |dir.entries| ==> EntryHeight(Encode(dir), i) == dir.entries[i].height
  {
    var b := Encode(dir);
    var n := |dir.entries|;
    assert b[4..6] == WordBytes(n);
    ReadWordBytes(n);
    assert IdCount(b) == n;
    forall i | 0 <= i < n
      ensures HeightIndex(i) < |b| && b[HeightIndex(i)] == dir.entries[i].height
    {
      EncodeEntriesAt(dir.entries, i, HeightOffset);
    }
  }

  /** The size set of an encoded directory is its entries' normalised heights. */
  lemma SizeSetOfEncoded(dir: GroupIconDir)
    requires |dir.entries| < 0x1_0000
    ensures HeightsInBounds(Encode(dir))
    ensures SizeSet(Encode(dir)) == set e | e in dir.entries :: NormaliseHeight(e.height)
  {
    DecodeEncode(dir);
    var b := Encode(dir);
    forall s | s in SizeSet(b)
      ensures s in set e | e in dir.entries :: NormaliseHeight(e.height)
    {
      var i :| 0 <= i < IdCount(b) && s == NormaliseHeight(EntryHeight(b, i));
      assert dir.entries[i] in dir.entries;
    }
    forall s | s in set e | e in dir.entries :: NormaliseHeight(e.height)
      ensures s in SizeSet(b)
    {
      var e :| e in dir.entries && s == NormaliseHeight(e.height);
      var i :| 0 <= i < |dir.entries| && dir.entries[i] == e;
      assert s == NormaliseHeight(EntryHeight(b, i));
    }
  }

  /** Widths (and every other entry field but the height) play no part. */
  lemma SizeSetIgnoresWidth(dir: GroupIconDir, dir': GroupIconDir)
    requires |dir.entries| == |dir'.entries| < 0x1_0000
    requires forall i :: 0 <= i < |dir.entries| ==> dir.entries[i].height == dir'.entries[i].height
    ensures HeightsInBounds(Encode(dir)) && HeightsInBounds(Encode(dir'))
    ensures SizeSet(Encode(dir)) == SizeSet(Encode(dir'))
  {
    DecodeEncode(dir);
    DecodeEncode(dir');
    var b, b' := Encode(dir), Encode(dir');
    forall i | 0 <= i < |dir.entries|
      ensures NormaliseHeight(EntryHeight(b, i)) == NormaliseHeight(EntryHeight(b', i))
    {
    }
    assert SizeSet(b) == SizeSet(b');
  }

  /** Heights 16, 32, 32, 0, 48 give the four sizes 16, 32, 48 and 256. */
  lemma DuplicateHeightsCollapse(widths: seq<Byte>)
    requires |widths| == 5
    ensures var dir := GroupIconDir(0, 1, [
        DirEntry(widths[0], 16, 0, 0, 1, 32, 0, 1),
        DirEntry(widths[1], 32, 0, 0, 1, 32, 0, 2),
        DirEntry(widths[2], 32, 0, 0, 1, 8, 0, 3),
        DirEntry(widths[3], 0, 0, 0, 1, 32, 0, 4),
        DirEntry(widths[4], 48, 0, 0, 1, 32, 0, 5)]);
      HeightsInBounds(Encode(dir)) && SizeSet(Encode(dir)) == {16, 32, 256, 48}
  {
    var dir := GroupIconDir(0, 1, [
        DirEntry(widths[0], 16, 0, 0, 1, 32, 0, 1),
        DirEntry(widths[1], 32, 0, 0, 1, 32, 0, 2),
        DirEntry(widths[2], 32, 0, 0, 1, 8, 0, 3),
        DirEntry(widths[3], 0, 0, 0, 1, 32, 0, 4),
        DirEntry(widths[4], 48, 0, 0, 1, 32, 0, 5)]);
    SizeSetOfEncoded(dir);
    var es := dir.entries;
    assert (set e | e in es :: NormaliseHeight(e.height)) == {16, 32, 256, 48} by {
      assert es[0] in es && es[1] in es && es[3] in es && es[4] in es;
    }
  }

  /**
   * The length check admits a resource that holds only the header yet
   * declares an entry: the size loop then reads past the resource.
   */
  lemma HeaderCheckAdmitsMissingEntries()
    ensures var bytes: seq<Byte> := [0, 0, 1, 0, 1, 0];
      HeaderFits(|bytes|) && IdCount(bytes) == 1 && !HeightsInBounds(bytes)
  {
  }
}
