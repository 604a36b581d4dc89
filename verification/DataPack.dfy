// base/data_pack.cc: resource packs. A pack is a header (format version, entry count), an
// index of (id, offset, length) words sorted by id, and the blobs. Words are little-endian.
module DataPacks {
  import opened Wrappers

  type Byte = x: int | 0 <= x < 0x100
  type UInt32 = x: int | 0 <= x < 0x1_0000_0000
  type Bytes = seq<Byte>

  const FILE_FORMAT_VERSION: UInt32 := 1

  // Where the index entry at i starts: after the 8-byte header and i entries of 12 bytes.
  function EntryPos(i: nat): nat {
    8 + 12 * i
  }

  // Conversion to uint32, and addition in it.
  function Wrap(x: int): UInt32 {
    x % 0x1_0000_0000
  }

  function Word(x: UInt32): (w: Bytes)
    ensures |w| == 4
  {
    [x % 0x100, x / 0x100 % 0x100, x / 0x1_0000 % 0x100, x / 0x100_0000]
  }

  // A file is mapped in whole pages: past its end, bytes read as zero.
  function ByteAt(file: Bytes, pos: nat): Byte {
    if pos < |file| then file[pos] else 0
  }

  function ReadWord(file: Bytes, pos: nat): UInt32 {
    ByteAt(file, pos) + 0x100 * ByteAt(file, pos + 1) + 0x1_0000 * ByteAt(file, pos + 2)
    + 0x100_0000 * ByteAt(file, pos + 3)
  }

  lemma WordReadsBack(file: Bytes, pos: nat, x: UInt32)
    requires pos + 4 <= |file| && file[pos..pos+4] == Word(x)
    ensures ReadWord(file, pos) == x
  {
    var w := file[pos..pos+4];
    assert file[pos] == w[0] && file[pos+1] == w[1] && file[pos+2] == w[2] && file[pos+3] == w[3];
    assert x / 0x1_0000 == x / 0x100 / 0x100 && x / 0x100_0000 == x / 0x1_0000 / 0x100;
  }

  // ----- Writing -----

  datatype Resource = Resource(id: UInt32, data: Bytes)

  // A std::map from ids to blobs, in the order in which it is traversed.
  type Resources = s: seq<Resource> | SortedById(s)

  ghost predicate SortedById(s: seq<Resource>) {
    forall i, j :: 0 <= i < j < |s| ==> s[i].id < s[j].id
  }

  ghost predicate NoneEmpty(r: seq<Resource>, n: nat)
    requires n <= |r|
  {
    forall i :: 0 <= i < n ==> r[i].data != []
  }

  function StartOffset(count: nat): UInt32 {
    Wrap(8 + Wrap(Wrap(count) * 12))
  }

  // Where the data of the resource at i goes.
  ghost function Offset(r: seq<Resource>, i: nat): UInt32
    requires i <= |r|
  {
    if i == 0 then StartOffset(|r|) else Wrap(Offset(r, i - 1) + Wrap(|r[i-1].data|))
  }

  ghost function Header(r: seq<Resource>): Bytes {
    Word(FILE_FORMAT_VERSION) + Word(Wrap(|r|))
  }

  ghost function Entry(r: seq<Resource>, i: nat): (e: Bytes)
    requires i < |r|
    ensures |e| == 12
  {
    Word(r[i].id) + Word(Offset(r, i)) + Word(Wrap(|r[i].data|))
  }

  // The index entries and the blobs of the first n resources.
  ghost function Index(r: seq<Resource>, n: nat): (index: Bytes)
    requires n <= |r|
    ensures |index| == 12 * n
  {
    if n == 0 then [] else Index(r, n - 1) + Entry(r, n - 1)
  }

  ghost function Blobs(r: seq<Resource>, n: nat): Bytes
    requires n <= |r|
  {
    if n == 0 then [] else Blobs(r, n - 1) + r[n-1].data
  }

  ghost function Pack(r: seq<Resource>): Bytes {
    Header(r) + Index(r, |r|) + Blobs(r, |r|)
  }

  // fwrite of one item of the given size: nothing is written, and 0 returned, for size 0.
  method WriteItem(file: Bytes, data: Bytes) returns (file': Bytes, items: nat)
    ensures file' == file + data && items == if data == [] then 0 else 1
  {
    file' := file + data;
    items := if |data| == 0 then 0 else 1;
  }

  // Appending the three words of an entry extends the index.
  lemma IndexGrows(file: Bytes, r: seq<Resource>, i: nat)
    requires i < |r| && file == Header(r) + Index(r, i)
    ensures file + Word(r[i].id) + Word(Offset(r, i)) + Word(Wrap(|r[i].data|)) == Header(r) + Index(r, i + 1)
  {
    assert Header(r) + (Index(r, i) + Entry(r, i)) == (Header(r) + Index(r, i)) + Entry(r, i);
  }

  lemma BlobsGrow(file: Bytes, index: Bytes, r: seq<Resource>, i: nat)
    requires i < |r| && file == index + Blobs(r, i)
    ensures file + r[i].data == index + Blobs(r, i + 1)
  {
    assert index + (Blobs(r, i) + r[i].data) == (index + Blobs(r, i)) + r[i].data;
  }

  /** Writes a pack; succeeds unless some resource is empty. */
  method WritePack(resources: Resources) returns (ok: bool, file: Bytes)
    ensures ok <==> NoneEmpty(resources, |resources|)
    ensures ok ==> file == Pack(resources)
  {
    file := Word(FILE_FORMAT_VERSION);
    var entryCount := Wrap(|resources|);
    file := file + Word(entryCount);
    var indexLength := Wrap(entryCount as int * 12);
    var dataOffset := Wrap(8 + indexLength as int);
    assert Header(resources) + [] == Header(resources);
    for i := 0 to |resources|
      invariant dataOffset == Offset(resources, i)
      invariant file == Header(resources) + Index(resources, i)
    {
      var len := Wrap(|resources[i].data|);
      IndexGrows(file, resources, i);
      file := file + Word(resources[i].id);
      file := file + Word(dataOffset);
      file := file + Word(len);
      dataOffset := Wrap(dataOffset as int + len as int);
    }
    ghost var index := file;
    assert index + [] == index;
    for i := 0 to |resources|
      invariant file == index + Blobs(resources, i)
      invariant NoneEmpty(resources, i)
    {
      BlobsGrow(file, index, resources, i);
      var items;
      file, items := WriteItem(file, resources[i].data);
      if items != 1 {
        return false, file;
      }
    }
    ok := true;
  }

  // ----- Reading -----

  ghost function EntryId(file: Bytes, i: nat): UInt32 {
    ReadWord(file, EntryPos(i))
  }

  ghost function EntryOffset(file: Bytes, i: nat): UInt32 {
    ReadWord(file, EntryPos(i) + 4)
  }

  ghost function EntryLength(file: Bytes, i: nat): UInt32 {
    ReadWord(file, EntryPos(i) + 8)
  }

  // What Load checks: the index fits, and every entry seems to end within the file.
  ghost predicate Loadable(file: Bytes) {
    && file != []
    && ReadWord(file, 0) == FILE_FORMAT_VERSION
    && EntryPos(ReadWord(file, 4)) <= |file|
    && forall i :: 0 <= i < ReadWord(file, 4) ==> Wrap(EntryOffset(file, i) + EntryLength(file, i)) <= |file|
  }

  ghost predicate IndexSorted(file: Bytes, count: nat) {
    forall i, j :: 0 <= i < j < count ==> EntryId(file, i) < EntryId(file, j)
  }

  // A run of bytes within the file.
  datatype StringPiece = StringPiece(offset: UInt32, length: UInt32)

  class DataPack {
    var mmap: Option<Bytes>
    var resourceCount: UInt32

    constructor ()
      ensures mmap == None && resourceCount == 0
    {
      mmap := None;
      resourceCount := 0;
    }

    // file is None when it cannot be opened; an empty file cannot be mapped either.
    method Load(file: Option<Bytes>) returns (ok: bool)
      modifies this
      ensures ok <==> file.Some? && Loadable(file.value)
      ensures mmap == if ok then file else None
      ensures ok ==> resourceCount == ReadWord(file.value, 4)
    {
      mmap := None;
      if file.None? || file.value == [] {
        return false;
      }
      mmap := file;
      var version := ReadWord(mmap.value, 0);
      if version != FILE_FORMAT_VERSION {
        mmap := None;
        return false;
      }
      resourceCount := ReadWord(mmap.value, 4);
      if EntryPos(resourceCount) > |mmap.value| {
        mmap := None;
        return false;
      }
      for i := 0 to resourceCount
        invariant mmap == file && resourceCount == ReadWord(file.value, 4)
        invariant forall j :: 0 <= j < i ==>
                    Wrap(EntryOffset(file.value, j) + EntryLength(file.value, j)) <= |file.value|
      {
        var entry := EntryPos(i);
        assert ReadWord(mmap.value, entry + 4) == EntryOffset(file.value, i);
        if Wrap(ReadWord(mmap.value, entry + 4) + ReadWord(mmap.value, entry + 8)) > |mmap.value| {
          mmap := None;
          return false;
        }
      }
      ok := true;
    }

    static function CompareById(key: UInt32, entryId: UInt32): int {
      if key < entryId then -1 else if key > entryId then 1 else 0
    }

    // bsearch over the index, then the entry's piece of the file.
    method GetStringPiece(id: UInt32) returns (piece: Option<StringPiece>)
      requires mmap.Some?
      ensures piece.Some? ==>
                exists i :: 0 <= i < resourceCount && EntryId(mmap.value, i) == id
                            && piece.value == StringPiece(EntryOffset(mmap.value, i), EntryLength(mmap.value, i))
      ensures IndexSorted(mmap.value, resourceCount) && piece.None? ==>
                forall i :: 0 <= i < resourceCount ==> EntryId(mmap.value, i) != id
    {
      ghost var file := mmap.value;
      var lo, hi := 0, resourceCount;
      while lo < hi
        invariant 0 <= lo <= hi <= resourceCount
        invariant IndexSorted(file, resourceCount) ==>
                    (forall i :: 0 <= i < lo ==> EntryId(file, i) < id)
                    && (forall i :: hi <= i < resourceCount ==> EntryId(file, i) > id)
      {
        var mid := (lo + hi) / 2;
        var entry := EntryPos(mid);
        var order := CompareById(id, ReadWord(mmap.value, entry));
        assert ReadWord(mmap.value, entry) == EntryId(file, mid);
        if order < 0 {
          hi := mid;
        } else if order > 0 {
          lo := mid + 1;
        } else {
          return Some(StringPiece(ReadWord(mmap.value, entry + 4), ReadWord(mmap.value, entry + 8)));
        }
      }
      piece := None;
    }
  }

  // ----- Reading back what was written -----

  lemma {:induction false} BlobsMonotone(r: seq<Resource>, i: nat, n: nat)
    requires i <= n <= |r|
    ensures |Blobs(r, i)| <= |Blobs(r, n)| && Blobs(r, n)[..|Blobs(r, i)|] == Blobs(r, i)
    decreases n - i
  {
    if i < n {
      BlobsMonotone(r, i, n - 1);
    }
  }

  lemma {:induction false} IndexAt(r: seq<Resource>, i: nat, n: nat)
    requires i < n <= |r|
    ensures Index(r, n)[12 * i..12 * i + 12] == Entry(r, i)
    decreases n - i
  {
    if i < n - 1 {
      IndexAt(r, i, n - 1);
    }
  }

  ghost function DataSize(r: seq<Resource>, n: nat): nat
    requires n <= |r|
  {
    if n == 0 then 0 else DataSize(r, n - 1) + |r[n-1].data|
  }

  lemma {:induction false} BlobsLength(r: seq<Resource>, n: nat)
    requires n <= |r|
    ensures |Blobs(r, n)| == DataSize(r, n)
  {
    if n > 0 {
      BlobsLength(r, n - 1);
    }
  }

  lemma {:induction false} DataSizeMonotone(r: seq<Resource>, i: nat, n: nat)
    requires i <= n <= |r|
    ensures DataSize(r, i) <= DataSize(r, n)
    decreases n - i
  {
    if i < n {
      DataSizeMonotone(r, i, n - 1);
    }
  }

  // How long a pack is, and where its three parts are.
  ghost function PackLength(r: seq<Resource>): nat {
    EntryPos(|r|) + DataSize(r, |r|)
  }

  ghost predicate PartsOf(r: seq<Resource>, file: Bytes) {
    && |file| == PackLength(r)
    && file[..8] == Header(r)
    && file[8..EntryPos(|r|)] == Index(r, |r|)
    && file[EntryPos(|r|)..] == Blobs(r, |r|)
  }

  lemma PackHasParts(r: seq<Resource>)
    ensures PartsOf(r, Pack(r))
  {
    var header, index, blobs := Header(r), Index(r, |r|), Blobs(r, |r|);
    BlobsLength(r, |r|);
    assert Pack(r) == header + index + blobs;
    assert (header + index + blobs)[|header|..|header| + |index|] == index;
    assert (header + index + blobs)[|header| + |index|..] == blobs;
  }

  lemma SubSlice(s: Bytes, a: nat, b: nat, c: nat, d: nat)
    requires a <= b <= |s| && c <= d <= b - a
    ensures s[a..b][c..d] == s[a+c..a+d]
  {
    var inner, outer := s[a..b][c..d], s[a+c..a+d];
    assert |inner| == |outer| && forall i :: 0 <= i < |inner| ==> inner[i] == outer[i];
  }

  // Three words in a row.
  lemma SplitEntry(file: Bytes, at: nat, w0: Bytes, w1: Bytes, w2: Bytes)
    requires |w0| == |w1| == |w2| == 4 && at + 12 <= |file| && file[at..at+12] == w0 + w1 + w2
    ensures file[at..at+4] == w0 && file[at+4..at+8] == w1 && file[at+8..at+12] == w2
  {
    var e := w0 + w1 + w2;
    SubSlice(file, at, at + 12, 0, 4);
    SubSlice(file, at, at + 12, 4, 8);
    SubSlice(file, at, at + 12, 8, 12);
    assert e[0..4] == w0 && e[4..8] == w1 && e[8..12] == w2;
  }

  lemma ThreeWords(file: Bytes, at: nat, x0: UInt32, x1: UInt32, x2: UInt32)
    requires at + 12 <= |file| && file[at..at+12] == Word(x0) + Word(x1) + Word(x2)
    ensures ReadWord(file, at) == x0 && ReadWord(file, at + 4) == x1 && ReadWord(file, at + 8) == x2
  {
    SplitEntry(file, at, Word(x0), Word(x1), Word(x2));
    WordReadsBack(file, at, x0);
    WordReadsBack(file, at + 4, x1);
    WordReadsBack(file, at + 8, x2);
  }

  lemma WrapSmall(x: int)
    requires 0 <= x < 0x1_0000_0000
    ensures Wrap(x) == x
  {
  }

  lemma StartExact(count: nat)
    requires EntryPos(count) < 0x1_0000_0000
    ensures StartOffset(count) == EntryPos(count)
  {
    WrapSmall(count);
    WrapSmall(count * 12);
    WrapSmall(8 + count * 12);
  }

  // The running offset is exact as long as it all fits in 32 bits.
  lemma {:induction false} OffsetExact(r: seq<Resource>, i: nat)
    requires i <= |r| && PackLength(r) < 0x1_0000_0000
    ensures Offset(r, i) == EntryPos(|r|) + DataSize(r, i)
  {
    if i == 0 {
      StartExact(|r|);
    } else {
      OffsetExact(r, i - 1);
      LengthExact(r, i - 1);
      WrapSmall(Offset(r, i - 1) as int + |r[i-1].data|);
    }
  }

  lemma LengthExact(r: seq<Resource>, i: nat)
    requires i < |r| && PackLength(r) < 0x1_0000_0000
    ensures Wrap(|r[i].data|) == |r[i].data|
    ensures EntryPos(|r|) + DataSize(r, i) + |r[i].data| <= PackLength(r)
  {
    DataSizeMonotone(r, i + 1, |r|);
  }

  lemma EntryBytes(file: Bytes, r: seq<Resource>, i: nat)
    requires PartsOf(r, file) && i < |r|
    ensures EntryPos(i) + 12 <= |file| && file[EntryPos(i)..EntryPos(i) + 12] == Entry(r, i)
  {
    IndexAt(r, i, |r|);
    SubSlice(file, 8, EntryPos(|r|), 12 * i, 12 * i + 12);
  }

  lemma EntryReadsBack(file: Bytes, r: seq<Resource>, i: nat)
    requires PartsOf(r, file) && i < |r|
    ensures EntryId(file, i) == r[i].id
    ensures EntryOffset(file, i) == Offset(r, i)
    ensures EntryLength(file, i) == Wrap(|r[i].data|)
  {
    EntryBytes(file, r, i);
    ThreeWords(file, EntryPos(i), r[i].id, Offset(r, i), Wrap(|r[i].data|));
  }

  lemma BlobReadsBack(file: Bytes, r: seq<Resource>, i: nat)
    requires PartsOf(r, file) && i < |r| && PackLength(r) < 0x1_0000_0000
    ensures Wrap(|r[i].data|) == |r[i].data|
    ensures Offset(r, i) + |r[i].data| <= |file|
    ensures file[Offset(r, i)..Offset(r, i) + |r[i].data|] == r[i].data
  {
    OffsetExact(r, i);
    LengthExact(r, i);
    BlobSlice(file, r, i);
  }

  lemma BlobSlice(file: Bytes, r: seq<Resource>, i: nat)
    requires PartsOf(r, file) && i < |r|
    ensures var at := EntryPos(|r|) + DataSize(r, i);
            at + |r[i].data| <= |file| && file[at..at + |r[i].data|] == r[i].data
  {
    BlobsLength(r, i);
    BlobAt(r, i);
    PieceOfTail(file, EntryPos(|r|), Blobs(r, |r|), DataSize(r, i), |r[i].data|);
  }

  lemma PieceOfTail(file: Bytes, n: nat, tail: Bytes, at: nat, len: nat)
    requires n <= |file| && file[n..] == tail && at + len <= |tail|
    ensures file[n+at..n+at+len] == tail[at..at+len]
  {
    SubSlice(file, n, |file|, at, at + len);
    assert file[n..|file|] == file[n..];
  }

  lemma BlobAt(r: seq<Resource>, i: nat)
    requires i < |r|
    ensures var at := |Blobs(r, i)|;
            at + |r[i].data| <= |Blobs(r, |r|)| && Blobs(r, |r|)[at..at + |r[i].data|] == r[i].data
  {
    BlobsMonotone(r, i + 1, |r|);
    SliceAfter(Blobs(r, |r|), Blobs(r, i), r[i].data);
  }

  lemma SliceAfter(all: Bytes, before: Bytes, data: Bytes)
    requires |before + data| <= |all| && all[..|before + data|] == before + data
    ensures all[|before|..|before| + |data|] == data
  {
    var prefix := before + data;
    SubSlice(all, 0, |prefix|, |before|, |prefix|);
    assert all[0..|prefix|] == all[..|prefix|];
    assert prefix[|before|..|prefix|] == data;
  }

  // An entry read back, and the piece of the file it describes.
  ghost predicate EntryGood(file: Bytes, r: seq<Resource>, i: nat)
    requires i < |r|
  {
    && EntryId(file, i) == r[i].id
    && EntryOffset(file, i) + EntryLength(file, i) <= |file|
    && file[EntryOffset(file, i)..EntryOffset(file, i) + EntryLength(file, i)] == r[i].data
  }

  lemma HeaderReadsBack(file: Bytes, r: seq<Resource>)
    requires PartsOf(r, file) && PackLength(r) < 0x1_0000_0000
    ensures ReadWord(file, 0) == FILE_FORMAT_VERSION && ReadWord(file, 4) == |r|
  {
    WrapSmall(|r|);
    TwoWords(file, FILE_FORMAT_VERSION, |r|);
  }

  lemma TwoWords(file: Bytes, x0: UInt32, x1: UInt32)
    requires 8 <= |file| && file[..8] == Word(x0) + Word(x1)
    ensures file[0..4] == Word(x0) && file[4..8] == Word(x1)
    ensures ReadWord(file, 0) == x0 && ReadWord(file, 4) == x1
  {
    var w := Word(x0) + Word(x1);
    assert file[0..4] == w[..4] == Word(x0);
    assert file[4..8] == w[4..] == Word(x1);
    WordReadsBack(file, 0, x0);
    WordReadsBack(file, 4, x1);
  }

  lemma EntryIsGood(file: Bytes, r: seq<Resource>, i: nat)
    requires PartsOf(r, file) && i < |r| && PackLength(r) < 0x1_0000_0000
    ensures EntryGood(file, r, i)
  {
    EntryReadsBack(file, r, i);
    BlobReadsBack(file, r, i);
  }

  lemma PartsReadBack(file: Bytes, r: Resources)
    requires PartsOf(r, file) && PackLength(r) < 0x1_0000_0000
    ensures Loadable(file) && ReadWord(file, 4) == |r| && IndexSorted(file, |r|)
    ensures forall i :: 0 <= i < |r| ==> EntryGood(file, r, i)
  {
    HeaderReadsBack(file, r);
    forall i | 0 <= i < |r|
      ensures EntryGood(file, r, i)
    {
      EntryIsGood(file, r, i);
    }
    GoodEntriesLoad(file, r);
  }

  /** Every pack below 4 GiB loads, its index is sorted and lists exactly the resources
      written, and each entry's piece of the file is the blob stored under that id. */
  lemma PackReadsBack(r: Resources)
    requires PackLength(r) < 0x1_0000_0000
    ensures Loadable(Pack(r)) && ReadWord(Pack(r), 4) == |r| && IndexSorted(Pack(r), |r|)
    ensures forall i :: 0 <= i < |r| ==> EntryGood(Pack(r), r, i)
  {
    PackHasParts(r);
    PartsReadBack(Pack(r), r);
  }

  // The four bytes at pos are those of x, the least one first.
  ghost predicate WordAt(file: Bytes, pos: nat, x: nat) {
    && pos + 4 <= |file|
    && x == file[pos] as int + 256 * file[pos+1] as int + 65536 * file[pos+2] as int + 16777216 * file[pos+3] as int
  }

  ghost predicate BlobIs(file: Bytes, at: nat, data: Bytes) {
    at + |data| <= |file| && file[at..at + |data|] == data
  }

  /** The format, byte by byte: the version 1 and the count of resources, then the id, the
      position and the length of each in turn, all as four bytes with the least one first, and
      each resource's bytes at its position. */
  lemma PackLayout(r: Resources)
    requires PackLength(r) < 0x1_0000_0000
    ensures var file := Pack(r);
            && file[..4] == [1, 0, 0, 0] && WordAt(file, 4, |r|)
            && forall i :: 0 <= i < |r| ==> EntryAt(file, r, i)
  {
    PackHasParts(r);
    WrapSmall(|r|);
    TwoWords(Pack(r), FILE_FORMAT_VERSION, |r|);
    WordBytes(Pack(r), 4, |r|);
    assert Pack(r)[..4] == Pack(r)[0..4];
    forall i | 0 <= i < |r|
      ensures EntryAt(Pack(r), r, i)
    {
      EntryLayout(Pack(r), r, i);
    }
  }

  ghost predicate EntryAt(file: Bytes, r: seq<Resource>, i: nat)
    requires i < |r|
  {
    var pos := 8 + 12 * i;
    && WordAt(file, pos, r[i].id) && WordAt(file, pos + 8, |r[i].data|)
    && exists at: nat :: BlobIs(file, at, r[i].data) && WordAt(file, pos + 4, at)
  }

  lemma WordBytes(file: Bytes, pos: nat, x: UInt32)
    requires pos + 4 <= |file| && file[pos..pos+4] == Word(x)
    ensures WordAt(file, pos, x)
  {
    WordReadsBack(file, pos, x);
  }

  lemma EntryLayout(file: Bytes, r: seq<Resource>, i: nat)
    requires PartsOf(r, file) && i < |r| && PackLength(r) < 0x1_0000_0000
    ensures EntryAt(file, r, i)
  {
    BlobReadsBack(file, r, i);
    EntryBytes(file, r, i);
    EntryWords(file, EntryPos(i), Entry(r, i), r[i].id, Offset(r, i), Wrap(|r[i].data|));
    assert BlobIs(file, Offset(r, i), r[i].data);
  }

  lemma EntryWords(file: Bytes, at: nat, entry: Bytes, x0: UInt32, x1: UInt32, x2: UInt32)
    requires at + 12 <= |file| && file[at..at+12] == entry == Word(x0) + Word(x1) + Word(x2)
    ensures WordAt(file, at, x0) && WordAt(file, at + 4, x1) && WordAt(file, at + 8, x2)
  {
    SplitEntry(file, at, Word(x0), Word(x1), Word(x2));
    WordBytes(file, at, x0);
    WordBytes(file, at + 4, x1);
    WordBytes(file, at + 8, x2);
  }

  // What Load accepts, in terms of the bytes: the version, room for the index, and every
  // entry's end, in 32 bits, within the file.
  ghost predicate Acceptable(file: Bytes) {
    WordAt(file, 0, 1) && exists count: nat :: IndexFits(file, count)
  }

  ghost predicate IndexFits(file: Bytes, count: nat) {
    WordAt(file, 4, count) && 8 + 12 * count <= |file| && forall i: nat :: i < count ==> EntryFits(file, i)
  }

  ghost predicate EntryFits(file: Bytes, i: nat) {
    exists offset: nat, length: nat :: EntryEnds(file, i, offset, length)
  }

  ghost predicate EntryEnds(file: Bytes, i: nat, offset: nat, length: nat) {
    WordAt(file, 12 + 12 * i, offset) && WordAt(file, 16 + 12 * i, length) &&
    (offset + length) % 0x1_0000_0000 <= |file|
  }

  lemma WordIs(file: Bytes, pos: nat)
    requires pos + 4 <= |file|
    ensures WordAt(file, pos, ReadWord(file, pos))
  {
  }

  lemma WordRead(file: Bytes, pos: nat, x: nat)
    requires WordAt(file, pos, x)
    ensures x == ReadWord(file, pos)
  {
  }

  lemma EntryFitsIff(file: Bytes, i: nat)
    requires 20 + 12 * i <= |file|
    ensures EntryFits(file, i) <==> Wrap(EntryOffset(file, i) + EntryLength(file, i)) <= |file|
  {
    var offset, length := EntryOffset(file, i), EntryLength(file, i);
    WordIs(file, 12 + 12 * i);
    WordIs(file, 16 + 12 * i);
    if EntryFits(file, i) {
      var x, y :| EntryEnds(file, i, x, y);
      WordRead(file, 12 + 12 * i, x);
      WordRead(file, 16 + 12 * i, y);
    } else {
      assert !EntryEnds(file, i, offset, length);
    }
  }

  lemma EntriesFitIff(file: Bytes, count: nat)
    requires 8 + 12 * count <= |file|
    ensures (forall i: nat :: i < count ==> EntryFits(file, i)) <==>
            forall i :: 0 <= i < count ==> Wrap(EntryOffset(file, i) + EntryLength(file, i)) <= |file|
  {
    forall i: nat | i < count
      ensures EntryFits(file, i) <==> Wrap(EntryOffset(file, i) + EntryLength(file, i)) <= |file|
    {
      EntryFitsIff(file, i);
    }
  }

  /** Load accepts exactly those files. */
  lemma LoadableIff(file: Bytes)
    ensures Loadable(file) <==> Acceptable(file)
  {
    if 8 <= |file| {
      WordIs(file, 0);
      WordIs(file, 4);
      var count := ReadWord(file, 4);
      if 8 + 12 * count <= |file| {
        EntriesFitIff(file, count);
      }
      if WordAt(file, 0, 1) {
        WordRead(file, 0, 1);
      }
      if Acceptable(file) {
        var n: nat :| IndexFits(file, n);
        WordRead(file, 4, n);
      } else if Loadable(file) {
        assert IndexFits(file, count);
      }
    }
  }

  lemma GoodEntriesLoad(file: Bytes, r: Resources)
    requires forall i :: 0 <= i < |r| ==> EntryGood(file, r, i)
    requires |file| < 0x1_0000_0000
    ensures IndexSorted(file, |r|)
    ensures forall i :: 0 <= i < |r| ==> Wrap(EntryOffset(file, i) + EntryLength(file, i)) <= |file|
  {
    forall i | 0 <= i < |r|
      ensures Wrap(EntryOffset(file, i) + EntryLength(file, i)) <= |file|
    {
      assert EntryGood(file, r, i);
    }
    forall i, j | 0 <= i < j < |r|
      ensures EntryId(file, i) < EntryId(file, j)
    {
      assert EntryGood(file, r, i) && EntryGood(file, r, j);
    }
  }

  /** Writing, loading and looking up: the stored blob for every id that was written, and
      nothing for any other id. */
  method WriteLoadLookUp(resources: Resources, id: UInt32) returns (written: bool, blob: Option<Bytes>)
    requires PackLength(resources) < 0x1_0000_0000
    ensures written <==> NoneEmpty(resources, |resources|)
    ensures written ==> forall r :: r in resources && r.id == id ==> blob == Some(r.data)
    ensures written ==> blob.Some? ==> Resource(id, blob.value) in resources
  {
    var file;
    blob := None;
    written, file := WritePack(resources);
    if written {
      PackReadsBack(resources);
      var pack := new DataPack();
      var loaded := pack.Load(Some(file));
      var piece := pack.GetStringPiece(id);
      if piece.Some? {
        ghost var i :| 0 <= i < |resources| && EntryId(file, i) == id
                       && piece.value == StringPiece(EntryOffset(file, i), EntryLength(file, i));
        assert EntryGood(file, resources, i);
        blob := Some(file[piece.value.offset..piece.value.offset + piece.value.length]);
        assert resources[i] == Resource(id, blob.value);
        assert forall j :: 0 <= j < |resources| && resources[j].id == id ==> j == i;
      } else {
        forall j | 0 <= j < |resources|
          ensures resources[j].id != id
        {
          assert EntryGood(file, resources, j);
        }
      }
    }
  }
}
