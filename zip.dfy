/**
  The stored (uncompressed) ZIP writer of the batch download
  (background.js createZipFromFiles): a local file header and the data for
  each file, then one central directory header per file, then the end of
  central directory record, laid out as sections 4.3.7, 4.3.12 and 4.3.16
  of PKWARE's APPNOTE.TXT describe. Each DataView `setUint16` and
  `setUint32` call with the little-endian flag becomes a two- or four-byte
  little-endian encoding of the value taken modulo 2^16 or 2^32, and a
  header is the concatenation of its fields in offset order.

  The partner of the writer is a reader that finds the end record, walks
  the central directory and reads each file back through its local header,
  checking the CRC-32; an archive written from files whose sizes fit the
  fields reads back as those files.
*/
module Zip {
  import opened Wrappers
  import Crc32

  /** An element of a `Uint8Array`. */
  newtype byte = x: int | 0 <= x < 256

  /** A file to archive: its name, already UTF-8 encoded, and its bytes. */
  datatype ZipFile = ZipFile(name: seq<byte>, data: seq<byte>)

  /** What the writer remembers of a file for its central directory header. */
  datatype CentralEntry = CentralEntry(name: seq<byte>, crc: nat, size: nat, offset: nat)

  // ---------------------------------------------------------------------
  // Little-endian fields

  const Two16: nat := 0x1_0000
  const Two32: nat := 0x1_0000_0000

  /** The `k` low bytes of `v`, least significant first. */
  function LittleEndian(v: nat, k: nat): (r: seq<byte>)
    ensures |r| == k
  {
    if k == 0 then [] else [(v % 256) as byte] + LittleEndian(v / 256, k - 1)
  }

  /** `setUint16(_, n, true)`: `n` modulo 2^16, low byte first. */
  function LE16(n: int): (r: seq<byte>)
    ensures |r| == 2
  {
    LittleEndian(n % Two16, 2)
  }

  /** `setUint32(_, n, true)`: `n` modulo 2^32, low byte first. */
  function LE32(n: int): (r: seq<byte>)
    ensures |r| == 4
  {
    LittleEndian(n % Two32, 4)
  }

  /** A little-endian 16-bit field, as `getUint16(_, true)` reads it. */
  function U16(b: seq<byte>): nat
    requires |b| == 2
  {
    b[0] as nat + 256 * b[1] as nat
  }

  /** A little-endian 32-bit field. */
  function U32(b: seq<byte>): nat
    requires |b| == 4
  {
    b[0] as nat + 256 * (b[1] as nat + 256 * (b[2] as nat + 256 * b[3] as nat))
  }

  /** A two-byte field reads back as the value it stores: the written value
      modulo 2^16, which is the value itself when it fits. */
  lemma Field16(n: int)
    ensures U16(LE16(n)) == n % Two16
    ensures 0 <= n < Two16 ==> U16(LE16(n)) == n
  {
    var v := n % Two16;
    assert LittleEndian(v / 256, 1) == [(v / 256 % 256) as byte] + LittleEndian(v / 256 / 256, 0);
    assert LE16(n) == [(v % 256) as byte] + LittleEndian(v / 256, 1);
  }

  /** A four-byte field reads back as the written value modulo 2^32. */
  lemma Field32(n: int)
    ensures U32(LE32(n)) == n % Two32
    ensures 0 <= n < Two32 ==> U32(LE32(n)) == n
  {
    var v := n % Two32;
    var q1 := v / 256;
    var q2 := q1 / 256;
    var q3 := q2 / 256;
    assert LittleEndian(q3, 1) == [(q3 % 256) as byte] + LittleEndian(q3 / 256, 0);
    assert LittleEndian(q2, 2) == [(q2 % 256) as byte] + LittleEndian(q3, 1);
    assert LittleEndian(q1, 3) == [(q1 % 256) as byte] + LittleEndian(q2, 2);
    assert LE32(n) == [(v % 256) as byte] + LittleEndian(q1, 3);
  }

  // ---------------------------------------------------------------------
  // Records

  const LocalSignature: nat := 0x04034b50
  const CentralSignature: nat := 0x02014b50
  const EndSignature: nat := 0x06054b50
  /** "Version needed" and "version made by": 2.0. */
  const Version: nat := 20

  /** The bytes handed to `crc32`. */
  function Octets(s: seq<byte>): (r: seq<bv8>)
    ensures |r| == |s|
  {
    seq(|s|, i requires 0 <= i < |s| => s[i] as bv8)
  }

  /** The CRC-32 of a file's data, as the number `crc32` returns. */
  function Crc(data: seq<byte>): (r: nat)
    ensures r < Two32
  {
    Crc32.Checksum(Octets(data)) as nat
  }

  /** The 30-byte local file header followed by the name: signature,
      version 2.0, no flags, method 0 (stored), zero time and date, CRC,
      compressed and uncompressed size, name length, no extra field. */
  function LocalHeader(name: seq<byte>, crc: nat, size: nat): (r: seq<byte>)
    ensures |r| == 30 + |name|
  {
    LE32(LocalSignature) + LE16(Version) + LE16(0) + LE16(0) + LE16(0) + LE16(0)
    + LE32(crc) + LE32(size) + LE32(size) + LE16(|name|) + LE16(0) + name
  }

  /** The 46-byte central directory header followed by the name: as the
      local header, plus zero comment length, disk number and attributes,
      and the offset of the local header. */
  function CentralHeader(e: CentralEntry): (r: seq<byte>)
    ensures |r| == 46 + |e.name|
  {
    CentralFront() + CentralSizes(e) + CentralBack(e.offset) + e.name
  }

  /** Bytes 0 to 16 of a central directory header: signature, versions,
      no flags, method 0, zero time and date. */
  function CentralFront(): (r: seq<byte>)
    ensures |r| == 16
  {
    LE32(CentralSignature) + LE16(Version) + LE16(Version) + LE16(0) + LE16(0) + LE16(0) + LE16(0)
  }

  /** Bytes 16 to 30: CRC, both sizes and the name length. */
  function CentralSizes(e: CentralEntry): (r: seq<byte>)
    ensures |r| == 14
  {
    LE32(e.crc) + LE32(e.size) + LE32(e.size) + LE16(|e.name|)
  }

  /** Bytes 30 to 46: no extra field, comment, disk number or attributes,
      then the offset of the local header. */
  function CentralBack(offset: nat): (r: seq<byte>)
    ensures |r| == 16
  {
    LE16(0) + LE16(0) + LE16(0) + LE16(0) + LE32(0) + LE32(offset)
  }

  /** The 22-byte end of central directory record. */
  function EndRecord(count: nat, size: nat, start: nat): (r: seq<byte>)
    ensures |r| == 22
  {
    LE32(EndSignature) + LE16(0) + LE16(0) + LE16(count) + LE16(count)
    + LE32(size) + LE32(start) + LE16(0)
  }

  /** Where each field of a local header sits. */
  lemma LocalHeaderFields(name: seq<byte>, crc: nat, size: nat)
    ensures var h := LocalHeader(name, crc, size);
      && h[0..4] == LE32(LocalSignature) && h[8..10] == LE16(0) && h[14..18] == LE32(crc)
      && h[18..22] == LE32(size) && h[22..26] == LE32(size) && h[26..28] == LE16(|name|)
      && h[30..] == name
  {
  }

  /** Where each field of a central directory header that the reader
      uses sits. */
  lemma CentralHeaderFields(e: CentralEntry)
    ensures var h := CentralHeader(e);
      && h[0..4] == LE32(CentralSignature) && h[24..28] == LE32(e.size) && h[28..30] == LE16(|e.name|)
      && h[42..46] == LE32(e.offset) && h[46..] == e.name
  {
    var h := CentralHeader(e);
    var a, b, c := CentralFront(), CentralSizes(e), CentralBack(e.offset);
    InFour(a, b, c, e.name);
    assert a[0..4] == LE32(CentralSignature);
    SubSlice(h, a, 0, 0, 4);
    assert b[8..12] == LE32(e.size) && b[12..14] == LE16(|e.name|);
    SubSlice(h, b, 16, 8, 12);
    SubSlice(h, b, 16, 12, 14);
    assert c[12..16] == LE32(e.offset);
    SubSlice(h, c, 30, 12, 16);
  }

  /** The four parts of `a + b + c + d` sit one after another. */
  lemma InFour(a: seq<byte>, b: seq<byte>, c: seq<byte>, d: seq<byte>)
    ensures var h := a + b + c + d;
      && h[..|a|] == a && h[|a|..|a| + |b|] == b && h[|a| + |b|..|a| + |b| + |c|] == c
      && h[|a| + |b| + |c|..] == d
  {
  }

  /** A part of a part. */
  lemma SubSlice(h: seq<byte>, x: seq<byte>, lo: nat, i: nat, j: nat)
    requires lo + |x| <= |h| && h[lo..lo + |x|] == x && i <= j <= |x|
    ensures h[lo + i..lo + j] == x[i..j]
  {
    forall t | 0 <= t < j - i
      ensures h[lo + i..lo + j][t] == x[i..j][t]
    {
      assert h[lo..lo + |x|][i + t] == x[i + t];
    }
  }

  /** Where each field of the end record sits. */
  lemma EndRecordFields(count: nat, size: nat, start: nat)
    ensures var h := EndRecord(count, size, start);
      && h[0..4] == LE32(EndSignature) && h[8..10] == LE16(count) && h[10..12] == LE16(count)
      && h[12..16] == LE32(size) && h[16..20] == LE32(start)
  {
  }

  // ---------------------------------------------------------------------
  // The archive

  /** The chunks joined end to end, as the final copy into `zipData` lays
      them out. */
  function Flatten(cs: seq<seq<byte>>): seq<byte>
  {
    if cs == [] then [] else Flatten(cs[..|cs| - 1]) + cs[|cs| - 1]
  }

  lemma {:induction false} FlattenAppend(a: seq<seq<byte>>, b: seq<seq<byte>>)
    ensures Flatten(a + b) == Flatten(a) + Flatten(b)
  {
    if b != [] {
      assert (a + b)[..|a + b| - 1] == a + b[..|b| - 1];
      FlattenAppend(a, b[..|b| - 1]);
    } else {
      assert a + b == a;
    }
  }

  lemma FlattenPair(a: seq<byte>, b: seq<byte>)
    ensures Flatten([a, b]) == a + b
  {
    assert [a, b][..1] == [a];
    assert [a][..0] == [];
    assert Flatten([a]) == Flatten([]) + a;
    assert Flatten([a, b]) == Flatten([a]) + b;
  }

  /** A file's two chunks: its local header and its data. The layout is
      stated for any checksum function; the writer uses `Crc`. */
  function LocalChunk(f: ZipFile, checksum: seq<byte> -> nat): seq<seq<byte>>
  {
    [LocalHeader(f.name, checksum(f.data), |f.data|), f.data]
  }

  /** The chunks of the first loop, two per file. */
  function LocalChunks(files: seq<ZipFile>, checksum: seq<byte> -> nat): (r: seq<seq<byte>>)
    ensures |r| == 2 * |files|
  {
    if files == [] then []
    else LocalChunks(files[..|files| - 1], checksum) + LocalChunk(files[|files| - 1], checksum)
  }

  lemma {:induction false} LocalChunksAppend(a: seq<ZipFile>, b: seq<ZipFile>, checksum: seq<byte> -> nat)
    ensures LocalChunks(a + b, checksum) == LocalChunks(a, checksum) + LocalChunks(b, checksum)
  {
    if b != [] {
      assert (a + b)[..|a + b| - 1] == a + b[..|b| - 1];
      LocalChunksAppend(a, b[..|b| - 1], checksum);
    } else {
      assert a + b == a;
    }
  }

  /** The bytes before the central directory. */
  function LocalSection(files: seq<ZipFile>, checksum: seq<byte> -> nat): seq<byte>
  {
    Flatten(LocalChunks(files, checksum))
  }

  /** The length of the local section: a header, a name and the data per
      file. */
  function LocalLength(files: seq<ZipFile>): nat
  {
    if files == [] then 0
    else LocalLength(files[..|files| - 1]) + 30 + |files[|files| - 1].name| + |files[|files| - 1].data|
  }

  lemma {:induction false} LocalSectionLength(files: seq<ZipFile>, checksum: seq<byte> -> nat)
    ensures |LocalSection(files, checksum)| == LocalLength(files)
  {
    if files != [] {
      var init := files[..|files| - 1];
      LocalSectionLength(init, checksum);
      var f := files[|files| - 1];
      FlattenAppend(LocalChunks(init, checksum), LocalChunk(f, checksum));
      FlattenPair(LocalHeader(f.name, checksum(f.data), |f.data|), f.data);
    }
  }

  /** The central directory entries the first loop records: each file's
      local header starts where the files before it end. */
  function Entries(files: seq<ZipFile>, checksum: seq<byte> -> nat): (r: seq<CentralEntry>)
    ensures |r| == |files|
  {
    if files == [] then []
    else
      var f := files[|files| - 1];
      var init := files[..|files| - 1];
      Entries(init, checksum) + [CentralEntry(f.name, checksum(f.data), |f.data|, LocalLength(init))]
  }

  lemma {:induction false} EntriesAt(files: seq<ZipFile>, checksum: seq<byte> -> nat, k: nat)
    requires k < |files|
    ensures Entries(files, checksum)[k]
            == CentralEntry(files[k].name, checksum(files[k].data), |files[k].data|, LocalLength(files[..k]))
  {
    var n := |files| - 1;
    if k < n {
      assert files[..n][k] == files[k];
      assert files[..n][..k] == files[..k];
      EntriesAt(files[..n], checksum, k);
    }
  }

  /** The chunks of the second loop, one header per entry. */
  function CentralChunks(es: seq<CentralEntry>): (r: seq<seq<byte>>)
    ensures |r| == |es|
  {
    if es == [] then [] else CentralChunks(es[..|es| - 1]) + [CentralHeader(es[|es| - 1])]
  }

  lemma {:induction false} CentralChunksAt(es: seq<CentralEntry>, k: nat)
    requires k < |es|
    ensures CentralChunks(es)[k] == CentralHeader(es[k])
  {
    var n := |es| - 1;
    if k < n {
      assert es[..n][k] == es[k];
      CentralChunksAt(es[..n], k);
    }
  }

  /** The central directory: one header per file. */
  function Directory(files: seq<ZipFile>, checksum: seq<byte> -> nat): seq<seq<byte>>
  {
    CentralChunks(Entries(files, checksum))
  }

  /** All chunks in the order they are pushed. */
  function Chunks(files: seq<ZipFile>, checksum: seq<byte> -> nat): seq<seq<byte>>
  {
    var central := Directory(files, checksum);
    LocalChunks(files, checksum) + central + [EndRecord(|files|, |Flatten(central)|, LocalLength(files))]
  }

  /** The archive `createZipFromFiles` assembles before its base64 step. */
  function Archive(files: seq<ZipFile>, checksum: seq<byte> -> nat): seq<byte>
  {
    Flatten(Chunks(files, checksum))
  }

  /** The archive is the local section, then the central directory, then
      the end record. */
  lemma ArchiveSections(files: seq<ZipFile>, checksum: seq<byte> -> nat)
    ensures var central := Flatten(Directory(files, checksum));
      Archive(files, checksum)
      == LocalSection(files, checksum) + central + EndRecord(|files|, |central|, LocalLength(files))
  {
    var central := Directory(files, checksum);
    var e := EndRecord(|files|, |Flatten(central)|, LocalLength(files));
    FlattenAppend(LocalChunks(files, checksum) + central, [e]);
    FlattenAppend(LocalChunks(files, checksum), central);
    assert Flatten([e]) == Flatten([e][..0]) + e;
  }

  // ---------------------------------------------------------------------
  // Reading an archive back

  /** The file whose local header starts at `at`: the name and the data as
      the header's lengths delimit them. None unless the signature is
      right, the method is 0 (stored) and the stored checksum matches the
      data. */
  function ReadLocal(z: seq<byte>, at: nat, checksum: seq<byte> -> nat): Option<ZipFile>
  {
    if at + 30 > |z| then None
    else
      var h := z[at..];
      var n := U16(h[26..28]);
      var size := U32(h[18..22]);
      if U32(h[0..4]) != LocalSignature || U16(h[8..10]) != 0 || 30 + n + size > |h| then None
      else
        var f := ZipFile(h[30..30 + n], h[30 + n..30 + n + size]);
        if U32(h[14..18]) != checksum(f.data) % Two32 then None else Some(f)
  }

  /** What the reader takes from a central directory header: the name, the
      size of the data and the offset of the local header. */
  datatype DirEntry = DirEntry(name: seq<byte>, size: nat, offset: nat)

  /** The central directory header at `at`, and where the next one starts.
      None unless the signature is right and the name fits. */
  function ReadEntry(z: seq<byte>, at: nat): Option<(DirEntry, nat)>
  {
    if at + 46 > |z| then None
    else
      var h := z[at..];
      var n := U16(h[28..30]);
      if U32(h[0..4]) != CentralSignature || 46 + n > |h| then None
      else Some((DirEntry(h[46..46 + n], U32(h[24..28]), U32(h[42..46])), at + 46 + n))
  }

  /** The `count` central directory headers starting at `at`. */
  function ReadCentral(z: seq<byte>, at: nat, count: nat): Option<seq<DirEntry>>
    decreases count
  {
    if count == 0 then Some([])
    else
      match ReadEntry(z, at)
      case None => None
      case Some((e, next)) =>
        match ReadCentral(z, next, count - 1)
        case None => None
        case Some(es) => Some([e] + es)
  }

  /** The files the directory entries point at; each local header must
      agree with its entry on the name and the size. */
  function ReadFiles(z: seq<byte>, es: seq<DirEntry>, checksum: seq<byte> -> nat): Option<seq<ZipFile>>
  {
    if es == [] then Some([])
    else
      match ReadLocal(z, es[0].offset, checksum)
      case None => None
      case Some(f) =>
        if f.name != es[0].name || |f.data| != es[0].size then None
        else
          match ReadFiles(z, es[1..], checksum)
          case None => None
          case Some(fs) => Some([f] + fs)
  }

  /** An archive read through its end record: the central directory it
      locates, then the files the directory lists. */
  function ReadArchive(z: seq<byte>, checksum: seq<byte> -> nat): Option<seq<ZipFile>>
  {
    if |z| < 22 then None
    else
      var e := z[|z| - 22..];
      if U32(e[0..4]) != EndSignature then None
      else
        match ReadCentral(z, U32(e[16..20]), U16(e[10..12]))
        case None => None
        case Some(es) => ReadFiles(z, es, checksum)
  }

  // ---------------------------------------------------------------------
  // Sizes

  /** The length of the central directory: a header and a name per file. */
  function CentralLength(files: seq<ZipFile>): nat
  {
    if files == [] then 0 else CentralLength(files[..|files| - 1]) + 46 + |files[|files| - 1].name|
  }

  /** The sizes the 16- and 32-bit fields can hold: fewer than 2^16 files,
      names shorter than 2^16 bytes and an archive shorter than 2^32 bytes. */
  predicate Fits(files: seq<ZipFile>)
  {
    && |files| < Two16
    && (forall k :: 0 <= k < |files| ==> |files[k].name| < Two16)
    && LocalLength(files) + CentralLength(files) + 22 < Two32
  }

  lemma {:induction false} DirectoryLength(files: seq<ZipFile>, checksum: seq<byte> -> nat)
    ensures |Flatten(Directory(files, checksum))| == CentralLength(files)
  {
    if files != [] {
      var init := files[..|files| - 1];
      var es := Entries(files, checksum);
      assert es[..|es| - 1] == Entries(init, checksum);
      var cc := CentralChunks(es);
      assert cc[..|cc| - 1] == CentralChunks(es[..|es| - 1]);
      DirectoryLength(init, checksum);
    }
  }

  /** The size of an archive: local section, central directory and the
      22-byte end record. */
  lemma ArchiveSize(files: seq<ZipFile>, checksum: seq<byte> -> nat)
    ensures |Archive(files, checksum)| == LocalLength(files) + CentralLength(files) + 22
  {
    ArchiveSections(files, checksum);
    LocalSectionLength(files, checksum);
    DirectoryLength(files, checksum);
  }

  lemma {:induction false} LocalLengthPrefix(files: seq<ZipFile>, j: nat)
    requires j <= |files|
    ensures LocalLength(files[..j]) <= LocalLength(files)
    ensures j < |files| ==> LocalLength(files[..j]) + 30 + |files[j].name| + |files[j].data| <= LocalLength(files)
    decreases |files|
  {
    if j < |files| {
      var init := files[..|files| - 1];
      assert init[..j] == files[..j];
      if j < |init| {
        assert init[j] == files[j];
        LocalLengthPrefix(init, j);
      } else {
        assert init == files[..j];
      }
    } else {
      assert files[..j] == files;
    }
  }

  // ---------------------------------------------------------------------
  // Sequence facts

  lemma Parts3<T>(a: seq<T>, b: seq<T>, c: seq<T>)
    ensures (a + b + c)[..|a|] == a && (a + b + c)[|a|..|a| + |b|] == b && (a + b + c)[|a| + |b|..] == c
  {
  }

  lemma SplitAt<T>(s: seq<T>, j: nat)
    requires j < |s|
    ensures s == s[..j] + [s[j]] + s[j + 1..]
  {
  }

  lemma FlattenStep(cs: seq<seq<byte>>, j: nat)
    requires j < |cs|
    ensures Flatten(cs[..j + 1]) == Flatten(cs[..j]) + cs[j]
  {
    assert cs[..j + 1][..j] == cs[..j];
  }

  lemma FlattenAround(cs: seq<seq<byte>>, j: nat)
    requires j < |cs|
    ensures Flatten(cs) == Flatten(cs[..j]) + cs[j] + Flatten(cs[j + 1..])
  {
    assert cs == cs[..j + 1] + cs[j + 1..];
    FlattenAppend(cs[..j + 1], cs[j + 1..]);
    FlattenStep(cs, j);
  }

  /** Chunk `i` of `cs` starts where the chunks before it end. */
  lemma ChunkIn(cs: seq<seq<byte>>, i: nat)
    requires i < |cs|
    ensures |Flatten(cs[..i])| <= |Flatten(cs)|
    ensures Flatten(cs)[|Flatten(cs[..i])|..] == cs[i] + Flatten(cs[i + 1..])
    ensures |Flatten(cs[..i + 1])| == |Flatten(cs[..i])| + |cs[i]|
  {
    FlattenAround(cs, i);
    FlattenStep(cs, i);
  }

  /** The first chunk of a non-empty sequence of chunks comes first. */
  lemma FlattenFront(cs: seq<seq<byte>>)
    requires cs != []
    ensures Flatten(cs) == cs[0] + Flatten(cs[1..])
  {
    assert cs == [cs[0]] + cs[1..];
    FlattenAppend([cs[0]], cs[1..]);
    assert [cs[0]][..0] == [];
  }

  lemma Front3<T>(a: seq<T>, b: seq<T>, c: seq<T>, i: nat)
    requires i <= |a|
    ensures (a + b + c)[..i] == a[..i]
    ensures i < |a| ==> (a + b + c)[i] == a[i]
  {
  }

  lemma Middle3<T>(a: seq<T>, b: seq<T>, c: seq<T>, i: nat)
    requires i <= |b|
    ensures (a + b + c)[..|a| + i] == a + b[..i]
    ensures i < |b| ==> (a + b + c)[|a| + i] == b[i]
  {
  }

  lemma DropOne<T>(s: seq<T>, i: nat)
    requires i < |s|
    ensures s[i..][1..] == s[i + 1..]
  {
  }

  lemma Assoc<T>(a: seq<T>, b: seq<T>, c: seq<T>)
    ensures a + (b + c) == a + b + c
  {
  }

  // ---------------------------------------------------------------------
  // Headers as the reader sees them

  /** `h` is a local header for `f`, as far as the reader can tell: the
      signature, method 0, the checksum and size of the data, and the name. */
  predicate LocalOf(h: seq<byte>, f: ZipFile, checksum: seq<byte> -> nat)
  {
    && |h| == 30 + |f.name|
    && U32(h[0..4]) == LocalSignature && U16(h[8..10]) == 0
    && U32(h[14..18]) == checksum(f.data) % Two32 && U32(h[18..22]) == |f.data|
    && U16(h[26..28]) == |f.name| && h[30..] == f.name
  }

  /** The local header the writer emits for a file is one the reader
      accepts for it, when the lengths fit their fields. */
  lemma LocalFieldsRead(f: ZipFile, checksum: seq<byte> -> nat)
    requires |f.name| < Two16 && |f.data| < Two32
    ensures LocalOf(LocalHeader(f.name, checksum(f.data), |f.data|), f, checksum)
  {
    LocalHeaderFields(f.name, checksum(f.data), |f.data|);
    Field32(LocalSignature);
    Field16(0);
    Field32(checksum(f.data));
    Field32(|f.data|);
    Field16(|f.name|);
  }

  /** Reading a local header `h` followed by the data it describes. */
  lemma ReadLocalHeader(z: seq<byte>, at: nat, h: seq<byte>, f: ZipFile, rest: seq<byte>, checksum: seq<byte> -> nat)
    requires at <= |z| && z[at..] == h + f.data + rest && LocalOf(h, f, checksum)
    ensures ReadLocal(z, at, checksum) == Some(f)
  {
    var w := z[at..];
    assert w[0..4] == h[0..4] && w[8..10] == h[8..10] && w[14..18] == h[14..18];
    assert w[18..22] == h[18..22] && w[26..28] == h[26..28];
    assert w[30..30 + |f.name|] == f.name;
    assert w[30 + |f.name|..30 + |f.name| + |f.data|] == f.data;
  }

  /** `h` is a central directory header for the entry `e`, as far as the
      reader can tell. */
  predicate HeaderOf(h: seq<byte>, e: DirEntry)
  {
    && |h| == 46 + |e.name|
    && U32(h[0..4]) == CentralSignature && U16(h[28..30]) == |e.name|
    && U32(h[24..28]) == e.size && U32(h[42..46]) == e.offset
    && h[46..] == e.name
  }

  /** The header the writer emits for an entry is one the reader accepts
      for it, when the lengths fit their fields. */
  lemma CentralFieldsRead(e: CentralEntry)
    requires |e.name| < Two16 && e.size < Two32 && e.offset < Two32
    ensures HeaderOf(CentralHeader(e), DirEntry(e.name, e.size, e.offset))
  {
    CentralHeaderFields(e);
    Field32(CentralSignature);
    Field32(e.size);
    Field16(|e.name|);
    Field32(e.offset);
  }

  /** Reading a central directory header `h` followed by `rest`. */
  lemma ReadCentralHeader(z: seq<byte>, at: nat, h: seq<byte>, rest: seq<byte>, e: DirEntry)
    requires at <= |z| && z[at..] == h + rest && HeaderOf(h, e)
    ensures ReadEntry(z, at) == Some((e, at + |h|))
  {
    var w := z[at..];
    assert w[0..4] == h[0..4] && w[24..28] == h[24..28] && w[28..30] == h[28..30] && w[42..46] == h[42..46];
    assert w[46..46 + |e.name|] == h[46..];
  }

  // ---------------------------------------------------------------------
  // The chunks the writer pushes

  /** The local chunks split around file `j`. */
  lemma LocalChunksAround(files: seq<ZipFile>, checksum: seq<byte> -> nat, j: nat)
    requires j < |files|
    ensures LocalChunks(files, checksum)
            == LocalChunks(files[..j], checksum) + LocalChunk(files[j], checksum) + LocalChunks(files[j + 1..], checksum)
  {
    var f := files[j];
    SplitAt(files, j);
    LocalChunksAppend(files[..j] + [f], files[j + 1..], checksum);
    LocalChunksAppend(files[..j], [f], checksum);
    assert LocalChunks([f], checksum) == LocalChunk(f, checksum) by {
      assert [f][..0] == [];
    }
  }

  /** In the archive's chunks, file `k` contributes chunks `2k` (its local
      header) and `2k + 1` (its data), after the chunks of the files before
      it. */
  lemma ChunksOfFile(files: seq<ZipFile>, checksum: seq<byte> -> nat, k: nat)
    requires k < |files|
    ensures var ch, f := Chunks(files, checksum), files[k];
      && ch[2 * k] == LocalHeader(f.name, checksum(f.data), |f.data|)
      && ch[2 * k + 1] == f.data
      && |Flatten(ch[..2 * k])| == LocalLength(files[..k])
  {
    var ls := LocalChunks(files, checksum);
    var cc := Directory(files, checksum);
    var E := EndRecord(|files|, |Flatten(cc)|, LocalLength(files));
    var a, lc, b := LocalChunks(files[..k], checksum), LocalChunk(files[k], checksum), LocalChunks(files[k + 1..], checksum);
    LocalChunksAround(files, checksum, k);
    Parts3(a, lc, b);
    Middle3(a, lc, b, 0);
    Middle3(a, lc, b, 1);
    Front3(ls, cc, [E], 2 * k);
    Front3(ls, cc, [E], 2 * k + 1);
    LocalSectionLength(files[..k], checksum);
  }

  /** Chunk `2n + k`, `n` the number of files, is the central directory
      header of file `k`. */
  lemma ChunkOfEntry(files: seq<ZipFile>, checksum: seq<byte> -> nat, k: nat)
    requires k < |files|
    ensures Chunks(files, checksum)[2 * |files| + k]
            == CentralHeader(CentralEntry(files[k].name, checksum(files[k].data), |files[k].data|, LocalLength(files[..k])))
  {
    var ls, cc := LocalChunks(files, checksum), Directory(files, checksum);
    var E := EndRecord(|files|, |Flatten(cc)|, LocalLength(files));
    Middle3(ls, cc, [E], k);
    EntriesAt(files, checksum, k);
    CentralChunksAt(Entries(files, checksum), k);
  }

  /** The local section ends after chunk `2n - 1`, the central directory
      fills chunks `2n` to `3n - 1` and the end record is the last chunk. */
  lemma ChunksEnd(files: seq<ZipFile>, checksum: seq<byte> -> nat)
    ensures var ch, n := Chunks(files, checksum), |files|;
      && |ch| == 3 * n + 1
      && |Flatten(ch[..2 * n])| == LocalLength(files)
      && ch[3 * n] == EndRecord(n, |Flatten(ch[2 * n..3 * n])|, LocalLength(files))
  {
    var ch, n := Chunks(files, checksum), |files|;
    var ls, cc := LocalChunks(files, checksum), Directory(files, checksum);
    var E := EndRecord(|files|, |Flatten(cc)|, LocalLength(files));
    Parts3(ls, cc, [E]);
    assert ch[3 * n] == ch[3 * n..][0];
    LocalSectionLength(files, checksum);
  }

  /** Chunks `2k` and `2k + 1` of an archive of `files` are a local header
      for file `k` and its data, and the local header starts where the
      files before it end. */
  predicate LocalAt(ch: seq<seq<byte>>, files: seq<ZipFile>, checksum: seq<byte> -> nat, k: nat)
    requires |ch| == 3 * |files| + 1 && k < |files|
  {
    && LocalOf(ch[2 * k], files[k], checksum)
    && ch[2 * k + 1] == files[k].data
    && |Flatten(ch[..2 * k])| == LocalLength(files[..k])
  }

  /** Chunk `2n + k`, `n` the number of files, is a central directory
      header for file `k`, pointing at its local header. */
  predicate CentralAt(ch: seq<seq<byte>>, files: seq<ZipFile>, k: nat)
    requires |ch| == 3 * |files| + 1 && k < |files|
  {
    HeaderOf(ch[2 * |files| + k], DirEntry(files[k].name, |files[k].data|, LocalLength(files[..k])))
  }

  /** The local section ends after chunk `2n - 1` and the last chunk is the
      end record, counting the files and giving the size and start of the
      central directory. */
  predicate EndAt(ch: seq<seq<byte>>, files: seq<ZipFile>)
    requires |ch| == 3 * |files| + 1
  {
    var n := |files|;
    && |Flatten(ch[..2 * n])| == LocalLength(files)
    && ch[3 * n] == EndRecord(n, |Flatten(ch[2 * n..3 * n])|, LocalLength(files))
  }

  /** Chunks of an archive of `files` as the reader needs them: a local
      header and the data of each file, then a central directory header per
      file, then the end record. */
  predicate Layout(ch: seq<seq<byte>>, files: seq<ZipFile>, checksum: seq<byte> -> nat)
  {
    && |ch| == 3 * |files| + 1
    && (forall k :: 0 <= k < |files| ==> LocalAt(ch, files, checksum, k) && CentralAt(ch, files, k))
    && EndAt(ch, files)
  }

  /** The chunks of file `k` in the writer's sequence are as the reader
      needs them. */
  lemma ChunksAt(files: seq<ZipFile>, checksum: seq<byte> -> nat, k: nat)
    requires Fits(files) && k < |files|
    ensures |Chunks(files, checksum)| == 3 * |files| + 1
    ensures LocalAt(Chunks(files, checksum), files, checksum, k) && CentralAt(Chunks(files, checksum), files, k)
  {
    var f := files[k];
    ChunksEnd(files, checksum);
    ChunksOfFile(files, checksum, k);
    ChunkOfEntry(files, checksum, k);
    LocalLengthPrefix(files, k);
    LocalFieldsRead(f, checksum);
    CentralFieldsRead(CentralEntry(f.name, checksum(f.data), |f.data|, LocalLength(files[..k])));
  }

  /** The writer's chunks have the layout the reader needs. */
  lemma ChunksLayout(files: seq<ZipFile>, checksum: seq<byte> -> nat)
    requires Fits(files)
    ensures Layout(Chunks(files, checksum), files, checksum)
  {
    var ch := Chunks(files, checksum);
    ChunksEnd(files, checksum);
    forall k | 0 <= k < |files|
      ensures LocalAt(ch, files, checksum, k) && CentralAt(ch, files, k)
    {
      ChunksAt(files, checksum, k);
    }
  }

  // ---------------------------------------------------------------------
  // Reading the chunks back

  /** The bytes from the start of chunk `i` on: chunks `i` and `i + 1`, then
      the rest. */
  lemma FromChunk(ch: seq<seq<byte>>, i: nat)
    requires i + 1 < |ch|
    ensures |Flatten(ch[..i])| <= |Flatten(ch)|
    ensures Flatten(ch)[|Flatten(ch[..i])|..] == ch[i] + ch[i + 1] + Flatten(ch[i + 2..])
  {
    ChunkIn(ch, i);
    FlattenFront(ch[i + 1..]);
    DropOne(ch, i + 1);
    Assoc(ch[i], ch[i + 1], Flatten(ch[i + 2..]));
  }

  /** A local header for `f` in chunk `i`, followed by the data of `f`,
      reads back as `f`. */
  lemma LocalRead(z: seq<byte>, ch: seq<seq<byte>>, i: nat, f: ZipFile, checksum: seq<byte> -> nat)
    requires i + 1 < |ch| && z == Flatten(ch) && LocalOf(ch[i], f, checksum) && ch[i + 1] == f.data
    ensures ReadLocal(z, |Flatten(ch[..i])|, checksum) == Some(f)
  {
    FromChunk(ch, i);
    ReadLocalHeader(z, |Flatten(ch[..i])|, ch[i], f, Flatten(ch[i + 2..]), checksum);
  }

  /** The central directory header of file `k` reads back as its entry,
      followed by the header of file `k + 1`. */
  lemma EntryRead(z: seq<byte>, ch: seq<seq<byte>>, files: seq<ZipFile>, k: nat)
    requires |ch| == 3 * |files| + 1 && k < |files| && z == Flatten(ch) && CentralAt(ch, files, k)
    ensures ReadEntry(z, |Flatten(ch[..2 * |files| + k])|)
            == Some((DirEntry(files[k].name, |files[k].data|, LocalLength(files[..k])), |Flatten(ch[..2 * |files| + k + 1])|))
  {
    HeaderInChunks(ch, 2 * |files| + k, DirEntry(files[k].name, |files[k].data|, LocalLength(files[..k])));
  }

  /** A central directory header for `e` in chunk `i` reads back as `e`,
      followed by the next chunk. */
  lemma HeaderInChunks(ch: seq<seq<byte>>, i: nat, e: DirEntry)
    requires i < |ch| && HeaderOf(ch[i], e)
    ensures ReadEntry(Flatten(ch), |Flatten(ch[..i])|) == Some((e, |Flatten(ch[..i + 1])|))
  {
    ChunkIn(ch, i);
    ReadCentralHeader(Flatten(ch), |Flatten(ch[..i])|, ch[i], Flatten(ch[i + 1..]), e);
  }

  /** The walk over the central directory headers from `j` on, when the
      header at `pos[k]` reads back as `es[k]` followed by `pos[k + 1]`. */
  lemma {:induction false} WalkCentral(z: seq<byte>, pos: seq<nat>, es: seq<DirEntry>, j: nat)
    requires |pos| == |es| + 1 && j <= |es|
    requires forall k {:trigger ReadEntry(z, pos[k])} :: 0 <= k < |es| ==> ReadEntry(z, pos[k]) == Some((es[k], pos[k + 1]))
    ensures ReadCentral(z, pos[j], |es| - j) == Some(es[j..])
    decreases |es| - j
  {
    if j < |es| {
      WalkCentral(z, pos, es, j + 1);
      assert [es[j]] + es[j + 1..] == es[j..];
    } else {
      assert es[j..] == [];
    }
  }

  /** The second pass from entry `j` on, when each entry points at a local
      header that reads back as a file with the entry's name and size. */
  lemma {:induction false} WalkFiles(z: seq<byte>, es: seq<DirEntry>, files: seq<ZipFile>,
                                     checksum: seq<byte> -> nat, j: nat)
    requires |es| == |files| && j <= |es|
    requires forall k :: 0 <= k < |es| ==>
      && ReadLocal(z, es[k].offset, checksum) == Some(files[k])
      && es[k].name == files[k].name && es[k].size == |files[k].data|
    ensures ReadFiles(z, es[j..], checksum) == Some(files[j..])
    decreases |es| - j
  {
    if j < |es| {
      WalkFiles(z, es, files, checksum, j + 1);
      assert es[j..][1..] == es[j + 1..];
      assert [files[j]] + files[j + 1..] == files[j..];
    } else {
      assert es[j..] == [] && files[j..] == [];
    }
  }

  /** The entries the central directory of an archive of `files` lists. */
  function Listing(files: seq<ZipFile>): (es: seq<DirEntry>)
    ensures |es| == |files|
    ensures forall k :: 0 <= k < |files| ==> es[k] == DirEntry(files[k].name, |files[k].data|, LocalLength(files[..k]))
  {
    seq(|files|, k requires 0 <= k < |files| => DirEntry(files[k].name, |files[k].data|, LocalLength(files[..k])))
  }

  /** Where the central directory headers start: header `k` at the end of
      chunk `2n + k - 1`, and the last entry the end of the directory. */
  function CentralOffsets(ch: seq<seq<byte>>, n: nat): (pos: seq<nat>)
    requires |ch| == 3 * n + 1
    ensures |pos| == n + 1
    ensures forall k :: 0 <= k <= n ==> pos[k] == |Flatten(ch[..2 * n + k])|
  {
    seq(n + 1, k requires 0 <= k <= n => |Flatten(ch[..2 * n + k])|)
  }

  /** The end record leads the reader to the first central directory
      header, with the number of files. */
  lemma EndReadBack(z: seq<byte>, ch: seq<seq<byte>>, files: seq<ZipFile>, checksum: seq<byte> -> nat)
    requires |ch| == 3 * |files| + 1 && EndAt(ch, files)
    requires z == Flatten(ch) && Fits(files)
    ensures |z| >= 22
    ensures var e := z[|z| - 22..];
      U32(e[0..4]) == EndSignature && U32(e[16..20]) == |Flatten(ch[..2 * |files|])| && U16(e[10..12]) == |files|
  {
    var n := |files|;
    ChunkIn(ch, 3 * n);
    assert ch[3 * n + 1..] == [];
    assert ch[..3 * n + 1] == ch;
    EndRecordFields(n, |Flatten(ch[2 * n..3 * n])|, LocalLength(files));
    Field32(EndSignature);
    Field16(n);
    Field32(LocalLength(files));
  }

  /** The central directory of chunks with the layout the reader needs
      lists the entries of the files. */
  lemma DirectoryRead(z: seq<byte>, ch: seq<seq<byte>>, files: seq<ZipFile>, checksum: seq<byte> -> nat)
    requires Layout(ch, files, checksum) && z == Flatten(ch)
    ensures ReadCentral(z, |Flatten(ch[..2 * |files|])|, |files|) == Some(Listing(files))
  {
    var pos, es := CentralOffsets(ch, |files|), Listing(files);
    forall k | 0 <= k < |files|
      ensures ReadEntry(z, pos[k]) == Some((es[k], pos[k + 1]))
    {
      EntryRead(z, ch, files, k);
    }
    WalkCentral(z, pos, es, 0);
    assert es[0..] == es;
  }

  /** The entries of the files, in chunks with the layout the reader needs,
      lead the second pass to the files. */
  lemma FilesRead(z: seq<byte>, ch: seq<seq<byte>>, files: seq<ZipFile>, checksum: seq<byte> -> nat)
    requires Layout(ch, files, checksum) && z == Flatten(ch)
    ensures ReadFiles(z, Listing(files), checksum) == Some(files)
  {
    var es := Listing(files);
    forall k | 0 <= k < |files|
      ensures ReadLocal(z, es[k].offset, checksum) == Some(files[k])
    {
      assert LocalAt(ch, files, checksum, k);
      LocalRead(z, ch, 2 * k, files[k], checksum);
    }
    WalkFiles(z, es, files, checksum, 0);
    assert es[0..] == es && files[0..] == files;
  }

  /** Chunks with the layout the reader needs, joined, read back as the
      files they were made from. */
  lemma ReadBack(z: seq<byte>, ch: seq<seq<byte>>, files: seq<ZipFile>, checksum: seq<byte> -> nat)
    requires Layout(ch, files, checksum) && z == Flatten(ch) && Fits(files)
    ensures ReadArchive(z, checksum) == Some(files)
  {
    EndReadBack(z, ch, files, checksum);
    DirectoryRead(z, ch, files, checksum);
    FilesRead(z, ch, files, checksum);
  }

  /** Round trip: an archive written from files that fit the fields reads
      back, through its end record and central directory, as those files. */
  lemma ReadWritten(files: seq<ZipFile>, checksum: seq<byte> -> nat)
    requires Fits(files)
    ensures ReadArchive(Archive(files, checksum), checksum) == Some(files)
  {
    ChunksLayout(files, checksum);
    ReadBack(Archive(files, checksum), Chunks(files, checksum), files, checksum);
  }
}
