/**
  The loops of `createZipFromFiles` (background.js): the first pushes a
  local header and the data per file and records a central directory entry,
  the second pushes a central directory header per entry, then the end
  record is pushed, the total length is summed and the chunks are copied
  into one `Uint8Array`. Each header is built by the header functions of
  module Zip; the method is proved to assemble exactly `Zip.Archive` with
  the CRC-32 as checksum, so the round trip proved there (`Zip.ReadWritten`)
  applies to what it returns.
*/
module ZipWriter {
  import Crc32
  import opened Zip

  /** `createZipFromFiles` up to, not including, the base64 step. */
  method CreateZip(files: seq<ZipFile>) returns (zip: seq<byte>)
    ensures zip == Archive(files, Crc)
  {
    var chunks := PushAll(files);
    var totalLength := TotalLength(chunks);
    zip := Join(chunks, totalLength);
  }

  /** The chunks `createZipFromFiles` pushes: the first loop, the second
      loop, then the end record, which counts the entries and gives the
      bytes the second loop pushed and the offset where it started. */
  method PushAll(files: seq<ZipFile>) returns (chunks: seq<seq<byte>>)
    ensures chunks == Chunks(files, Crc)
  {
    var central, offset;
    chunks, central, offset := PushLocal(files);
    var centralStart := offset;
    chunks, offset := PushCentral(chunks, central, offset);
    var endRecord := EndRecord(|central|, offset - centralStart, centralStart);
    assert |central| == |files| && offset - centralStart == |Flatten(Directory(files, Crc))|;
    chunks := chunks + [endRecord];
  }

  /** The first loop: a local header and the data per file, and the entry
      the central directory will need. Both `crc32` calls of the loop are
      kept. */
  method PushLocal(files: seq<ZipFile>) returns (chunks: seq<seq<byte>>, central: seq<CentralEntry>, offset: nat)
    ensures chunks == LocalChunks(files, Crc)
    ensures central == Entries(files, Crc)
    ensures offset == LocalLength(files)
  {
    chunks, central, offset := [], [], 0;
    for i := 0 to |files|
      invariant chunks == LocalChunks(files[..i], Crc)
      invariant central == Entries(files[..i], Crc)
      invariant offset == LocalLength(files[..i])
    {
      chunks, central, offset := PushFile(files[i], chunks, central, offset);
      LocalStep(files, i, Crc);
    }
    assert files[..|files|] == files;
  }

  /** One pass of the first loop, for file `f` starting at `offset`. */
  method PushFile(f: ZipFile, chunks0: seq<seq<byte>>, central0: seq<CentralEntry>, offset0: nat)
    returns (chunks: seq<seq<byte>>, central: seq<CentralEntry>, offset: nat)
    ensures chunks == chunks0 + LocalChunk(f, Crc)
    ensures central == central0 + [CentralEntry(f.name, Crc(f.data), |f.data|, offset0)]
    ensures offset == offset0 + 30 + |f.name| + |f.data|
  {
    var crc := Crc32.Crc32(Octets(f.data));
    var localHeader := LocalHeader(f.name, crc as nat, |f.data|);
    chunks := chunks0 + [localHeader, f.data];
    var entryCrc := Crc32.Crc32(Octets(f.data));
    central := central0 + [CentralEntry(f.name, entryCrc as nat, |f.data|, offset0)];
    offset := offset0 + |localHeader| + |f.data|;
  }

  /** The second loop: a central directory header per entry, counting the
      bytes pushed on from `start`. */
  method PushCentral(before: seq<seq<byte>>, central: seq<CentralEntry>, start: nat)
    returns (chunks: seq<seq<byte>>, offset: nat)
    ensures chunks == before + CentralChunks(central)
    ensures offset == start + |Flatten(CentralChunks(central))|
  {
    chunks, offset := before, start;
    for i := 0 to |central|
      invariant chunks == before + CentralChunks(central[..i])
      invariant offset == start + |Flatten(CentralChunks(central[..i]))|
    {
      var centralHeader := CentralHeader(central[i]);
      CentralStep(central, i);
      Assoc(before, CentralChunks(central[..i]), [centralHeader]);
      chunks := chunks + [centralHeader];
      offset := offset + |centralHeader|;
    }
    assert central[..|central|] == central;
  }

  /** The `reduce` summing the chunk lengths. */
  method TotalLength(chunks: seq<seq<byte>>) returns (total: nat)
    ensures total == |Flatten(chunks)|
  {
    total := 0;
    for i := 0 to |chunks|
      invariant total == |Flatten(chunks[..i])|
    {
      FlattenStep(chunks, i);
      total := total + |chunks[i]|;
    }
    assert chunks[..|chunks|] == chunks;
  }

  /** The copy of every chunk into one array of the total length, each at
      the position where the chunks before it end. */
  method Join(chunks: seq<seq<byte>>, totalLength: nat) returns (zip: seq<byte>)
    requires totalLength == |Flatten(chunks)|
    ensures zip == Flatten(chunks)
  {
    var zipData := new byte[totalLength];
    var pos := 0;
    for i := 0 to |chunks|
      invariant pos == |Flatten(chunks[..i])| <= zipData.Length
      invariant zipData[..pos] == Flatten(chunks[..i])
    {
      ChunkIn(chunks, i);
      FlattenStep(chunks, i);
      Set(zipData, chunks[i], pos);
      pos := pos + |chunks[i]|;
    }
    assert chunks[..|chunks|] == chunks;
    assert zipData[..] == zipData[..pos];
    zip := zipData[..];
  }

  /** The first loop's values after file `i` extend those before it. */
  lemma LocalStep(files: seq<ZipFile>, i: nat, checksum: seq<byte> -> nat)
    requires i < |files|
    ensures var f := files[i];
      && LocalChunks(files[..i + 1], checksum) == LocalChunks(files[..i], checksum) + LocalChunk(f, checksum)
      && Entries(files[..i + 1], checksum)
         == Entries(files[..i], checksum) + [CentralEntry(f.name, checksum(f.data), |f.data|, LocalLength(files[..i]))]
      && LocalLength(files[..i + 1]) == LocalLength(files[..i]) + 30 + |f.name| + |f.data|
  {
    assert files[..i + 1][..i] == files[..i];
  }

  /** `Uint8Array.prototype.set` of `chunk` at `pos`, element by element;
      the elements before `pos` are kept. */
  method Set(a: array<byte>, chunk: seq<byte>, pos: nat)
    requires pos + |chunk| <= a.Length
    modifies a
    ensures a[..pos + |chunk|] == old(a[..pos]) + chunk
    ensures a[pos + |chunk|..] == old(a[pos + |chunk|..])
  {
    for j := 0 to |chunk|
      invariant a[..pos + j] == old(a[..pos]) + chunk[..j]
      invariant a[pos + |chunk|..] == old(a[pos + |chunk|..])
    {
      a[pos + j] := chunk[j];
      assert a[..pos + j + 1] == a[..pos + j] + [chunk[j]];
      assert chunk[..j + 1] == chunk[..j] + [chunk[j]];
    }
    assert chunk[..|chunk|] == chunk;
  }

  /** The second loop's chunks after entry `i` extend those before it by
      the entry's header, and so do their bytes. */
  lemma CentralStep(central: seq<CentralEntry>, i: nat)
    requires i < |central|
    ensures CentralChunks(central[..i + 1]) == CentralChunks(central[..i]) + [CentralHeader(central[i])]
    ensures Flatten(CentralChunks(central[..i + 1])) == Flatten(CentralChunks(central[..i])) + CentralHeader(central[i])
  {
    var cs, c := CentralChunks(central[..i]), CentralHeader(central[i]);
    assert central[..i + 1][..i] == central[..i];
    assert (cs + [c])[..|cs|] == cs;
  }
}
