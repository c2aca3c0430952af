/**
 * The archive writer of the icon generator: an object that keeps the configured icon sizes,
 * the icons generated so far and a lazily built CRC-32 table, and that writes a ZIP archive
 * of the icons field by field into freshly allocated byte buffers.
 *
 * An `ArrayBuffer` or `Uint8Array` is an `array<byte>`; a `DataView` write is one of the
 * `Set` methods below, which change exactly the bytes they write.
 */
module Popup {

  import opened Bytes
  import opened Crc32
  import opened Text
  import opened ZipFormat

  /**
   * `DataView.setUint16(pos, v, true)`: two bytes at `pos`, low byte first, `v` modulo 2^16;
   * the bytes after them stay as they were.
   */
  method SetUint16(buffer: array<byte>, pos: nat, v: nat, ghost prefix: seq<byte>)
    requires pos + 2 <= buffer.Length && buffer[..pos] == prefix
    modifies buffer
    ensures buffer[..pos + 2] == prefix + Le16(v)
    ensures buffer[pos + 2..] == old(buffer[pos + 2..])
  {
    buffer[pos] := (v % 0x100) as byte;
    buffer[pos + 1] := (v / 0x100 % 0x100) as byte;
  }

  /**
   * `DataView.setUint32(pos, v, true)`: four bytes at `pos`, low byte first, `v` modulo 2^32;
   * the bytes after them stay as they were.
   */
  method SetUint32(buffer: array<byte>, pos: nat, v: nat, ghost prefix: seq<byte>)
    requires pos + 4 <= buffer.Length && buffer[..pos] == prefix
    modifies buffer
    ensures buffer[..pos + 4] == prefix + Le32(v)
    ensures buffer[pos + 4..] == old(buffer[pos + 4..])
  {
    buffer[pos] := (v % 0x100) as byte;
    buffer[pos + 1] := (v / 0x100 % 0x100) as byte;
    buffer[pos + 2] := (v / 0x1_0000 % 0x100) as byte;
    buffer[pos + 3] := (v / 0x100_0000 % 0x100) as byte;
  }

  /**
   * `Uint8Array.set(source, offset)`: `source` copied into `target` from `offset` on; the
   * bytes after the copy stay as they were.
   */
  method Set(target: array<byte>, source: seq<byte>, offset: nat, ghost prefix: seq<byte>)
    requires offset + |source| <= target.Length && target[..offset] == prefix
    modifies target
    ensures target[..offset + |source|] == prefix + source
    ensures target[offset + |source|..] == old(target[offset + |source|..])
  {
    for k := 0 to |source|
      invariant target[..offset] == prefix
      invariant target[offset..offset + k] == source[..k]
      invariant target[offset + |source|..] == old(target[offset + |source|..])
    {
      target[offset + k] := source[k];
    }
    assert target[..offset + |source|] == target[..offset] + target[offset..offset + |source|];
  }

  /** A 256-entry table whose entry `i` is `i` after eight division steps. */
  predicate IsCrcTable(table: array<bv32>)
    reads table
  {
    table.Length == 0x100 && forall i :: 0 <= i < 0x100 ==> table[i] == TableEntry(i)
  }

  /** One loop step of the checksum: a lookup in the table is one byte update of the register. */
  lemma TableStep(table: array<bv32>, data: seq<byte>, i: nat, crc: bv32)
    requires IsCrcTable(table) && i < |data| && crc == Register(AllOnes, data[..i])
    ensures table[TableIndex(crc, data[i])] ^ (crc >> 8) == Register(AllOnes, data[..i + 1])
  {
    RegisterPrefixStep(AllOnes, data, i);
  }

  class IconGenerator {
    /** The icon sizes to produce, in order. */
    var sizes: seq<nat>
    /** The PNG bytes generated so far, by size. */
    var generatedIcons: map<nat, seq<byte>>
    /** The CRC-32 table, once it has been built. */
    var crc32Table: array?<bv32>

    /** A table that has been built is the CRC-32 table. */
    predicate Valid()
      reads this, crc32Table
    {
      crc32Table != null ==> IsCrcTable(crc32Table)
    }

    /** A generator for the four standard sizes, with no icons and no table yet. */
    constructor ()
      ensures Valid()
      ensures sizes == [128, 48, 32, 16] && generatedIcons == map[] && crc32Table == null
    {
      sizes := [128, 48, 32, 16];
      generatedIcons := map[];
      crc32Table := null;
    }

    /**
     * The CRC-32 table, built on the first call and cached: once built, every later call
     * returns the same table, untouched.
     */
    method GetCrc32Table() returns (table: array<bv32>)
      requires Valid()
      modifies this`crc32Table
      ensures Valid() && crc32Table == table && IsCrcTable(table)
      ensures old(crc32Table) != null ==> table == old(crc32Table)
      ensures old(crc32Table) == null ==> fresh(table)
    {
      if crc32Table == null {
        var t := new bv32[0x100];
        crc32Table := t;
        for i := 0 to 0x100
          invariant crc32Table == t
          invariant forall k :: 0 <= k < i ==> t[k] == TableEntry(k)
        {
          var n: bv32 := i as bv32;
          var crc := n;
          for j := 0 to 8
            invariant crc == Steps(n, j)
            invariant crc32Table == t
            invariant forall k :: 0 <= k < i ==> t[k] == TableEntry(k)
          {
            StepsSucc(n, j);
            crc := Step(crc);
          }
          t[i] := crc;
        }
      }
      table := crc32Table;
    }

    /**
     * The CRC-32 of the bytes in `data`, one table lookup per byte, returned as the unsigned
     * number the register's bits denote.
     */
    method CalculateCrc32(data: array<byte>) returns (r: uint32)
      requires Valid()
      modifies this`crc32Table
      ensures Valid() && r == Unsigned(Checksum(data[..]))
      ensures crc32Table != null && (old(crc32Table) != null ==> crc32Table == old(crc32Table))
    {
      var crcTable := GetCrc32Table();
      var crc: bv32 := AllOnes;
      for i := 0 to data.Length
        invariant crc == Register(AllOnes, data[..i])
        invariant crc32Table == crcTable && IsCrcTable(crcTable)
      {
        var next := crcTable[TableIndex(crc, data[i])] ^ (crc >> 8);
        assert next == Register(AllOnes, data[..i + 1]) by {
          TableStep(crcTable, data[..], i, crc);
        }
        crc := next;
      }
      assert data[..] == data[..data.Length];
      r := Unsigned(crc ^ AllOnes);
    }

    /**
     * The local record and the central directory header of a file named `fileName` holding
     * the bytes of `fileData`, whose local record will start `offset` bytes into the archive.
     */
    method CreateZipFileEntry(fileName: string, fileData: array<byte>, offset: nat)
      returns (localFile: array<byte>, centralDir: array<byte>)
      requires Valid()
      modifies this`crc32Table
      ensures Valid() && fresh(localFile) && fresh(centralDir)
      ensures var m := Store(Entry(fileName, fileData[..]));
              localFile[..] == LocalRecord(m) && centralDir[..] == CentralRecord(m.name, |m.data|, m.crc, offset)
      ensures crc32Table != null && (old(crc32Table) != null ==> crc32Table == old(crc32Table))
    {
      var fileNameBytes := Utf8(fileName);
      var crc32 := CalculateCrc32(fileData);
      var size := fileData.Length;

      var localHeader := CreateLocalFileHeader(fileNameBytes, size, crc32);

      localFile := new byte[localHeader.Length + size](_ => 0);
      Set(localFile, localHeader[..], 0, []);
      assert [] + localHeader[..] == localHeader[..];
      Set(localFile, fileData[..], localHeader.Length, localHeader[..]);
      assert localFile[..] == localFile[..localHeader.Length + size];

      centralDir := CreateCentralDirectoryEntry(fileName, size, crc32, offset);
    }

    /**
     * The local file header of a file whose encoded name is `fileNameBytes`, with `size` bytes
     * of content and checksum `crc32`: the fields of the fixed 30-byte part, then the name.
     */
    static method CreateLocalFileHeader(fileNameBytes: seq<byte>, size: nat, crc32: uint32)
      returns (localHeader: array<byte>)
      ensures fresh(localHeader)
      ensures localHeader[..] == LocalHeader(fileNameBytes, size, crc32)
    {
      localHeader := new byte[LocalHeaderSize + |fileNameBytes|](_ => 0);
      ghost var w: seq<byte> := [];
      SetUint32(localHeader, 0, LocalSignature, w);
      w := Le32(LocalSignature);
      SetUint16(localHeader, 4, VersionNeeded, w);
      w := w + Le16(VersionNeeded);
      SetUint16(localHeader, 6, 0, w);
      w := w + Le16(0);
      SetUint16(localHeader, 8, 0, w);
      w := w + Le16(0);
      SetUint16(localHeader, 10, 0, w);
      w := w + Le16(0);
      SetUint16(localHeader, 12, 0, w);
      w := w + Le16(0);
      SetUint32(localHeader, 14, crc32, w);
      w := w + Le32(crc32);
      SetUint32(localHeader, 18, size, w);
      w := w + Le32(size);
      SetUint32(localHeader, 22, size, w);
      w := w + Le32(size);
      SetUint16(localHeader, 26, |fileNameBytes|, w);
      w := w + Le16(|fileNameBytes|);
      SetUint16(localHeader, 28, 0, w);
      w := w + Le16(0);
      Set(localHeader, fileNameBytes, LocalHeaderSize, w);
      w := w + fileNameBytes;
      assert localHeader[..] == localHeader[..LocalHeaderSize + |fileNameBytes|];
    }

    /**
     * The central directory header of a file named `fileName` with `fileSize` bytes of
     * content and checksum `crc32`, whose local record starts at `offset`.
     */
    static method CreateCentralDirectoryEntry(fileName: string, fileSize: nat, crc32: uint32, offset: nat)
      returns (header: array<byte>)
      ensures fresh(header)
      ensures header[..] == CentralRecord(Utf8(fileName), fileSize, crc32, offset)
    {
      var fileNameBytes := Utf8(fileName);
      header := new byte[CentralHeaderSize + |fileNameBytes|](_ => 0);
      SetCentralFront(header, fileSize, crc32);
      ghost var w: seq<byte> := CentralFront(fileSize, crc32);
      SetUint16(header, 28, |fileNameBytes|, w);
      w := w + Le16(|fileNameBytes|);
      SetUint16(header, 30, 0, w);
      w := w + Le16(0);
      SetUint16(header, 32, 0, w);
      w := w + Le16(0);
      SetUint16(header, 34, 0, w);
      w := w + Le16(0);
      SetUint16(header, 36, 0, w);
      w := w + Le16(0);
      SetUint32(header, 38, 0, w);
      w := w + Le32(0);
      SetUint32(header, 42, offset, w);
      w := w + Le32(offset);
      Set(header, fileNameBytes, CentralHeaderSize, w);
      w := w + fileNameBytes;
      assert header[..] == header[..CentralHeaderSize + |fileNameBytes|];
    }

    /**
     * The fields a central directory header begins with, written into the first 28 bytes of
     * `header`: signature, versions, zero flags, method, time and date, `crc32` and `fileSize`
     * twice. The bytes from 28 on stay as they were.
     */
    static method SetCentralFront(header: array<byte>, fileSize: nat, crc32: uint32)
      requires 28 <= header.Length
      modifies header
      ensures header[..28] == CentralFront(fileSize, crc32)
      ensures header[28..] == old(header[28..])
    {
      ghost var tail := header[28..];
      ghost var w: seq<byte> := [];
      SetUint32(header, 0, CentralSignature, w);
      assert header[28..] == tail;
      w := Le32(CentralSignature);
      SetUint16(header, 4, VersionMadeBy, w);
      assert header[28..] == tail;
      w := w + Le16(VersionMadeBy);
      SetUint16(header, 6, VersionNeeded, w);
      assert header[28..] == tail;
      w := w + Le16(VersionNeeded);
      SetUint16(header, 8, 0, w);
      assert header[28..] == tail;
      w := w + Le16(0);
      SetUint16(header, 10, 0, w);
      assert header[28..] == tail;
      w := w + Le16(0);
      SetUint16(header, 12, 0, w);
      assert header[28..] == tail;
      w := w + Le16(0);
      SetUint16(header, 14, 0, w);
      assert header[28..] == tail;
      w := w + Le16(0);
      SetUint32(header, 16, crc32, w);
      assert header[28..] == tail;
      w := w + Le32(crc32);
      SetUint32(header, 20, fileSize, w);
      assert header[28..] == tail;
      w := w + Le32(fileSize);
      SetUint32(header, 24, fileSize, w);
      assert header[28..] == tail;
    }

    /**
     * The end of central directory record for `fileCount` files whose central directory is
     * `centralDirSize` bytes long and starts at `centralDirOffset`.
     */
    static method CreateEndOfCentralDirectory(fileCount: nat, centralDirSize: nat, centralDirOffset: nat)
      returns (header: array<byte>)
      ensures fresh(header)
      ensures header[..] == EndRecord(fileCount, centralDirSize, centralDirOffset)
    {
      header := new byte[EndRecordSize](_ => 0);
      ghost var w: seq<byte> := [];
      SetUint32(header, 0, EndSignature, w);
      w := Le32(EndSignature);
      SetUint16(header, 4, 0, w);
      w := w + Le16(0);
      SetUint16(header, 6, 0, w);
      w := w + Le16(0);
      SetUint16(header, 8, fileCount, w);
      w := w + Le16(fileCount);
      SetUint16(header, 10, fileCount, w);
      w := w + Le16(fileCount);
      SetUint32(header, 12, centralDirSize, w);
      w := w + Le32(centralDirSize);
      SetUint32(header, 16, centralDirOffset, w);
      w := w + Le32(centralDirOffset);
      SetUint16(header, 20, 0, w);
      w := w + Le16(0);
      assert header[..] == header[..EndRecordSize];
    }

    /**
     * One fresh buffer holding the bytes of all `buffers`, one after another: each buffer is
     * copied in right where the buffers before it end.
     */
    static method ConcatenateArrayBuffers(buffers: seq<seq<byte>>) returns (result: array<byte>)
      ensures fresh(result)
      ensures result[..] == Concat(buffers)
    {
      var totalLength := 0;
      for k := 0 to |buffers|
        invariant totalLength == TotalLength(buffers[..k])
      {
        assert buffers[..k + 1][..k] == buffers[..k];
        totalLength := totalLength + |buffers[k]|;
      }
      assert buffers[..|buffers|] == buffers;

      result := new byte[totalLength](_ => 0);
      var offset := 0;
      for k := 0 to |buffers|
        invariant offset == TotalLength(buffers[..k]) <= totalLength
        invariant result[..offset] == Concat(buffers[..k])
      {
        assert buffers[..k + 1][..k] == buffers[..k];
        ConcatPlacesPart(buffers, k);
        Set(result, buffers[k], offset, Concat(buffers[..k]));
        offset := offset + |buffers[k]|;
      }
      assert result[..] == result[..offset];
    }

    /** A fresh buffer holding the bytes of `blob`. */
    static method BlobToArrayBuffer(blob: seq<byte>) returns (buffer: array<byte>)
      ensures fresh(buffer) && buffer[..] == blob
    {
      buffer := new byte[|blob|](j requires 0 <= j < |blob| => blob[j]);
    }

    /**
     * One turn of the archive loop, for the `k`-th configured size: when that size has an icon,
     * its local record joins the others and its central directory header records the offset
     * the local record starts at; otherwise nothing changes.
     */
    method AddIcon(sizes: seq<nat>, icons: map<nat, seq<byte>>, k: nat,
                   files: seq<seq<byte>>, centralDirectory: seq<seq<byte>>, offset: nat)
      returns (files': seq<seq<byte>>, centralDirectory': seq<seq<byte>>, offset': nat)
      requires Valid() && k < |sizes|
      requires Assembled(StoreAll(Emitted(sizes[..k], icons)), files, centralDirectory, offset)
      modifies this`crc32Table
      ensures Valid()
      ensures old(crc32Table) != null ==> crc32Table == old(crc32Table)
      ensures Assembled(StoreAll(Emitted(sizes[..k + 1], icons)), files', centralDirectory', offset')
    {
      StoredStep(sizes, icons, k);
      var size := sizes[k];
      if size in icons {
        files', centralDirectory', offset' :=
          AddEntry(StoreAll(Emitted(sizes[..k], icons)), FileName(size), icons[size], files, centralDirectory, offset);
      } else {
        files', centralDirectory', offset' := files, centralDirectory, offset;
      }
    }

    /**
     * One file more in the archive under construction: its local record joins the others and its
     * central directory header records the offset the local record starts at.
     */
    method AddEntry(ghost ms: seq<Member>, fileName: string, icon: seq<byte>,
                    files: seq<seq<byte>>, centralDirectory: seq<seq<byte>>, offset: nat)
      returns (files': seq<seq<byte>>, centralDirectory': seq<seq<byte>>, offset': nat)
      requires Valid()
      requires Assembled(ms, files, centralDirectory, offset)
      modifies this`crc32Table
      ensures Valid()
      ensures old(crc32Table) != null ==> crc32Table == old(crc32Table)
      ensures Assembled(ms + [Store(Entry(fileName, icon))], files', centralDirectory', offset')
    {
      var fileData := BlobToArrayBuffer(icon);
      var localFile, centralDir := CreateZipFileEntry(fileName, fileData, offset);
      AssembledSnoc(ms, Store(Entry(fileName, icon)), files, centralDirectory, offset, localFile[..], centralDir[..]);
      files' := files + [localFile[..]];
      centralDirectory' := centralDirectory + [centralDir[..]];
      offset' := offset + localFile.Length;
    }

    /**
     * The local records and central directory headers of the generated icons, in the order of
     * the configured sizes, and the total length of the local records.
     */
    method CreateZipEntries() returns (files: seq<seq<byte>>, centralDirectory: seq<seq<byte>>, offset: nat)
      requires Valid()
      modifies this`crc32Table
      ensures Valid()
      ensures old(crc32Table) != null ==> crc32Table == old(crc32Table)
      ensures Assembled(StoreAll(Emitted(sizes, generatedIcons)), files, centralDirectory, offset)
    {
      files, centralDirectory, offset := [], [], 0;
      var sizes, icons := this.sizes, this.generatedIcons;

      for k := 0 to |sizes|
        invariant Valid() && sizes == this.sizes && icons == generatedIcons
        invariant old(crc32Table) != null ==> crc32Table == old(crc32Table)
        invariant Assembled(StoreAll(Emitted(sizes[..k], icons)), files, centralDirectory, offset)
      {
        files, centralDirectory, offset := AddIcon(sizes, icons, k, files, centralDirectory, offset);
      }
      assert sizes[..|sizes|] == sizes;
    }

    /**
     * The ZIP archive of the generated icons: for every configured size that has an icon, in
     * order, its local record; then the central directory; then the end record.
     */
    method CreateZipFile() returns (zipData: array<byte>)
      requires Valid()
      modifies this`crc32Table
      ensures Valid() && fresh(zipData)
      ensures old(crc32Table) != null ==> crc32Table == old(crc32Table)
      ensures zipData[..] == Archive(StoreAll(Emitted(sizes, generatedIcons)))
    {
      var files, centralDirectory, offset := CreateZipEntries();
      ghost var ms := StoreAll(Emitted(sizes, generatedIcons));
      var centralDirData := ConcatenateArrayBuffers(centralDirectory);
      var endOfCentralDir := CreateEndOfCentralDirectory(|files|, centralDirData.Length, offset);
      var allParts := files + [centralDirData[..], endOfCentralDir[..]];
      zipData := ConcatenateArrayBuffers(allParts);
      ArchiveOfParts(ms);
    }
  }
}
