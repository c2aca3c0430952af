/**
 * The three record layouts of an archive whose entries are all stored (PKWARE APPNOTE.TXT:
 * local file header, section 4.3.7; central directory header, section 4.3.12; end of
 * central directory record, section 4.3.16), and the archive the icon generator builds
 * from them.
 *
 * Every record is written as a left-to-right run of little-endian fields, which is how the
 * definitions below read; the lemmas then read each field back at its byte offset.
 */
module ZipFormat {

  import opened Bytes
  import opened Crc32
  import opened Text

  const LocalSignature: nat := 0x0403_4B50
  const CentralSignature: nat := 0x0201_4B50
  const EndSignature: nat := 0x0605_4B50

  /** "Version needed to extract" 1.0: stored entries need nothing newer. */
  const VersionNeeded: nat := 10
  /** "Version made by" 2.0, written only into the central directory. */
  const VersionMadeBy: nat := 20

  const LocalHeaderSize: nat := 30
  const CentralHeaderSize: nat := 46
  const EndRecordSize: nat := 22

  /**
   * One member of the archive as the writer stores it: its name, already encoded, its
   * content, and the checksum of the content.
   */
  datatype Member = Member(name: seq<byte>, data: seq<byte>, crc: uint32)

  /**
   * The local file header of an entry named `name` with `size` bytes of content and
   * checksum `crc`, field by field.
   */
  function LocalHeader(name: seq<byte>, size: nat, crc: uint32): seq<byte>
  {
    Le32(LocalSignature)
    + Le16(VersionNeeded)
    + Le16(0)            // general purpose flags
    + Le16(0)            // compression method: stored
    + Le16(0)            // modification time
    + Le16(0)            // modification date
    + Le32(crc)
    + Le32(size)         // compressed size
    + Le32(size)         // uncompressed size
    + Le16(|name|)
    + Le16(0)            // extra field length
    + name
  }

  /** The local record of a member: its local header followed by its content, stored as is. */
  function LocalRecord(m: Member): seq<byte>
  {
    LocalHeader(m.name, |m.data|, m.crc) + m.data
  }

  /**
   * The first 28 bytes of a central directory header, the same for every name and offset:
   * signature, versions, flags, method, time, date, checksum and both sizes.
   */
  function CentralFront(size: nat, crc: uint32): (r: seq<byte>)
    ensures |r| == 28
  {
    Le32(CentralSignature)
    + Le16(VersionMadeBy)
    + Le16(VersionNeeded)
    + Le16(0)            // general purpose flags
    + Le16(0)            // compression method: stored
    + Le16(0)            // modification time
    + Le16(0)            // modification date
    + Le32(crc)
    + Le32(size)         // compressed size
    + Le32(size)         // uncompressed size
  }

  /**
   * The central directory header of an entry named `name` with `size` bytes of content and
   * checksum `crc`, whose local record starts `offset` bytes from the start of the archive,
   * field by field.
   */
  function CentralRecord(name: seq<byte>, size: nat, crc: uint32, offset: nat): seq<byte>
  {
    CentralFront(size, crc)
    + Le16(|name|)
    + Le16(0)            // extra field length
    + Le16(0)            // file comment length
    + Le16(0)            // disk number start
    + Le16(0)            // internal file attributes
    + Le32(0)            // external file attributes
    + Le32(offset)       // relative offset of the local header
    + name
  }

  /**
   * The end of central directory record of a single-disk archive with `count` entries whose
   * central directory is `size` bytes long and starts at `offset`.
   */
  function EndRecord(count: nat, size: nat, offset: nat): (r: seq<byte>)
    ensures |r| == EndRecordSize
  {
    Le32(EndSignature)
    + Le16(0)            // number of this disk
    + Le16(0)            // disk where the central directory starts
    + Le16(count)        // entries on this disk
    + Le16(count)        // entries in total
    + Le32(size)
    + Le32(offset)
    + Le16(0)            // comment length
  }

  /**
   * The local header is 30 bytes plus the name; it starts with its signature and version,
   * has zero flags at 6, says "stored" in the method field at 8, zero time and date at 10
   * and 12, holds `crc` at 14, `size` (modulo 2^32) in both
   * size fields at 18 and 22, the name length (modulo 2^16) at 26 and a zero extra-field
   * length at 28, and ends with the name.
   */
  lemma LocalHeaderLayout(name: seq<byte>, size: nat, crc: uint32)
    ensures |LocalHeader(name, size, crc)| == LocalHeaderSize + |name|
    ensures ReadLe32(LocalHeader(name, size, crc), 0) == LocalSignature
    ensures ReadLe16(LocalHeader(name, size, crc), 4) == VersionNeeded
    ensures ReadLe16(LocalHeader(name, size, crc), 6) == 0
    ensures ReadLe16(LocalHeader(name, size, crc), 8) == 0
    ensures ReadLe16(LocalHeader(name, size, crc), 10) == 0
    ensures ReadLe16(LocalHeader(name, size, crc), 12) == 0
    ensures ReadLe32(LocalHeader(name, size, crc), 14) == crc
    ensures ReadLe32(LocalHeader(name, size, crc), 18) == size % Two32
    ensures ReadLe32(LocalHeader(name, size, crc), 22) == size % Two32
    ensures ReadLe16(LocalHeader(name, size, crc), 26) == |name| % Two16
    ensures ReadLe16(LocalHeader(name, size, crc), 28) == 0
    ensures LocalHeader(name, size, crc)[LocalHeaderSize..] == name
  {
    var h := LocalHeader(name, size, crc);
    Le32RoundTrip(LocalSignature);
    assert ReadLe32(h, 0) == ReadLe32(Le32(LocalSignature), 0);
    Le16RoundTrip(VersionNeeded);
    assert ReadLe16(h, 4) == ReadLe16(Le16(VersionNeeded), 0);
    Le16RoundTrip(0);
    assert ReadLe16(h, 6) == ReadLe16(Le16(0), 0);
    assert ReadLe16(h, 8) == ReadLe16(Le16(0), 0);
    assert ReadLe16(h, 10) == ReadLe16(Le16(0), 0);
    assert ReadLe16(h, 12) == ReadLe16(Le16(0), 0);
    assert ReadLe16(h, 28) == ReadLe16(Le16(0), 0);
    Le32RoundTrip(crc);
    ModOfSum32(crc, 0, crc);
    assert ReadLe32(h, 14) == ReadLe32(Le32(crc), 0);
    Le32RoundTrip(size);
    assert ReadLe32(h, 18) == ReadLe32(Le32(size), 0);
    assert ReadLe32(h, 22) == ReadLe32(Le32(size), 0);
    Le16RoundTrip(|name|);
    assert ReadLe16(h, 26) == ReadLe16(Le16(|name|), 0);
  }

  /**
   * The local record is 30 bytes plus name plus content. Its header holds the member's
   * checksum at 14 and the content length (modulo 2^32) in both size fields, and the content
   * follows the name unchanged.
   */
  lemma LocalRecordLayout(m: Member)
    ensures |LocalRecord(m)| == LocalHeaderSize + |m.name| + |m.data|
    ensures ReadLe32(LocalRecord(m), 0) == LocalSignature
    ensures ReadLe32(LocalRecord(m), 14) == m.crc
    ensures ReadLe32(LocalRecord(m), 18) == |m.data| % Two32
    ensures ReadLe32(LocalRecord(m), 22) == |m.data| % Two32
    ensures ReadLe16(LocalRecord(m), 26) == |m.name| % Two16
    ensures LocalRecord(m)[LocalHeaderSize..LocalHeaderSize + |m.name|] == m.name
    ensures LocalRecord(m)[LocalHeaderSize + |m.name|..] == m.data
  {
    var h := LocalHeader(m.name, |m.data|, m.crc);
    LocalHeaderLayout(m.name, |m.data|, m.crc);
    ReadInFirst(h, m.data, 0);
    ReadInFirst(h, m.data, 14);
    ReadInFirst(h, m.data, 18);
    ReadInFirst(h, m.data, 22);
    ReadInFirst(h, m.data, 26);
    assert (h + m.data)[LocalHeaderSize..LocalHeaderSize + |m.name|] == h[LocalHeaderSize..];
  }

  /** The first fields of a central directory header: signature, versions, flags, method, time, date. */
  lemma CentralRecordFront(name: seq<byte>, size: nat, crc: uint32, offset: nat)
    ensures |CentralRecord(name, size, crc, offset)| == CentralHeaderSize + |name|
    ensures ReadLe32(CentralRecord(name, size, crc, offset), 0) == CentralSignature
    ensures ReadLe16(CentralRecord(name, size, crc, offset), 4) == VersionMadeBy
    ensures ReadLe16(CentralRecord(name, size, crc, offset), 6) == VersionNeeded
    ensures ReadLe16(CentralRecord(name, size, crc, offset), 8) == 0
    ensures ReadLe16(CentralRecord(name, size, crc, offset), 10) == 0
    ensures ReadLe16(CentralRecord(name, size, crc, offset), 12) == 0
    ensures ReadLe16(CentralRecord(name, size, crc, offset), 14) == 0
  {
    var c := CentralRecord(name, size, crc, offset);
    Le32RoundTrip(CentralSignature);
    assert ReadLe32(c, 0) == ReadLe32(Le32(CentralSignature), 0);
    Le16RoundTrip(VersionMadeBy);
    assert ReadLe16(c, 4) == ReadLe16(Le16(VersionMadeBy), 0);
    Le16RoundTrip(VersionNeeded);
    assert ReadLe16(c, 6) == ReadLe16(Le16(VersionNeeded), 0);
    Le16RoundTrip(0);
    assert ReadLe16(c, 8) == ReadLe16(Le16(0), 0);
    assert ReadLe16(c, 10) == ReadLe16(Le16(0), 0);
    assert ReadLe16(c, 12) == ReadLe16(Le16(0), 0);
    assert ReadLe16(c, 14) == ReadLe16(Le16(0), 0);
  }

  /** The middle fields of a central directory header: checksum, sizes, name length. */
  lemma CentralRecordMiddle(name: seq<byte>, size: nat, crc: uint32, offset: nat)
    ensures |CentralRecord(name, size, crc, offset)| == CentralHeaderSize + |name|
    ensures ReadLe32(CentralRecord(name, size, crc, offset), 16) == crc
    ensures ReadLe32(CentralRecord(name, size, crc, offset), 20) == size % Two32
    ensures ReadLe32(CentralRecord(name, size, crc, offset), 24) == size % Two32
    ensures ReadLe16(CentralRecord(name, size, crc, offset), 28) == |name| % Two16
  {
    var c := CentralRecord(name, size, crc, offset);
    Le32RoundTrip(crc);
    ModOfSum32(crc, 0, crc);
    assert ReadLe32(c, 16) == ReadLe32(Le32(crc), 0);
    Le32RoundTrip(size);
    assert ReadLe32(c, 20) == ReadLe32(Le32(size), 0);
    assert ReadLe32(c, 24) == ReadLe32(Le32(size), 0);
    Le16RoundTrip(|name|);
    assert ReadLe16(c, 28) == ReadLe16(Le16(|name|), 0);
  }

  /** The last fields of a central directory header: extra and comment lengths, disk, attributes, offset, name. */
  lemma CentralRecordBack(name: seq<byte>, size: nat, crc: uint32, offset: nat)
    ensures |CentralRecord(name, size, crc, offset)| == CentralHeaderSize + |name|
    ensures ReadLe16(CentralRecord(name, size, crc, offset), 30) == 0
    ensures ReadLe16(CentralRecord(name, size, crc, offset), 32) == 0
    ensures ReadLe16(CentralRecord(name, size, crc, offset), 34) == 0
    ensures ReadLe16(CentralRecord(name, size, crc, offset), 36) == 0
    ensures ReadLe32(CentralRecord(name, size, crc, offset), 38) == 0
    ensures ReadLe32(CentralRecord(name, size, crc, offset), 42) == offset % Two32
    ensures CentralRecord(name, size, crc, offset)[CentralHeaderSize..] == name
  {
    var c := CentralRecord(name, size, crc, offset);
    Le16RoundTrip(0);
    assert ReadLe16(c, 30) == ReadLe16(Le16(0), 0);
    assert ReadLe16(c, 32) == ReadLe16(Le16(0), 0);
    assert ReadLe16(c, 34) == ReadLe16(Le16(0), 0);
    assert ReadLe16(c, 36) == ReadLe16(Le16(0), 0);
    Le32RoundTrip(0);
    assert ReadLe32(c, 38) == ReadLe32(Le32(0), 0);
    Le32RoundTrip(offset);
    assert ReadLe32(c, 42) == ReadLe32(Le32(offset), 0);
  }

  /**
   * The central directory header is 46 bytes plus the name; it starts with its signature and
   * versions, has zero flags at 8, says "stored" in the method field at 10, zero time and date
   * at 12 and 14, holds the member's checksum and sizes at 16, 20 and 24, the name length at
   * 28, zero extra-field and comment lengths, disk number and attributes from 30 to 41, the
   * local record's offset (modulo 2^32) at 42, and ends with the name.
   */
  lemma CentralRecordLayout(name: seq<byte>, size: nat, crc: uint32, offset: nat)
    ensures |CentralRecord(name, size, crc, offset)| == CentralHeaderSize + |name|
    ensures ReadLe32(CentralRecord(name, size, crc, offset), 0) == CentralSignature
    ensures ReadLe16(CentralRecord(name, size, crc, offset), 4) == VersionMadeBy
    ensures ReadLe16(CentralRecord(name, size, crc, offset), 6) == VersionNeeded
    ensures ReadLe16(CentralRecord(name, size, crc, offset), 8) == 0
    ensures ReadLe16(CentralRecord(name, size, crc, offset), 10) == 0
    ensures ReadLe16(CentralRecord(name, size, crc, offset), 12) == 0
    ensures ReadLe16(CentralRecord(name, size, crc, offset), 14) == 0
    ensures ReadLe32(CentralRecord(name, size, crc, offset), 16) == crc
    ensures ReadLe32(CentralRecord(name, size, crc, offset), 20) == size % Two32
    ensures ReadLe32(CentralRecord(name, size, crc, offset), 24) == size % Two32
    ensures ReadLe16(CentralRecord(name, size, crc, offset), 28) == |name| % Two16
    ensures ReadLe16(CentralRecord(name, size, crc, offset), 30) == 0
    ensures ReadLe16(CentralRecord(name, size, crc, offset), 32) == 0
    ensures ReadLe16(CentralRecord(name, size, crc, offset), 34) == 0
    ensures ReadLe16(CentralRecord(name, size, crc, offset), 36) == 0
    ensures ReadLe32(CentralRecord(name, size, crc, offset), 38) == 0
    ensures ReadLe32(CentralRecord(name, size, crc, offset), 42) == offset % Two32
    ensures CentralRecord(name, size, crc, offset)[CentralHeaderSize..] == name
  {
    CentralRecordFront(name, size, crc, offset);
    CentralRecordMiddle(name, size, crc, offset);
    CentralRecordBack(name, size, crc, offset);
  }

  /**
   * The end record is exactly 22 bytes: its signature, disk numbers zero, the entry count
   * (modulo 2^16) in both count fields, the central directory's size and offset (modulo
   * 2^32) at 12 and 16, and a zero comment length.
   */
  lemma EndRecordLayout(count: nat, size: nat, offset: nat)
    ensures ReadLe32(EndRecord(count, size, offset), 0) == EndSignature
    ensures ReadLe16(EndRecord(count, size, offset), 4) == 0
    ensures ReadLe16(EndRecord(count, size, offset), 6) == 0
    ensures ReadLe16(EndRecord(count, size, offset), 8) == count % Two16
    ensures ReadLe16(EndRecord(count, size, offset), 10) == count % Two16
    ensures ReadLe32(EndRecord(count, size, offset), 12) == size % Two32
    ensures ReadLe32(EndRecord(count, size, offset), 16) == offset % Two32
    ensures ReadLe16(EndRecord(count, size, offset), 20) == 0
  {
    var e := EndRecord(count, size, offset);
    Le32RoundTrip(EndSignature);
    assert ReadLe32(e, 0) == ReadLe32(Le32(EndSignature), 0);
    Le16RoundTrip(0);
    assert ReadLe16(e, 4) == ReadLe16(Le16(0), 0);
    assert ReadLe16(e, 6) == ReadLe16(Le16(0), 0);
    assert ReadLe16(e, 20) == ReadLe16(Le16(0), 0);
    Le16RoundTrip(count);
    assert ReadLe16(e, 8) == ReadLe16(Le16(count), 0);
    assert ReadLe16(e, 10) == ReadLe16(Le16(count), 0);
    Le32RoundTrip(size);
    assert ReadLe32(e, 12) == ReadLe32(Le32(size), 0);
    Le32RoundTrip(offset);
    assert ReadLe32(e, 16) == ReadLe32(Le32(offset), 0);
  }

  // ---------------------------------------------------------------------------
  // The archive

  /** The name an icon of `size` pixels is stored under: `icon{size}.png`. */
  function FileName(size: nat): string
  {
    "icon" + DecimalString(size) + ".png"
  }

  /**
   * An icon's name is plain ASCII, so its encoding takes one byte per character: the name
   * length field holds 8 plus the number of decimal digits of the size.
   */
  lemma FileNameEncoding(size: nat)
    ensures IsAscii(FileName(size))
    ensures |Utf8(FileName(size))| == 8 + |DecimalString(size)|
  {
    var digits := DecimalString(size);
    var name := FileName(size);
    forall i | 0 <= i < |name|
      ensures (name[i] as int) < 0x80
    {
      if 4 <= i < 4 + |digits| {
        assert name[i] == digits[i - 4];
      }
    }
    AsciiEncoding(name);
  }

  /** One file of the archive before it is stored: its name and its content. */
  datatype Entry = Entry(name: string, data: seq<byte>)

  /**
   * The entries the archive holds for the configured `sizes`, in that order: one for every
   * size that has a generated icon, named after the size; a size without one is skipped.
   */
  function Emitted(sizes: seq<nat>, icons: map<nat, seq<byte>>): (es: seq<Entry>)
    ensures |es| <= |sizes|
  {
    if sizes == [] then []
    else
      var init := Emitted(sizes[..|sizes| - 1], icons);
      var size := sizes[|sizes| - 1];
      if size in icons then init + [Entry(FileName(size), icons[size])] else init
  }

  /** An entry as it is stored: its name encoded as UTF-8 and the checksum of its content. */
  function Store(e: Entry): Member
  {
    Member(Utf8(e.name), e.data, Unsigned(Checksum(e.data)))
  }

  /** Every entry stored, in order. */
  function StoreAll(es: seq<Entry>): (ms: seq<Member>)
    ensures |ms| == |es|
  {
    if es == [] then [] else StoreAll(es[..|es| - 1]) + [Store(es[|es| - 1])]
  }

  /** The local records of the members, in order. */
  function Locals(ms: seq<Member>): (ls: seq<seq<byte>>)
    ensures |ls| == |ms|
  {
    if ms == [] then [] else Locals(ms[..|ms| - 1]) + [LocalRecord(ms[|ms| - 1])]
  }

  /** Where the local record of member `i` begins: after the local records of the members before it. */
  function LocalOffset(ms: seq<Member>, i: nat): nat
    requires i <= |ms|
  {
    TotalLength(Locals(ms[..i]))
  }

  /**
   * The central directory headers of the members, in order, each pointing at the offset of
   * its local record.
   */
  function Centrals(ms: seq<Member>): (cs: seq<seq<byte>>)
    ensures |cs| == |ms|
  {
    if ms == [] then []
    else
      var init := ms[..|ms| - 1];
      var last := ms[|ms| - 1];
      Centrals(init) + [CentralRecord(last.name, |last.data|, last.crc, TotalLength(Locals(init)))]
  }
  /**
   * The pieces of an archive under construction for `ms`: their local records, their central
   * directory headers, and the number of bytes the local records take up.
   */
  predicate Assembled(ms: seq<Member>, locals: seq<seq<byte>>, centrals: seq<seq<byte>>, offset: nat)
  {
    locals == Locals(ms) && centrals == Centrals(ms) && offset == TotalLength(locals)
  }


  /**
   * An archive put together from its parts: the local records, then the central directory,
   * then the end record that counts `count` entries and locates the central directory right
   * after the local records.
   */
  function Assemble(locals: seq<seq<byte>>, centralDir: seq<byte>, count: nat): (a: seq<byte>)
    ensures |a| == TotalLength(locals) + |centralDir| + EndRecordSize
  {
    Concat(locals) + centralDir + EndRecord(count, |centralDir|, TotalLength(locals))
  }

  /** The archive of the members: their local records, their central directory and the end record. */
  function Archive(ms: seq<Member>): seq<byte>
  {
    Assemble(Locals(ms), Concat(Centrals(ms)), |ms|)
  }

  /** Emitting for one more size adds that size's entry exactly when it has an icon. */
  lemma EmittedStep(sizes: seq<nat>, icons: map<nat, seq<byte>>, k: nat)
    requires k < |sizes|
    ensures sizes[k] in icons ==>
              Emitted(sizes[..k + 1], icons) == Emitted(sizes[..k], icons) + [Entry(FileName(sizes[k]), icons[sizes[k]])]
    ensures sizes[k] !in icons ==> Emitted(sizes[..k + 1], icons) == Emitted(sizes[..k], icons)
  {
    assert sizes[..k + 1][..k] == sizes[..k];
  }

  /** Storing one more entry appends its member. */
  lemma StoreAllSnoc(es: seq<Entry>, e: Entry)
    ensures StoreAll(es + [e]) == StoreAll(es) + [Store(e)]
  {
    assert (es + [e])[..|es|] == es;
  }

  /** Member `k` is entry `k` as it is stored. */
  lemma {:induction false} StoreAllAt(es: seq<Entry>, k: nat)
    requires k < |es|
    ensures StoreAll(es)[k] == Store(es[k])
    decreases |es|
  {
    if k < |es| - 1 {
      StoreAllAt(es[..|es| - 1], k);
    }
  }

  /** One more member appends its local record. */
  lemma LocalsSnoc(ms: seq<Member>, m: Member)
    ensures Locals(ms + [m]) == Locals(ms) + [LocalRecord(m)]
  {
    assert (ms + [m])[..|ms|] == ms;
  }

  /** One more member appends its central record, pointing just past the local records before it. */
  lemma CentralsSnoc(ms: seq<Member>, m: Member)
    ensures Centrals(ms + [m]) == Centrals(ms) + [CentralRecord(m.name, |m.data|, m.crc, TotalLength(Locals(ms)))]
  {
    assert (ms + [m])[..|ms|] == ms;
  }

  /**
   * Pushing member `m`'s local record and its central record, made at the current offset,
   * keeps the pieces assembled: the offset then grows by exactly the local record's length.
   */
  lemma AssembledSnoc(ms: seq<Member>, m: Member, locals: seq<seq<byte>>, centrals: seq<seq<byte>>, offset: nat,
                      local: seq<byte>, central: seq<byte>)
    requires Assembled(ms, locals, centrals, offset)
    requires local == LocalRecord(m) && central == CentralRecord(m.name, |m.data|, m.crc, offset)
    ensures Assembled(ms + [m], locals + [local], centrals + [central], offset + |local|)
  {
    LocalsSnoc(ms, m);
    CentralsSnoc(ms, m);
    assert (locals + [local])[..|locals|] == locals;
  }

  /** The members stored for one more configured size: its icon's member, if it has an icon. */
  lemma StoredStep(sizes: seq<nat>, icons: map<nat, seq<byte>>, k: nat)
    requires k < |sizes|
    ensures sizes[k] in icons ==>
              StoreAll(Emitted(sizes[..k + 1], icons))
              == StoreAll(Emitted(sizes[..k], icons)) + [Store(Entry(FileName(sizes[k]), icons[sizes[k]]))]
    ensures sizes[k] !in icons ==> StoreAll(Emitted(sizes[..k + 1], icons)) == StoreAll(Emitted(sizes[..k], icons))
  {
    EmittedStep(sizes, icons, k);
    if sizes[k] in icons {
      StoreAllSnoc(Emitted(sizes[..k], icons), Entry(FileName(sizes[k]), icons[sizes[k]]));
    }
  }

  /** Different sizes are stored under different names. */
  lemma FileNameInjective(a: nat, b: nat)
    requires FileName(a) == FileName(b)
    ensures a == b
  {
    var fa, fb := FileName(a), FileName(b);
    assert fa[4..|fa| - 4] == DecimalString(a);
    assert fb[4..|fb| - 4] == DecimalString(b);
    DecimalStringInjective(a, b);
  }

  /**
   * An entry is emitted exactly when it is the icon of one of the configured sizes that has
   * a generated icon, under that size's name.
   */
  lemma {:induction false} EmittedMembers(sizes: seq<nat>, icons: map<nat, seq<byte>>, e: Entry)
    ensures e in Emitted(sizes, icons) <==>
            exists size :: size in sizes && size in icons && e == Entry(FileName(size), icons[size])
    decreases |sizes|
  {
    if sizes != [] {
      var init, last := sizes[..|sizes| - 1], sizes[|sizes| - 1];
      assert sizes == init + [last];
      EmittedMembers(init, icons, e);
      if exists size :: size in sizes && size in icons && e == Entry(FileName(size), icons[size]) {
        var size :| size in sizes && size in icons && e == Entry(FileName(size), icons[size]);
        if size != last {
          assert size in init;
        }
      }
    }
  }

  /** Emitting for two runs of sizes one after the other emits the two runs' entries in that order. */
  lemma {:induction false} EmittedAppend(a: seq<nat>, b: seq<nat>, icons: map<nat, seq<byte>>)
    ensures Emitted(a + b, icons) == Emitted(a, icons) + Emitted(b, icons)
    decreases |b|
  {
    if b == [] {
      assert a + b == a;
    } else {
      var init := b[..|b| - 1];
      assert (a + b)[..|a + b| - 1] == a + init;
      assert (a + b)[|a + b| - 1] == b[|b| - 1];
      EmittedAppend(a, init, icons);
    }
  }

  /** When every configured size has an icon, entry `k` is the icon of the `k`-th size. */
  lemma {:induction false} EmittedEveryIcon(sizes: seq<nat>, icons: map<nat, seq<byte>>)
    requires forall size :: size in sizes ==> size in icons
    ensures |Emitted(sizes, icons)| == |sizes|
    ensures forall k :: 0 <= k < |sizes| ==>
              Emitted(sizes, icons)[k] == Entry(FileName(sizes[k]), icons[sizes[k]])
    decreases |sizes|
  {
    if sizes != [] {
      var init, last := sizes[..|sizes| - 1], sizes[|sizes| - 1];
      assert last in sizes;
      assert forall size :: size in init ==> size in sizes;
      EmittedEveryIcon(init, icons);
      var es := Emitted(sizes, icons);
      assert es == Emitted(init, icons) + [Entry(FileName(last), icons[last])];
      forall k | 0 <= k < |sizes|
        ensures es[k] == Entry(FileName(sizes[k]), icons[sizes[k]])
      {
        if k < |init| {
          assert init[k] == sizes[k];
        }
      }
    }
  }

  /** The local records of a prefix of the members are the prefix of the local records. */
  lemma {:induction false} LocalsPrefix(ms: seq<Member>, i: nat)
    requires i <= |ms|
    ensures Locals(ms)[..i] == Locals(ms[..i])
    decreases |ms|
  {
    if i < |ms| {
      var init := ms[..|ms| - 1];
      assert init[..i] == ms[..i];
      LocalsPrefix(init, i);
      assert Locals(ms)[..i] == Locals(init)[..i];
    } else {
      assert ms[..i] == ms;
    }
  }

  /** Local record `k` is the local record of member `k`. */
  lemma LocalsAt(ms: seq<Member>, k: nat)
    requires k < |ms|
    ensures Locals(ms)[k] == LocalRecord(ms[k])
  {
    LocalsPrefix(ms, k + 1);
    assert ms[..k + 1][k] == ms[k];
    assert Locals(ms)[k] == Locals(ms)[..k + 1][k];
  }

  /** The central records of a prefix of the members are the prefix of the central records. */
  lemma {:induction false} CentralsPrefix(ms: seq<Member>, i: nat)
    requires i <= |ms|
    ensures Centrals(ms)[..i] == Centrals(ms[..i])
    decreases |ms|
  {
    if i < |ms| {
      var init := ms[..|ms| - 1];
      assert init[..i] == ms[..i];
      CentralsPrefix(init, i);
      assert Centrals(ms)[..i] == Centrals(init)[..i];
    } else {
      assert ms[..i] == ms;
    }
  }

  /** Central record `k` describes member `k` and points at the offset of its local record. */
  lemma CentralsAt(ms: seq<Member>, k: nat)
    requires k < |ms|
    ensures Centrals(ms)[k] == CentralRecord(ms[k].name, |ms[k].data|, ms[k].crc, LocalOffset(ms, k))
  {
    CentralsPrefix(ms, k + 1);
    var pre := ms[..k + 1];
    assert pre[k] == ms[k];
    assert pre[..k] == ms[..k];
    assert Centrals(ms)[k] == Centrals(pre)[k];
  }

  /**
   * Local record `i` (the local record of member `i`, by `LocalsAt`) sits in the archive,
   * unchanged, at its local offset: right after the local records of the members before it.
   * Central record `i` stores that offset modulo 2^32 (`CentralLocatesLocal`).
   */
  lemma ArchiveLocalPlaced(ms: seq<Member>, i: nat)
    requires i < |ms|
    ensures LocalOffset(ms, i) + |Locals(ms)[i]| <= TotalLength(Locals(ms))
    ensures Archive(ms)[LocalOffset(ms, i)..LocalOffset(ms, i) + |Locals(ms)[i]|] == Locals(ms)[i]
  {
    var ls, cd := Locals(ms), Concat(Centrals(ms));
    LocalsPrefix(ms, i);
    PartInFront(ls, i, cd, EndRecord(|ms|, |cd|, TotalLength(ls)));
  }

  /** Part `i` of the central directory sits in the assembled archive, unchanged, after the local records and the parts before it. */
  lemma AssemblePlacesCentral(locals: seq<seq<byte>>, parts: seq<seq<byte>>, count: nat, i: nat)
    requires i < |parts|
    ensures TotalLength(locals) + TotalLength(parts[..i]) + |parts[i]| <= |Assemble(locals, Concat(parts), count)|
    ensures Assemble(locals, Concat(parts), count)
              [TotalLength(locals) + TotalLength(parts[..i])..TotalLength(locals) + TotalLength(parts[..i]) + |parts[i]|]
            == parts[i]
  {
    PartInMiddle(Concat(locals), parts, i, EndRecord(count, TotalLength(parts), TotalLength(locals)));
  }

  /**
   * Central record `i` carries the same checksum and sizes as member `i`'s local header and
   * records (modulo 2^32) the offset of member `i`'s local record: the total length of the
   * local records before it.
   */
  lemma CentralDescribesMember(ms: seq<Member>, i: nat)
    requires i < |ms|
    ensures |Centrals(ms)[i]| == CentralHeaderSize + |ms[i].name|
    ensures ReadLe32(Centrals(ms)[i], 0) == CentralSignature
    ensures ReadLe32(Centrals(ms)[i], 16) == ms[i].crc
    ensures ReadLe32(Centrals(ms)[i], 20) == |ms[i].data| % Two32
    ensures ReadLe32(Centrals(ms)[i], 24) == |ms[i].data| % Two32
    ensures ReadLe16(Centrals(ms)[i], 28) == |ms[i].name| % Two16
    ensures ReadLe32(Centrals(ms)[i], 42) == LocalOffset(ms, i) % Two32
    ensures Centrals(ms)[i][CentralHeaderSize..] == ms[i].name
  {
    CentralsAt(ms, i);
    CentralRecordLayout(ms[i].name, |ms[i].data|, ms[i].crc, LocalOffset(ms, i));
  }

  /**
   * Following central record `i`'s offset field leads to member `i`'s local record: as long
   * as that record starts within the first 4 GiB, the offset stored at 42 is exactly the
   * position at which the record sits, unchanged, in the archive.
   */
  lemma CentralLocatesLocal(ms: seq<Member>, i: nat)
    requires i < |ms| && LocalOffset(ms, i) < Two32
    ensures |Centrals(ms)[i]| == CentralHeaderSize + |ms[i].name|
    ensures ReadLe32(Centrals(ms)[i], 42) == LocalOffset(ms, i)
    ensures LocalOffset(ms, i) + |Locals(ms)[i]| <= |Archive(ms)|
    ensures Archive(ms)[LocalOffset(ms, i)..LocalOffset(ms, i) + |Locals(ms)[i]|] == Locals(ms)[i]
  {
    CentralDescribesMember(ms, i);
    ModOfSum32(LocalOffset(ms, i), 0, LocalOffset(ms, i));
    ArchiveLocalPlaced(ms, i);
  }

  /**
   * An assembled archive is the local records, the central directory and the 22-byte end
   * record, laid end to end; the end record counts the entries (modulo 2^16) in both count
   * fields and gives the central directory's size and its offset, which is where the local
   * records end (both modulo 2^32).
   */
  lemma AssembleLayout(locals: seq<seq<byte>>, centralDir: seq<byte>, count: nat)
    ensures Assemble(locals, centralDir, count)[..TotalLength(locals)] == Concat(locals)
    ensures Assemble(locals, centralDir, count)[TotalLength(locals)..TotalLength(locals) + |centralDir|]
            == centralDir
    ensures var a := Assemble(locals, centralDir, count);
            && ReadLe32(a, |a| - EndRecordSize) == EndSignature
            && ReadLe16(a, |a| - EndRecordSize + 8) == count % Two16
            && ReadLe16(a, |a| - EndRecordSize + 10) == count % Two16
            && ReadLe32(a, |a| - EndRecordSize + 12) == |centralDir| % Two32
            && ReadLe32(a, |a| - EndRecordSize + 16) == TotalLength(locals) % Two32
            && ReadLe16(a, |a| - EndRecordSize + 20) == 0
  {
    var ls := Concat(locals);
    var end := EndRecord(count, |centralDir|, |ls|);
    EndRecordLayout(count, |centralDir|, |ls|);
    ThreeParts(ls, centralDir, end);
    ReadInLast(ls + centralDir, end, 0);
    ReadInLast(ls + centralDir, end, 8);
    ReadInLast(ls + centralDir, end, 12);
    ReadInLast(ls + centralDir, end, 16);
    ReadInLast(ls + centralDir, end, 18);
  }

  /**
   * The archive of the members is the concatenation of their local records, then one part
   * holding their central directory, then one part holding the end record.
   */
  lemma ArchiveOfParts(ms: seq<Member>)
    ensures Concat(Locals(ms) + [Concat(Centrals(ms)), EndRecord(|ms|, |Concat(Centrals(ms))|, TotalLength(Locals(ms)))])
            == Archive(ms)
  {
    var ls, cd := Locals(ms), Concat(Centrals(ms));
    var end := EndRecord(|ms|, |cd|, TotalLength(ls));
    assert ls + [cd, end] == (ls + [cd]) + [end];
    ConcatSnoc(ls + [cd], end);
    ConcatSnoc(ls, cd);
  }
}
