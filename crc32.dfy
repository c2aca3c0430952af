/**
 * The CRC-32 checksum that ZIP archives carry for every entry (PKWARE APPNOTE.TXT,
 * section 4.4.7): the reflected CRC with generator polynomial 0xEDB88320, the register
 * preset to all ones and complemented at the end, computed with a 256-entry table and
 * one lookup per input byte.
 *
 * JavaScript keeps the running value as a signed 32-bit integer until the final `>>> 0`;
 * the bit patterns are those of a `bv32`, which is what the model uses throughout.
 */
module Crc32 {

  import opened Bytes

  /** The reflected generator polynomial. */
  const Polynomial: bv32 := 0xEDB8_8320

  /** The value the register starts from and is XORed with at the end. */
  const AllOnes: bv32 := 0xFFFF_FFFF

  /** One bit of polynomial division: shift right, XOR the polynomial in when the bit shifted out was set. */
  function Step(c: bv32): bv32
  {
    if c & 1 == 1 then Polynomial ^ (c >> 1) else c >> 1
  }

  /** `n` division steps in a row. */
  function Steps(c: bv32, n: nat): bv32
    decreases n
  {
    if n == 0 then c else Steps(Step(c), n - 1)
  }

  /** Entry `i` of the lookup table: the value `i` after eight division steps. */
  function TableEntry(i: nat): bv32
    requires i < 0x100
  {
    Steps(i as bv32, 8)
  }

  /** The table slot one input byte selects: the low byte of the register XOR the input byte. */
  function TableIndex(crc: bv32, b: byte): (r: nat)
    ensures r < 0x100
  {
    ((crc ^ b as bv32) & 0xFF) as nat
  }

  /** One table-driven byte update: `table[(crc ^ b) & 0xFF] ^ (crc >>> 8)`. */
  function Update(crc: bv32, b: byte): bv32
  {
    TableEntry(TableIndex(crc, b)) ^ (crc >> 8)
  }

  /** The register after feeding `data`, first byte first, into it. */
  function Register(crc: bv32, data: seq<byte>): bv32
    decreases |data|
  {
    if data == [] then crc else Register(Update(crc, data[0]), data[1..])
  }

  /** The checksum of `data`: the preset register fed every byte, then complemented. */
  function Checksum(data: seq<byte>): bv32
  {
    Register(AllOnes, data) ^ AllOnes
  }

  /** One more division step on top of `n`. */
  lemma {:induction false} StepsSucc(c: bv32, n: nat)
    ensures Steps(c, n + 1) == Step(Steps(c, n))
    decreases n
  {
    if n > 0 {
      StepsSucc(Step(c), n - 1);
    }
  }

  /** Feeding the bytes of `a + b` is feeding `a`, then `b`: the register is all the state there is. */
  lemma {:induction false} RegisterAppend(crc: bv32, a: seq<byte>, b: seq<byte>)
    ensures Register(crc, a + b) == Register(Register(crc, a), b)
    decreases |a|
  {
    if a == [] {
      assert a + b == b;
    } else {
      assert (a + b)[0] == a[0];
      assert (a + b)[1..] == a[1..] + b;
      RegisterAppend(Update(crc, a[0]), a[1..], b);
    }
  }

  /**
   * The unsigned number a register's bits denote, as `x >>> 0` gives it in JavaScript.
   */
  function Unsigned(x: bv32): (r: uint32)
  {
    x as nat
  }

  /** Feeding one more byte is one more table-driven update. */
  lemma RegisterSnoc(crc: bv32, data: seq<byte>, b: byte)
    ensures Register(crc, data + [b]) == Update(Register(crc, data), b)
  {
    RegisterAppend(crc, data, [b]);
  }

  /** Feeding the first `i + 1` bytes is feeding the first `i`, then byte `i`. */
  lemma RegisterPrefixStep(crc: bv32, data: seq<byte>, i: nat)
    requires i < |data|
    ensures Register(crc, data[..i + 1]) == Update(Register(crc, data[..i]), data[i])
  {
    assert data[..i + 1] == data[..i] + [data[i]];
    RegisterSnoc(crc, data[..i], data[i]);
  }

  /** The checksum of no bytes is zero: the preset is undone by the final XOR. */
  lemma ChecksumOfEmpty()
    ensures Checksum([]) == 0
  {
  }

  /**
   * The checksum can be computed in pieces: the checksum of `a + b` continues from the
   * complemented checksum of `a`.
   */
  lemma ChecksumAppend(a: seq<byte>, b: seq<byte>)
    ensures Checksum(a + b) == Register(Checksum(a) ^ AllOnes, b) ^ AllOnes
  {
    RegisterAppend(AllOnes, a, b);
    assert Checksum(a) ^ AllOnes == Register(AllOnes, a);
  }

  /** Two entries of the published table: entry 1 is 0x77073096 and entry 128 is the polynomial itself. */
  lemma KnownTableEntries()
    ensures TableEntry(1) == 0x7707_3096
    ensures TableEntry(128) == Polynomial
  {
  }

  /** A byte update whose table slot and entry are already known. */
  lemma UpdateBy(crc: bv32, b: byte, i: nat, entry: bv32)
    requires i < 0x100 && TableIndex(crc, b) == i && TableEntry(i) == entry
    ensures Update(crc, b) == entry ^ (crc >> 8)
  {
  }

  /** Feeding a nonempty sequence is one byte update followed by feeding the rest. */
  lemma RegisterFirst(crc: bv32, data: seq<byte>, next: bv32)
    requires data != [] && Update(crc, data[0]) == next
    ensures Register(crc, data) == Register(next, data[1..])
  {
  }

  /** The register over the digits "123" from the preset, one table lookup per byte. */
  lemma CheckValueHead(d: seq<byte>)
    requires d == [0x31, 0x32, 0x33]
    ensures Register(AllOnes, d) == 0x77B7_9C2D
  {
    UpdateBy(0xFFFF_FFFF, d[0], 0xCE, 0x7CDC_EFB7);
    UpdateBy(0x7C23_1048, d[1], 0x7A, 0xB0D0_9822);
    UpdateBy(0xB0AC_BB32, d[2], 0x01, 0x7707_3096);
    RegisterFirst(0xB0AC_BB32, d[2..], 0x77B7_9C2D);
    RegisterFirst(0x7C23_1048, d[1..], 0xB0AC_BB32);
    RegisterFirst(0xFFFF_FFFF, d, 0x7C23_1048);
    assert d[3..] == [];
  }

  /** The register over the digits "456", continuing from the register after "123". */
  lemma CheckValueMiddle(d: seq<byte>)
    requires d == [0x34, 0x35, 0x36]
    ensures Register(0x77B7_9C2D, d) == 0xF68D_2C9E
  {
    UpdateBy(0x77B7_9C2D, d[0], 0x19, 0x646B_A8C0);
    UpdateBy(0x641C_1F5C, d[1], 0x69, 0x346E_D9FC);
    UpdateBy(0x340A_C5E3, d[2], 0xD5, 0xF6B9_265B);
    RegisterFirst(0x340A_C5E3, d[2..], 0xF68D_2C9E);
    RegisterFirst(0x641C_1F5C, d[1..], 0x340A_C5E3);
    RegisterFirst(0x77B7_9C2D, d, 0x641C_1F5C);
    assert d[3..] == [];
  }

  /** The register over the digits "789", continuing from the register after "123456". */
  lemma CheckValueTail(d: seq<byte>)
    requires d == [0x37, 0x38, 0x39]
    ensures Register(0xF68D_2C9E, d) == 0x340B_C6D9
  {
    UpdateBy(0xF68D_2C9E, d[0], 0xA9, 0xAF0A_1B4C);
    UpdateBy(0xAFFC_9660, d[1], 0x58, 0x65B0_D9C6);
    UpdateBy(0x651F_2550, d[2], 0x69, 0x346E_D9FC);
    RegisterFirst(0x651F_2550, d[2..], 0x340B_C6D9);
    RegisterFirst(0xAFFC_9660, d[1..], 0x651F_2550);
    RegisterFirst(0xF68D_2C9E, d, 0xAFFC_9660);
    assert d[3..] == [];
  }

  /** The standard check value: the CRC-32 of the ASCII digits "123456789" is 0xCBF43926. */
  lemma CheckValue(digits: seq<byte>)
    requires digits == [0x31, 0x32, 0x33, 0x34, 0x35, 0x36, 0x37, 0x38, 0x39]
    ensures Checksum(digits) == 0xCBF4_3926
  {
    var head, middle, tail := digits[..3], digits[3..6], digits[6..];
    assert digits == head + (middle + tail);
    CheckValueHead(head);
    CheckValueMiddle(middle);
    CheckValueTail(tail);
    RegisterAppend(AllOnes, head, middle + tail);
    RegisterAppend(0x77B7_9C2D, middle, tail);
  }
}
