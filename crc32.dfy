/**
  CRC-32 of the stored ZIP writer (background.js crc32 and getCRC32Table):
  the reflected CRC with polynomial 0xEDB88320, initial register
  0xFFFFFFFF and final exclusive-or 0xFFFFFFFF, as section 4.4.7 of
  PKWARE's APPNOTE.TXT requires. JavaScript's `>>>`, `^` and `&` on
  32-bit values are bv32 operations, so every result lies in [0, 2^32).
*/
module Crc32 {
  const Poly: bv32 := 0xEDB88320

  /** One shift of the register, folding in the polynomial when the bit
      shifted out is set. */
  function Round(c: bv32): bv32 {
    if c & 1 == 1 then Poly ^ (c >> 1) else c >> 1
  }

  /** `n` shifts. */
  function Rounds(c: bv32, n: nat): bv32
    decreases n
  {
    if n == 0 then c else Rounds(Round(c), n - 1)
  }

  /** The number of shifts per byte. */
  const ByteBits: nat := 8

  /** The table entry for byte value `i`: `i` shifted once per bit. */
  function Entry(i: bv32): bv32 {
    Rounds(i, ByteBits)
  }

  /** One byte fed to the register through the table. */
  function Step(crc: bv32, b: bv8): bv32 {
    (crc >> 8) ^ Entry((crc ^ (b as bv32)) & 0xFF)
  }

  /** The register after the bytes of `data`. */
  function Register(data: seq<bv8>): bv32 {
    if data == [] then 0xFFFFFFFF else Step(Register(data[..|data| - 1]), data[|data| - 1])
  }

  /** The CRC-32 of `data`. */
  function Checksum(data: seq<bv8>): bv32 {
    Register(data) ^ 0xFFFFFFFF
  }

  /** Entries of the standard table: 0 for 0, the polynomial itself for
      0x80, and the published values for 1 and 0xFF. */
  lemma TableEntries()
    ensures Entry(0) == 0
    ensures Entry(1) == 0x77073096
    ensures Entry(0x80) == Poly
    ensures Entry(0xFF) == 0x2D02EF8D
  {
    assert Entry(0) == Rounds(0, 8);
    assert Entry(1) == Rounds(1, 8);
    assert Entry(0x80) == Rounds(0x80, 8);
    assert Entry(0xFF) == Rounds(0xFF, 8);
  }

  /** The 256 entries of the table, in order of byte value. */
  function Table(): (t: seq<bv32>)
    ensures |t| == 256 && forall i :: 0 <= i < 256 ==> t[i] == Entry(i as bv32)
  {
    seq(256, i requires 0 <= i < 256 => Entry(i as bv32))
  }

  /** `getCRC32Table`: entry `i` is byte value `i` shifted eight times. */
  method BuildTable() returns (table: array<bv32>)
    ensures fresh(table) && table[..] == Table()
  {
    table := new bv32[256];
    for i := 0 to 256
      invariant table[..i] == Table()[..i]
    {
      FillEntry(table, i);
    }
    assert table[..] == table[..256];
  }

  /** One pass of `getCRC32Table`'s outer loop: entry `i` is computed and
      stored after the entries before it. */
  method FillEntry(table: array<bv32>, i: nat)
    requires table.Length == 256 && i < 256
    requires table[..i] == Table()[..i]
    modifies table
    ensures table[..i + 1] == Table()[..i + 1]
  {
    var c := TableEntry(i);
    table[i] := c;
    assert table[..i + 1] == table[..i] + [c];
  }

  /** The inner loop of `getCRC32Table`: eight shifts of byte value `i`. */
  method TableEntry(i: nat) returns (c: bv32)
    requires i < 256
    ensures c == Table()[i]
  {
    c := i as bv32;
    for j := 0 to ByteBits
      invariant Rounds(c, ByteBits - j) == Entry(i as bv32)
    {
      c := if c & 1 == 1 then Poly ^ (c >> 1) else c >> 1;
    }
  }

  /** `crc32`: the table-driven loop over the bytes. */
  method Crc32(data: seq<bv8>) returns (crc: bv32)
    ensures crc == Checksum(data)
  {
    var table := BuildTable();
    var t := table[..];
    var c: bv32 := 0xFFFFFFFF;
    for i := 0 to |data|
      invariant c == Register(data[..i])
    {
      RegisterStep(data, i);
      StepByTable(t, c, data[i]);
      c := Lookup(t, c, data[i]);
    }
    assert data[..|data|] == data;
    crc := c ^ 0xFFFFFFFF;
  }

  lemma RegisterStep(data: seq<bv8>, i: nat)
    requires i < |data|
    ensures Register(data[..i + 1]) == Step(Register(data[..i]), data[i])
  {
    assert data[..i + 1][..i] == data[..i];
  }

  /** The register after byte `b`, looked up in a table `t`. */
  function Lookup(t: seq<bv32>, c: bv32, b: bv8): bv32
    requires |t| == 256
  {
    var k := (c ^ (b as bv32)) & 0xFF;
    (c >> 8) ^ t[k as int]
  }

  /** A lookup in a table built by `BuildTable` is one step of the register. */
  lemma StepByTable(t: seq<bv32>, c: bv32, b: bv8)
    requires t == Table()
    ensures Lookup(t, c, b) == Step(c, b)
  {
    var k := (c ^ (b as bv32)) & 0xFF;
    assert (k as int) as bv32 == k;
  }

  lemma CheckEntries()
    ensures Entry(0xce) == 0x7cdcefb7 && Entry(0x7a) == 0xb0d09822 && Entry(0x01) == 0x77073096
    ensures Entry(0x19) == 0x646ba8c0 && Entry(0x69) == 0x346ed9fc && Entry(0xd5) == 0xf6b9265b
    ensures Entry(0xa9) == 0xaf0a1b4c && Entry(0x58) == 0x65b0d9c6
  {
    assert Entry(0xce) == Rounds(0xce, 8) && Entry(0x7a) == Rounds(0x7a, 8) && Entry(0x01) == Rounds(0x01, 8);
    assert Entry(0x19) == Rounds(0x19, 8) && Entry(0x69) == Rounds(0x69, 8) && Entry(0xd5) == Rounds(0xd5, 8);
    assert Entry(0xa9) == Rounds(0xa9, 8) && Entry(0x58) == Rounds(0x58, 8);
  }

  /** The register after the whole of `data`, given the register before its
      last byte and the table entry that byte selects. */
  lemma Feed(data: seq<bv8>, before: bv32, e: bv32)
    requires |data| >= 1 && Register(data[..|data| - 1]) == before
    requires Entry((before ^ (data[|data| - 1] as bv32)) & 0xFF) == e
    ensures Register(data) == (before >> 8) ^ e
  {
  }

  /** The catalogue's check input, the digits "123456789". */
  const CheckInput: seq<bv8> := [0x31, 0x32, 0x33, 0x34, 0x35, 0x36, 0x37, 0x38, 0x39]

  lemma CheckFirstThree()
    ensures Register(CheckInput[..3]) == 0x77b79c2d
  {
    var d := CheckInput;
    CheckEntries();
    assert d[..1][..0] == [];
    Feed(d[..1], 0xFFFFFFFF, 0x7cdcefb7);
    assert d[..2][..1] == d[..1];
    Feed(d[..2], 0x7c231048, 0xb0d09822);
    assert d[..3][..2] == d[..2];
    Feed(d[..3], 0xb0acbb32, 0x77073096);
  }

  lemma CheckNextThree()
    ensures Register(CheckInput[..6]) == 0xf68d2c9e
  {
    var d := CheckInput;
    CheckEntries();
    CheckFirstThree();
    assert d[..4][..3] == d[..3];
    Feed(d[..4], 0x77b79c2d, 0x646ba8c0);
    assert d[..5][..4] == d[..4];
    Feed(d[..5], 0x641c1f5c, 0x346ed9fc);
    assert d[..6][..5] == d[..5];
    Feed(d[..6], 0x340ac5e3, 0xf6b9265b);
  }

  /** The check value of the CRC-32 catalogue: "123456789" gives 0xCBF43926. */
  lemma CheckValue()
    ensures Checksum(CheckInput) == 0xCBF43926
  {
    var d := CheckInput;
    CheckEntries();
    CheckNextThree();
    assert d[..7][..6] == d[..6];
    Feed(d[..7], 0xf68d2c9e, 0xaf0a1b4c);
    assert d[..8][..7] == d[..7];
    Feed(d[..8], 0xaffc9660, 0x65b0d9c6);
    assert d[..9][..8] == d[..8];
    assert d[..9] == d;
    Feed(d, 0x651f2550, 0x346ed9fc);
  }
}
