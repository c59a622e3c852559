/** The table-less CRC-32 of rarUnlocker.c (`crc32_for_byte` and `crc32`):
    reflected polynomial 0xEDB88320, register starting at 0, and 0xFF000000
    folded into every per-byte step instead of inverting at both ends. */
module Crc32 {

  const Polynomial: bv32 := 0xEDB88320
  const Fold: bv32 := 0xFF000000

  /** One pass of the inner loop of `crc32_for_byte`: shift right by one and
      xor in the polynomial when the bit shifted out was clear. */
  function Round(r: bv32): bv32
  {
    (if r & 1 == 1 then 0 else Polynomial) ^ (r >> 1)
  }

  /** `k` passes of that loop. */
  function Rounds(r: bv32, k: nat): bv32
  {
    if k == 0 then r else Round(Rounds(r, k - 1))
  }

  /** `crc32_for_byte(r)`: eight passes, then the 0xFF000000 fold. */
  function ForByte(r: bv32): bv32
  {
    Rounds(r, 8) ^ Fold
  }

  /** The step of `crc32` for one data byte `b`:
      `crc32_for_byte((uint8_t)crc ^ b) ^ crc >> 8`. */
  function Update(crc: bv32, b: bv8): bv32
  {
    ForByte(TableIndex(crc, b)) ^ (crc >> 8)
  }

  /** `(uint8_t)crc ^ b`: the low byte of the register xor the data byte. */
  function TableIndex(crc: bv32, b: bv8): bv32
  {
    (((crc & 0xFF) as bv8) ^ b) as bv32
  }

  /** The CRC of a byte span: the steps applied to the bytes in order,
      starting from 0 (defined by its last byte, as the loop extends its prefix). */
  function Crc(s: seq<bv8>): bv32
  {
    if |s| == 0 then 0 else Update(Crc(s[..|s| - 1]), s[|s| - 1])
  }

  /** The steps applied to `t` from register value `c` on, first byte first. */
  function CrcFrom(c: bv32, t: seq<bv8>): bv32
    decreases |t|
  {
    if |t| == 0 then c else CrcFrom(Update(c, t[0]), t[1..])
  }

  /** Appending a byte performs exactly one more step. */
  lemma {:induction false} CrcAppend(s: seq<bv8>, b: bv8)
    ensures Crc(s + [b]) == Update(Crc(s), b)
  {
    assert (s + [b])[..|s|] == s;
  }

  /** The CRC streams: the CRC of `s + t` is what the steps over `t` make of
      the CRC of `s`. In particular the CRC of `t` is its steps from 0. */
  lemma {:induction false} CrcConcat(s: seq<bv8>, t: seq<bv8>)
    ensures Crc(s + t) == CrcFrom(Crc(s), t)
    decreases |t|
  {
    if |t| == 0 {
      assert s + t == s;
    } else {
      CrcAppend(s, t[0]);
      CrcConcat(s + [t[0]], t[1..]);
      assert s + [t[0]] + t[1..] == s + t;
    }
  }

  /** The register after eight passes, written out; used to evaluate the table on constants. */
  lemma {:induction false} EightRounds(r: bv32)
    ensures Rounds(r, 8) == Round(Round(Round(Round(Round(Round(Round(Round(r))))))))
  {
    assert Rounds(r, 1) == Round(r);
    assert Rounds(r, 2) == Round(Rounds(r, 1));
    assert Rounds(r, 3) == Round(Rounds(r, 2));
    assert Rounds(r, 4) == Round(Rounds(r, 3));
    assert Rounds(r, 5) == Round(Rounds(r, 4));
    assert Rounds(r, 6) == Round(Rounds(r, 5));
    assert Rounds(r, 7) == Round(Rounds(r, 6));
  }

  /** This is the standard CRC-32: its check value, the CRC of the ASCII
      digits "123456789", is 0xCBF43926. */
  lemma {:induction false} CheckValue()
    ensures Crc([0x31, 0x32, 0x33, 0x34, 0x35, 0x36, 0x37, 0x38, 0x39]) == 0xCBF43926
  {
    var digits: seq<bv8> := [0x31, 0x32, 0x33, 0x34, 0x35, 0x36, 0x37, 0x38, 0x39];
    CrcConcat([], digits);
    assert [] + digits == digits;
    EightRounds(0x31);
    assert Update(0x00000000, 0x31) == 0x83DCEFB7;
    EightRounds(0x85);
    assert Update(0x83DCEFB7, 0x32) == 0x4F5344CD;
    EightRounds(0xFE);
    assert Update(0x4F5344CD, 0x33) == 0x884863D2;
    EightRounds(0xE6);
    assert Update(0x884863D2, 0x34) == 0x9BE3E0A3;
    EightRounds(0x96);
    assert Update(0x9BE3E0A3, 0x35) == 0xCBF53A1C;
    EightRounds(0x2A);
    assert Update(0xCBF53A1C, 0x36) == 0x0972D361;
    EightRounds(0x56);
    assert Update(0x0972D361, 0x37) == 0x5003699F;
    EightRounds(0xA7);
    assert Update(0x5003699F, 0x38) == 0x9AE0DAAF;
    assert Update(0x9AE0DAAF, 0x39) == 0xCBF43926;
    assert CrcFrom(0, digits)
      == CrcFrom(0x83DCEFB7, digits[1..])
      == CrcFrom(0x4F5344CD, digits[2..])
      == CrcFrom(0x884863D2, digits[3..])
      == CrcFrom(0x9BE3E0A3, digits[4..])
      == CrcFrom(0xCBF53A1C, digits[5..])
      == CrcFrom(0x0972D361, digits[6..])
      == CrcFrom(0x5003699F, digits[7..])
      == CrcFrom(0x9AE0DAAF, digits[8..])
      == CrcFrom(0xCBF43926, digits[9..]);
  }

  /** `crc32_for_byte`: the eight-pass loop over the register. */
  method CrcForByte(r0: bv32) returns (r: bv32)
    ensures r == ForByte(r0)
  {
    r := r0;
    for j := 0 to 8
      invariant r == Rounds(r0, j)
    {
      r := (if r & 1 == 1 then 0 else Polynomial) ^ (r >> 1);
    }
    r := r ^ Fold;
  }

  /** `crc32(data, n_bytes)` over `buf[start .. start + n]`. */
  method Compute(buf: array<bv8>, start: nat, n: nat) returns (crc: bv32)
    requires start + n <= buf.Length
    ensures crc == Crc(buf[start..start + n])
  {
    crc := 0;
    for i := 0 to n
      invariant crc == Crc(buf[start..start + i])
    {
      assert buf[start..start + i + 1] == buf[start..start + i] + [buf[start + i]];
      CrcAppend(buf[start..start + i], buf[start + i]);
      var t := CrcForByte(TableIndex(crc, buf[start + i]));
      crc := t ^ (crc >> 8);
    }
  }
}
