/** The receiver's checksum: CRC-16/XMODEM (polynomial 0x1021, initial value
    0, most significant bit first, no final XOR), computed by a Z80 routine
    that keeps the CRC in the register pair DE. */
module Xmodem {
  import Catalogue

  /** The generator polynomial x^16 + x^12 + x^5 + 1. */
  const Poly: bv16 := 0x1021

  /** One bit of the shift register: shift left, folding in the polynomial
      when the bit shifted out was set. */
  function ShiftBit(crc: bv16): bv16 {
    if crc >> 15 == 1 then (crc << 1) ^ Poly else crc << 1
  }

  function ShiftBits(crc: bv16, n: nat): bv16 {
    if n == 0 then crc else ShiftBit(ShiftBits(crc, n - 1))
  }

  /** Feed one byte, most significant bit first. */
  function UpdateByte(crc: bv16, b: bv8): bv16 {
    ShiftBits(crc ^ ((b as bv16) << 8), 8)
  }

  lemma UpdateByteUnfolded(crc: bv16, b: bv8)
    ensures var x := crc ^ ((b as bv16) << 8);
      UpdateByte(crc, b)
      == ShiftBit(ShiftBit(ShiftBit(ShiftBit(ShiftBit(ShiftBit(ShiftBit(ShiftBit(x))))))))
  {
    var x := crc ^ ((b as bv16) << 8);
    assert ShiftBits(x, 1) == ShiftBit(x);
    assert ShiftBits(x, 2) == ShiftBit(ShiftBits(x, 1));
    assert ShiftBits(x, 3) == ShiftBit(ShiftBits(x, 2));
    assert ShiftBits(x, 4) == ShiftBit(ShiftBits(x, 3));
    assert ShiftBits(x, 5) == ShiftBit(ShiftBits(x, 4));
    assert ShiftBits(x, 6) == ShiftBit(ShiftBits(x, 5));
    assert ShiftBits(x, 7) == ShiftBit(ShiftBits(x, 6));
  }

  /** CRC-16/XMODEM of `data`, bytes taken in order. */
  function Crc(data: seq<bv8>): bv16 {
    if |data| == 0 then 0 else UpdateByte(Crc(data[..|data| - 1]), data[|data| - 1])
  }

  lemma CrcSnoc(s: seq<bv8>, i: nat)
    requires i < |s|
    ensures Crc(s[..i + 1]) == UpdateByte(Crc(s[..i]), s[i])
  {
    assert s[..i + 1][..i] == s[..i];
  }

  /** The CRC after each prefix of the check input. */
  const CheckTrace: seq<bv16> := [0x0000, 0x2672, 0x20B5, 0x9752, 0xD789, 0x546C, 0x20E4, 0x86D6, 0x9015, 0x31C3]

  lemma CheckTraceStep(i: nat)
    requires i < 9
    ensures UpdateByte(CheckTrace[i], Catalogue.CheckInput[i]) == CheckTrace[i + 1]
  {
    if i == 0 {
      UpdateByteUnfolded(0x0000, 0x31);
    } else if i == 1 {
      UpdateByteUnfolded(0x2672, 0x32);
    } else if i == 2 {
      UpdateByteUnfolded(0x20B5, 0x33);
    } else if i == 3 {
      UpdateByteUnfolded(0x9752, 0x34);
    } else if i == 4 {
      UpdateByteUnfolded(0xD789, 0x35);
    } else if i == 5 {
      UpdateByteUnfolded(0x546C, 0x36);
    } else if i == 6 {
      UpdateByteUnfolded(0x20E4, 0x37);
    } else if i == 7 {
      UpdateByteUnfolded(0x86D6, 0x38);
    } else {
      UpdateByteUnfolded(0x9015, 0x39);
    }
  }

  lemma {:induction false} CheckTracePrefix(i: nat)
    requires i <= 9
    ensures Crc(Catalogue.CheckInput[..i]) == CheckTrace[i]
  {
    if i == 0 {
      assert Catalogue.CheckInput[..0] == [];
    } else {
      CheckTracePrefix(i - 1);
      CrcSnoc(Catalogue.CheckInput, i - 1);
      CheckTraceStep(i - 1);
    }
  }

  /** The catalogue check value of CRC-16/XMODEM: the nine ASCII bytes
      "123456789" give 0x31C3. */
  lemma CheckValue()
    ensures Crc(Catalogue.CheckInput) == 0x31C3
  {
    CheckTracePrefix(9);
    assert Catalogue.CheckInput[..9] == Catalogue.CheckInput;
  }

  /** The 16-bit value held by a high and a low 8-bit register. */
  function Pair(hi: bv8, lo: bv8): bv16 {
    ((hi as bv16) << 8) | (lo as bv16)
  }

  /** The routine's CRC registers: A holds the high byte while a byte is
      being shifted (D between bytes), E the low byte. */
  datatype Regs = Regs(a: bv8, e: bv8)

  /** One pass of the routine's `rotlp` loop: `SLA E` moves bit 7 of E into
      the carry, `ADC A,A` shifts it into A and moves bit 7 of A into the
      carry; a set carry XORs 0x21 into E and 0x10 into A. */
  function RotateStep(r: Regs): Regs {
    var a1 := (r.a << 1) | (r.e >> 7);
    var e1 := r.e << 1;
    if r.a >> 7 == 1 then Regs(a1 ^ 0x10, e1 ^ 0x21) else Regs(a1, e1)
  }

  lemma PairShift(a: bv8, e: bv8)
    ensures Pair(a, e) << 1 == Pair((a << 1) | (e >> 7), e << 1)
  {
  }

  lemma PairPoly(a: bv8, e: bv8)
    ensures Pair(a ^ 0x10, e ^ 0x21) == Pair(a, e) ^ Poly
  {
  }

  lemma PairTopBit(a: bv8, e: bv8)
    ensures (Pair(a, e) >> 15 == 1) == (a >> 7 == 1)
  {
  }

  lemma ShiftBitOfPair(a: bv8, e: bv8)
    ensures ShiftBit(Pair(a, e))
      == if a >> 7 == 1 then Pair((a << 1) | (e >> 7), e << 1) ^ Poly else Pair((a << 1) | (e >> 7), e << 1)
  {
    PairShift(a, e);
    PairTopBit(a, e);
  }

  lemma RotateCarried(a: bv8, e: bv8)
    requires a >> 7 == 1
    ensures Pair(RotateStep(Regs(a, e)).a, RotateStep(Regs(a, e)).e)
      == Pair(((a << 1) | (e >> 7)) ^ 0x10, (e << 1) ^ 0x21)
  {
  }

  lemma CarryStep(a: bv8, e: bv8)
    requires a >> 7 == 1
    ensures Pair(RotateStep(Regs(a, e)).a, RotateStep(Regs(a, e)).e) == ShiftBit(Pair(a, e))
  {
    RotateCarried(a, e);
    ShiftBitOfPair(a, e);
    PairPoly((a << 1) | (e >> 7), e << 1);
  }

  lemma NoCarryStep(a: bv8, e: bv8)
    requires a >> 7 != 1
    ensures Pair(RotateStep(Regs(a, e)).a, RotateStep(Regs(a, e)).e) == ShiftBit(Pair(a, e))
  {
    assert Pair(RotateStep(Regs(a, e)).a, RotateStep(Regs(a, e)).e) == Pair((a << 1) | (e >> 7), e << 1);
    ShiftBitOfPair(a, e);
  }

  /** The register-pair rotation is exactly one bit of the XMODEM shift
      register. */
  lemma RotateStepShifts(r: Regs)
    ensures Pair(RotateStep(r).a, RotateStep(r).e) == ShiftBit(Pair(r.a, r.e))
  {
    if r.a >> 7 == 1 {
      CarryStep(r.a, r.e);
    } else {
      NoCarryStep(r.a, r.e);
    }
  }

  /** `XOR D` with the fetched byte puts the byte into the CRC's high half. */
  lemma XorIntoHigh(b: bv8, d: bv8, e: bv8)
    ensures Pair(b ^ d, e) == Pair(d, e) ^ ((b as bv16) << 8)
  {
  }

  /** The eight passes of `rotlp` for one byte, B counting down to zero. */
  method RotateByte(a0: bv8, e0: bv8) returns (a: bv8, e: bv8)
    ensures Pair(a, e) == ShiftBits(Pair(a0, e0), 8)
  {
    a, e := a0, e0;
    var b: bv8 := 8;
    while b != 0
      invariant b <= 8
      invariant Pair(a, e) == ShiftBits(Pair(a0, e0), 8 - b as int)
    {
      RotateStepShifts(Regs(a, e));
      var r := RotateStep(Regs(a, e));
      a, e := r.a, r.e;
      b := b - 1;
    }
  }

  /** The `crc16` routine: BC counts the bytes still to do and is decremented
      only after a byte has been processed, so a count of 0 would wrap round
      and process 65536 bytes; callers must pass at least 1. */
  method Crc16(data: seq<bv8>, length: bv16) returns (crc: bv16)
    requires length != 0
    requires length as int <= |data|
    ensures crc == Crc(data[..length])
  {
    var bc: nat := length as int;
    var d: bv8, e: bv8 := 0, 0;
    var hl := 0;
    while true
      invariant bc != 0
      invariant hl + bc == length as int
      invariant Pair(d, e) == Crc(data[..hl])
      decreases bc
    {
      XorIntoHigh(data[hl], d, e);
      CrcSnoc(data, hl);
      d, e := RotateByte(data[hl] ^ d, e);
      hl := hl + 1;
      bc := bc - 1;
      if bc == 0 {
        break;
      }
    }
    crc := Pair(d, e);
  }
}
