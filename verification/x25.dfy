/** The sender's checksum, `CalculateCrc`: the reflected CRC-16 of X.25
    (polynomial 0x1021 in reversed form 0x8408, register seeded with 0xFFFF,
    least significant bit first, result complemented), returned with its two
    bytes swapped. It is a different function from the receiver's XMODEM CRC. */
module X25 {
  import Catalogue

  /** One bit: shift right, folding in the reversed polynomial when the bit
      shifted out differs from the data bit. */
  function StepBit(crc: bv16, bits: bv8): bv16 {
    if (crc ^ (bits as bv16)) & 1 != 0 then (crc >> 1) ^ 0x8408 else crc >> 1
  }

  /** The last `n` bit steps of a byte whose unprocessed bits are `bits`. */
  function StepBits(crc: bv16, bits: bv8, n: nat): bv16
    decreases n
  {
    if n == 0 then crc else StepBits(StepBit(crc, bits), bits >> 1, n - 1)
  }

  /** Feed one byte, least significant bit first. */
  function UpdateByte(crc: bv16, b: bv8): bv16 {
    StepBits(crc, b, 8)
  }

  /** The shift register after feeding `data` from the seed 0xFFFF. */
  function Register(data: seq<bv8>): bv16 {
    if |data| == 0 then 0xFFFF else UpdateByte(Register(data[..|data| - 1]), data[|data| - 1])
  }

  function Swap(x: bv16): bv16 {
    (x << 8) | (x >> 8)
  }

  /** What `CalculateCrc` returns for `data`: the complemented register with
      its bytes swapped. */
  function Checksum(data: seq<bv8>): bv16 {
    Swap(!Register(data))
  }

  lemma RegisterSnoc(s: seq<bv8>, i: nat)
    requires i < |s|
    ensures Register(s[..i + 1]) == UpdateByte(Register(s[..i]), s[i])
  {
    assert s[..i + 1][..i] == s[..i];
  }

  lemma UpdateByteUnfolded(crc: bv16, b: bv8)
    ensures UpdateByte(crc, b)
      == StepBit(StepBit(StepBit(StepBit(StepBit(StepBit(StepBit(StepBit(crc, b),
           b >> 1), b >> 2), b >> 3), b >> 4), b >> 5), b >> 6), b >> 7)
  {
    var c1 := StepBit(crc, b);
    var c2 := StepBit(c1, b >> 1);
    var c3 := StepBit(c2, b >> 2);
    var c4 := StepBit(c3, b >> 3);
    var c5 := StepBit(c4, b >> 4);
    var c6 := StepBit(c5, b >> 5);
    var c7 := StepBit(c6, b >> 6);
    assert StepBits(c7, b >> 7, 1) == StepBit(c7, b >> 7);
    assert StepBits(c6, b >> 6, 2) == StepBits(c7, (b >> 6) >> 1, 1);
    assert StepBits(c5, b >> 5, 3) == StepBits(c6, (b >> 5) >> 1, 2);
    assert StepBits(c4, b >> 4, 4) == StepBits(c5, (b >> 4) >> 1, 3);
    assert StepBits(c3, b >> 3, 5) == StepBits(c4, (b >> 3) >> 1, 4);
    assert StepBits(c2, b >> 2, 6) == StepBits(c3, (b >> 2) >> 1, 5);
    assert StepBits(c1, b >> 1, 7) == StepBits(c2, (b >> 1) >> 1, 6);
  }

  /** The register after each prefix of the check input. */
  const CheckTrace: seq<bv16> := [0xFFFF, 0x2F8D, 0x4D53, 0x634B, 0x8B13, 0x44BF, 0x198D, 0x1AC8, 0xF795, 0x6F91]

  lemma CheckTraceStep(i: nat)
    requires i < 9
    ensures UpdateByte(CheckTrace[i], Catalogue.CheckInput[i]) == CheckTrace[i + 1]
  {
    if i == 0 {
      UpdateByteUnfolded(0xFFFF, 0x31);
    } else if i == 1 {
      UpdateByteUnfolded(0x2F8D, 0x32);
    } else if i == 2 {
      UpdateByteUnfolded(0x4D53, 0x33);
    } else if i == 3 {
      UpdateByteUnfolded(0x634B, 0x34);
    } else if i == 4 {
      UpdateByteUnfolded(0x8B13, 0x35);
    } else if i == 5 {
      UpdateByteUnfolded(0x44BF, 0x36);
    } else if i == 6 {
      UpdateByteUnfolded(0x198D, 0x37);
    } else if i == 7 {
      UpdateByteUnfolded(0x1AC8, 0x38);
    } else {
      UpdateByteUnfolded(0xF795, 0x39);
    }
  }

  lemma {:induction false} CheckTracePrefix(i: nat)
    requires i <= 9
    ensures Register(Catalogue.CheckInput[..i]) == CheckTrace[i]
  {
    if i == 0 {
      assert Catalogue.CheckInput[..0] == [];
    } else {
      CheckTracePrefix(i - 1);
      RegisterSnoc(Catalogue.CheckInput, i - 1);
      CheckTraceStep(i - 1);
    }
  }

  /** The catalogue check value of CRC-16/X-25 is 0x906E for the nine ASCII
      bytes "123456789"; `CalculateCrc` hands it over byte-swapped. */
  lemma CheckValue()
    ensures !Register(Catalogue.CheckInput) == 0x906E
    ensures Checksum(Catalogue.CheckInput) == 0x6E90
  {
    CheckTracePrefix(9);
    assert Catalogue.CheckInput[..9] == Catalogue.CheckInput;
  }

  /** The `(ushort)` cast: keep the low 16 bits of a `uint`. */
  function Low16(x: bv32): bv16 {
    (x & 0xFFFF) as bv16
  }

  /** One pass of the inner `for` loop on the `uint` register and data byte. */
  function StepBit32(crc: bv32, dataByte: bv32): bv32 {
    if ((crc & 1) ^ (dataByte & 1)) != 0 then (crc >> 1) ^ 0x8408 else crc >> 1
  }

  /** While the `uint` register stays below 0x10000 it behaves as the 16-bit
      register of the specification. */
  lemma StepBit32Agrees(crc: bv32, dataByte: bv32)
    requires crc >> 16 == 0 && dataByte >> 8 == 0
    ensures StepBit32(crc, dataByte) >> 16 == 0
    ensures Low16(StepBit32(crc, dataByte)) == StepBit(Low16(crc), (dataByte & 0xFF) as bv8)
    ensures ((dataByte >> 1) & 0xFF) as bv8 == ((dataByte & 0xFF) as bv8) >> 1
  {
  }

  /** The tail of `CalculateCrc`: complement the whole `uint`, copy it to
      `dataByte`, then `(crc << 8) | (dataByte >> 8 & 0xff)` cast to `ushort`. */
  function Finish(crc: bv32): bv16 {
    var c := !crc;
    var dataByte := c;
    Low16((c << 8) | ((dataByte >> 8) & 0xFF))
  }

  /** The tail swaps the two bytes of the complemented 16-bit register. */
  lemma FinishAgrees(crc: bv32, reg: bv16)
    requires crc >> 16 == 0 && Low16(crc) == reg
    ensures Finish(crc) == Swap(!reg)
  {
  }

  /** The inner `for` loop: eight bit steps over one data byte. */
  method ShiftByte(crc0: bv32, b: bv8) returns (crc: bv32)
    requires crc0 >> 16 == 0
    ensures crc >> 16 == 0 && Low16(crc) == UpdateByte(Low16(crc0), b)
  {
    crc := crc0;
    var dataByte: bv32 := 0xFF & (b as bv32);
    assert (dataByte & 0xFF) as bv8 == b;
    var i := 0;
    while i < 8
      invariant 0 <= i <= 8
      invariant crc >> 16 == 0 && dataByte >> 8 == 0
      invariant StepBits(Low16(crc), (dataByte & 0xFF) as bv8, 8 - i) == UpdateByte(Low16(crc0), b)
    {
      StepBit32Agrees(crc, dataByte);
      crc := StepBit32(crc, dataByte);
      i := i + 1;
      dataByte := dataByte >> 1;
    }
  }

  /** The `do ... while(--length > 0)` loop of `CalculateCrc`, run on the
      `uint` register from the seed. */
  method FeedBytes(data: seq<bv8>, length: nat) returns (crc: bv32)
    requires 0 < length <= |data|
    ensures crc >> 16 == 0 && Low16(crc) == Register(data[..length])
  {
    crc := 0xFFFF;
    assert data[..0] == [];
    var len := length;
    var dataIndex := 0;
    while true
      invariant 0 < len && dataIndex + len == length
      invariant crc >> 16 == 0 && Low16(crc) == Register(data[..dataIndex])
      decreases len
    {
      RegisterSnoc(data, dataIndex);
      crc := ShiftByte(crc, data[dataIndex]);
      dataIndex := dataIndex + 1;
      len := len - 1;
      if len == 0 {
        break;
      }
    }
  }

  /** `CalculateCrc(data, length)`: a length of 0 returns the complemented
      seed at once; otherwise the bytes are fed, the `uint` register is
      complemented and its two low bytes swapped before the `ushort` cast.
      Callers never pass more than the array holds (the runtime would
      throw). */
  method CalculateCrc(data: seq<bv8>, length: nat) returns (r: bv16)
    requires length <= |data|
    ensures r == Checksum(data[..length])
    ensures length == 0 ==> r == 0
  {
    var crc: bv32 := 0xFFFF;
    if length == 0 {
      assert data[..0] == [];
      return Low16(!crc);
    }
    crc := FeedBytes(data, length);
    FinishAgrees(crc, Register(data[..length]));
    r := Finish(crc);
  }
}
