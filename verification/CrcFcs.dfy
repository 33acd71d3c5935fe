/** The checksum is the frame check sequence of ITU-T X.25: its published check value,
    and the constant residue of every message followed by its own checksum. */
module CrcFcs {
  import opened Crc16
  import opened Gt06
  import opened Gt06Damage

  // ---- The check value ----

  /** The digits 1 to 9. */
  const CHECK: seq<byte> := [0x31, 0x32, 0x33, 0x34, 0x35, 0x36, 0x37, 0x38, 0x39]

  /** One more byte, with the register given as a number. */
  lemma NextByte(p: seq<byte>, before: bv16, b: byte, after: bv16)
    requires Register(0xFFFF, p) == before && Shift4(Shift4(Xor(before, Wide(b)))) == after
    ensures Register(0xFFFF, p + [b]) == after
  {
    assert (p + [b])[..|p|] == p;
    assert Register(0xFFFF, p + [b]) == Shifts(Xor(before, Wide(b)), 8);
    hide Register, Xor, Wide, Shift4;
    EightIsTwiceFour(Xor(before, Wide(b)));
  }

  lemma FirstDigits()
    requires Register(0xFFFF, CHECK[..0]) == 0xFFFF
    ensures Register(0xFFFF, CHECK[..3]) == 0x634B
  {
    hide Register;
    NextByte(CHECK[..0], 0xFFFF, 0x31, 0x2F8D);
    assert CHECK[..0] + [0x31] == CHECK[..1];
    NextByte(CHECK[..1], 0x2F8D, 0x32, 0x4D53);
    assert CHECK[..1] + [0x32] == CHECK[..2];
    NextByte(CHECK[..2], 0x4D53, 0x33, 0x634B);
    assert CHECK[..2] + [0x33] == CHECK[..3];
  }

  lemma SecondDigits()
    requires Register(0xFFFF, CHECK[..3]) == 0x634B
    ensures Register(0xFFFF, CHECK[..6]) == 0x198D
  {
    hide Register;
    NextByte(CHECK[..3], 0x634B, 0x34, 0x8B13);
    assert CHECK[..3] + [0x34] == CHECK[..4];
    NextByte(CHECK[..4], 0x8B13, 0x35, 0x44BF);
    assert CHECK[..4] + [0x35] == CHECK[..5];
    NextByte(CHECK[..5], 0x44BF, 0x36, 0x198D);
    assert CHECK[..5] + [0x36] == CHECK[..6];
  }

  lemma ThirdDigits()
    requires Register(0xFFFF, CHECK[..6]) == 0x198D
    ensures Register(0xFFFF, CHECK[..9]) == 0x6F91
  {
    hide Register;
    NextByte(CHECK[..6], 0x198D, 0x37, 0x1AC8);
    assert CHECK[..6] + [0x37] == CHECK[..7];
    NextByte(CHECK[..7], 0x1AC8, 0x38, 0xF795);
    assert CHECK[..7] + [0x38] == CHECK[..8];
    NextByte(CHECK[..8], 0xF795, 0x39, 0x6F91);
    assert CHECK[..8] + [0x39] == CHECK[..9];
  }

  /** The published check value of CRC-16/X.25. */
  lemma CheckValue()
    ensures Crc(CHECK) == 0x906E
  {
    assert CHECK[..0] == [] && Register(0xFFFF, []) == 0xFFFF;
    hide Register;
    FirstDigits();
    SecondDigits();
    ThirdDigits();
    assert CHECK[..9] == CHECK;
  }

  // ---- The residue ----

  lemma HighByteMovesDown(x: bv16)
    ensures Shift4(Shift4(x & 0xFF00)) == x >> 8
  {}

  lemma SplitsInBytes(x: bv16)
    ensures Xor(x & 0xFF00, x & 0x00FF) == x
  {}

  lemma ShiftsEight(x: bv16)
    ensures Shifts(x, 8) == Xor(x >> 8, Shifts(x & 0x00FF, 8))
  {
    SplitsInBytes(x);
    HighByteMovesDown(x);
    EightIsTwiceFour(x & 0xFF00);
    hide Xor, Shifts, Shift4;
    ShiftsLinear(x & 0xFF00, x & 0x00FF, 8);
  }

  lemma LowBytesMeet(r: bv16)
    ensures (Xor(r, Wide(Low(Complement(r))))) & 0x00FF == 0x00FF
    ensures (Xor(r, Wide(Low(Complement(r))))) >> 8 == r >> 8
  {}

  lemma HighBytesMeet(r: bv16, c: bv16)
    ensures Xor(Xor(r >> 8, c), Wide(High(Complement(r)))) == Xor(c, 0x00FF)
  {}

  lemma ShiftsOfOnes()
    ensures Shifts(0x00FF, 8) == 0x0F78 && Shifts(Xor(0x0F78, 0x00FF), 8) == 0xF0B8
  {
    EightIsTwiceFour(0x00FF);
    EightIsTwiceFour(Xor(0x0F78, 0x00FF));
  }

  /** Every message followed by its checksum, low byte first as X.25 sends it, leaves
      the register at the same value. */
  lemma GoodFcs(m: seq<byte>)
    ensures Register(0xFFFF, m + [Low(Crc(m))] + [High(Crc(m))]) == 0xF0B8
  {
    var r := Register(0xFFFF, m);
    var low, high := Low(Complement(r)), High(Complement(r));
    assert (m + [low])[..|m|] == m && (m + [low] + [high])[..|m| + 1] == m + [low];
    assert Register(0xFFFF, m + [low]) == Shifts(Xor(r, Wide(low)), 8);
    assert Register(0xFFFF, m + [low] + [high]) == Shifts(Xor(Shifts(Xor(r, Wide(low)), 8), Wide(high)), 8);
    hide Register, Shifts, Xor, Wide, High, Low, Complement;
    ShiftsEight(Xor(r, Wide(low)));
    LowBytesMeet(r);
    ShiftsOfOnes();
    HighBytesMeet(r, 0x0F78);
  }
}
