/** The CRC-16/X.25 of the GT06 tracker protocol and the errors it detects. */
module Crc16 {

  type byte = bv8

  /** One shift of the reflected register. */
  function Shift(crc: bv16): bv16 {
    if crc & 1 != 0 then (crc >> 1) ^ 0x8408 else crc >> 1
  }

  function Shifts(crc: bv16, n: nat): bv16
    decreases n
  {
    if n == 0 then crc else Shift(Shifts(crc, n - 1))
  }

  function Xor(x: bv16, y: bv16): bv16 { x ^ y }
  function Wide(b: byte): bv16 { b as bv16 }

  /** The register after a message, and the checksum. */
  function Register(crc: bv16, data: seq<byte>): bv16
    decreases |data|
  {
    if data == [] then crc
    else Shifts(Xor(Register(crc, data[..|data| - 1]), Wide(data[|data| - 1])), 8)
  }

  function Complement(x: bv16): bv16 { !x }

  function Crc(data: seq<byte>): bv16 { Complement(Register(0xFFFF, data)) }

  method Crc16X25(data: seq<byte>) returns (r: bv16)
    ensures r == Crc(data)
  {
    var crc: bv16 := 0xFFFF;
    for k := 0 to |data|
      invariant crc == Register(0xFFFF, data[..k])
    {
      assert data[..k + 1][..k] == data[..k];
      crc := EightShifts(Xor(crc, Wide(data[k])));
    }
    assert data[..|data|] == data;
    r := Complement(crc);
  }

  method EightShifts(start: bv16) returns (crc: bv16)
    ensures crc == Shifts(start, 8)
  {
    crc := start;
    for i := 0 to 8
      invariant crc == Shifts(start, i)
    {
      if crc & 1 != 0 {
        crc := (crc >> 1) ^ 0x8408;
      } else {
        crc := crc >> 1;
      }
    }
  }

  // ---- The register fed bit by bit ----

  function Unit(bit: bool): bv16 { if bit then 1 else 0 }

  function FeedBits(crc: bv16, bits: seq<bool>): bv16
    decreases |bits|
  {
    if bits == [] then crc else FeedBits(Shift(Xor(crc, Unit(bits[0]))), bits[1..])
  }

  /** The bits of a byte in the order the register consumes them. */
  function ByteBits(b: byte): seq<bool> {
    [b & 1 != 0, b & 2 != 0, b & 4 != 0, b & 8 != 0, b & 16 != 0, b & 32 != 0, b & 64 != 0, b & 128 != 0]
  }

  function Bits(data: seq<byte>): seq<bool> {
    if data == [] then [] else Bits(data[..|data| - 1]) + ByteBits(data[|data| - 1])
  }

  /** Up to sixteen bits as one word, first bit lowest. */
  function Double(x: bv16): bv16 { x << 1 }
  function Push(bit: bool, w: bv16): bv16 { Xor(Unit(bit), Double(w)) }

  function Word(bits: seq<bool>): bv16 {
    if bits == [] then 0 else Push(bits[0], Word(bits[1..]))
  }

  // ---- Bit-vector facts ----

  predicate TopClear(x: bv16) { x & 0x7FFF == x }

  /** x is a number of n bits. */
  predicate Narrow(x: bv16, n: nat) {
    match n
    case 0 => x == 0      case 1 => x <= 0x1    case 2 => x <= 0x3     case 3 => x <= 0x7
    case 4 => x <= 0xF    case 5 => x <= 0x1F   case 6 => x <= 0x3F    case 7 => x <= 0x7F
    case 8 => x <= 0xFF   case 9 => x <= 0x1FF  case 10 => x <= 0x3FF  case 11 => x <= 0x7FF
    case 12 => x <= 0xFFF case 13 => x <= 0x1FFF case 14 => x <= 0x3FFF case 15 => x <= 0x7FFF
    case _ => true
  }

  lemma PushNarrow(bit: bool, x: bv16, n: nat)
    requires Narrow(x, n)
    ensures Narrow(Push(bit, x), n + 1)
  {}

  lemma NarrowTopClear(x: bv16, n: nat)
    requires n <= 15 && Narrow(x, n)
    ensures TopClear(x)
  {
    assert x <= 0x7FFF;
  }

  lemma ShiftInjective(x: bv16, y: bv16)
    requires Shift(x) == Shift(y)
    ensures x == y
  {}

  predicate Odd(x: bv16) { x & 1 != 0 }
  function Half(x: bv16): bv16 { x >> 1 }
  const POLYNOMIAL: bv16 := 0x8408

  lemma ShiftParts(x: bv16)
    ensures Shift(x) == if Odd(x) then Xor(Half(x), POLYNOMIAL) else Half(x)
  {}

  lemma OddKept(x: bv16, y: bv16)
    ensures Odd(Xor(x, Double(y))) == Odd(x)
  {
    LowBitKept(x, y);
  }

  lemma LowBitKept(x: bv16, z: bv16)
    ensures (x ^ (z << 1)) & 1 == x & 1
  {}

  lemma HalfOfXor(x: bv16, y: bv16)
    requires TopClear(y)
    ensures Half(Xor(x, Double(y))) == Xor(Half(x), y)
  {
    HalveXor(x, y);
  }

  lemma HalveXor(x: bv16, y: bv16)
    ensures (x ^ ((y & 0x7FFF) << 1)) >> 1 == (x >> 1) ^ (y & 0x7FFF)
  {}

  lemma XorSwaps(a: bv16, b: bv16, c: bv16)
    ensures Xor(Xor(a, b), c) == Xor(Xor(a, c), b)
  {}

  lemma ZeroPassesThrough(x: bv16, y: bv16)
    requires TopClear(y)
    ensures Shift(Xor(x, Double(y))) == Xor(Shift(x), y)
  {
    hide Shift, Xor, Double, TopClear, Odd, Half;
    ShiftParts(x);
    ShiftParts(Xor(x, Double(y)));
    OddKept(x, y);
    HalfOfXor(x, y);
    XorSwaps(Half(x), y, POLYNOMIAL);
  }

  lemma XorAssociative(x: bv16, y: bv16, z: bv16)
    ensures Xor(x, Xor(y, z)) == Xor(Xor(x, y), z)
  {}

  /** Feeding the first bit and then a word is feeding the pushed word. */
  lemma ShiftAbsorbs(c: bv16, bit: bool, w: bv16)
    requires TopClear(w)
    ensures Shift(Xor(c, Push(bit, w))) == Xor(Shift(Xor(c, Unit(bit))), w)
  {
    hide Shift, Unit, Xor, Double, TopClear;
    ZeroPassesThrough(Xor(c, Unit(bit)), w);
    XorAssociative(c, Unit(bit), Double(w));
  }

  lemma LowBit(bit: bool, x: bv16)
    ensures Push(bit, x) & 1 == Unit(bit)
  {}

  lemma HalveDouble(u: bv16, x: bv16)
    ensures ((u & 1) ^ ((x & 0x7FFF) << 1)) >> 1 == x & 0x7FFF
  {}

  lemma Pop(bit: bool, x: bv16)
    requires TopClear(x)
    ensures Push(bit, x) >> 1 == x
  {
    assert Unit(bit) & 1 == Unit(bit);
    hide Unit;
    HalveDouble(Unit(bit), x);
  }

  lemma PushInjective(a: bool, x: bv16, b: bool, y: bv16)
    requires TopClear(x) && TopClear(y) && Push(a, x) == Push(b, y)
    ensures a == b && x == y
  {
    hide Push, TopClear;
    LowBit(a, x);
    LowBit(b, y);
    Pop(a, x);
    Pop(b, y);
  }

  lemma XorCancels(c: bv16, x: bv16, y: bv16)
    ensures Xor(c, x) == Xor(c, y) ==> x == y
    ensures Xor(x, c) == Xor(y, c) ==> x == y
  {}

  lemma XorZero(c: bv16)
    ensures Xor(c, 0) == c
  {}

  lemma ComplementInjective(x: bv16, y: bv16)
    requires Complement(x) == Complement(y)
    ensures x == y
  {}

  lemma {:induction false} TopBitClear(bits: seq<bool>)
    ensures |bits| <= 16 ==> Narrow(Word(bits), |bits|)
    ensures |bits| <= 15 ==> TopClear(Word(bits))
  {
    hide Push, TopClear;
    if bits != [] && |bits| <= 16 {
      TopBitClear(bits[1..]);
      PushNarrow(bits[0], Word(bits[1..]), |bits| - 1);
    }
    if |bits| <= 15 {
      NarrowTopClear(Word(bits), |bits|);
    }
  }

  lemma {:induction false} ShiftsInjective(x: bv16, y: bv16, n: nat)
    requires Shifts(x, n) == Shifts(y, n)
    ensures x == y
    decreases n
  {
    hide Shift;
    if n > 0 {
      ShiftInjective(Shifts(x, n - 1), Shifts(y, n - 1));
      ShiftsInjective(x, y, n - 1);
    }
  }

  lemma {:induction false} ShiftsFromFront(x: bv16, n: nat)
    requires n > 0
    ensures Shifts(x, n) == Shifts(Shift(x), n - 1)
    decreases n
  {
    hide Shift;
    if n > 1 {
      ShiftsFromFront(x, n - 1);
    }
  }

  // ---- Feeding at most sixteen bits is one xor and as many shifts ----

  lemma {:induction false} FeedWord(crc: bv16, bits: seq<bool>)
    requires |bits| <= 16
    ensures FeedBits(crc, bits) == Shifts(Xor(crc, Word(bits)), |bits|)
    decreases |bits|
  {
    hide Shift, Unit, Xor, Push, TopClear, Narrow;
    if bits == [] {
      XorZero(crc);
    } else {
      var rest := bits[1..];
      FeedWord(Shift(Xor(crc, Unit(bits[0]))), rest);
      TopBitClear(rest);
      ShiftAbsorbs(crc, bits[0], Word(rest));
      ShiftsFromFront(Xor(crc, Word(bits)), |bits|);
    }
  }

  lemma {:induction false} WordInjective(a: seq<bool>, b: seq<bool>)
    requires |a| == |b| <= 16 && Word(a) == Word(b)
    ensures a == b
  {
    hide Push, TopClear, Narrow;
    if a != [] {
      TopBitClear(a[1..]);
      TopBitClear(b[1..]);
      PushInjective(a[0], Word(a[1..]), b[0], Word(b[1..]));
      WordInjective(a[1..], b[1..]);
      assert a == [a[0]] + a[1..] && b == [b[0]] + b[1..];
    }
  }

  lemma WindowInjective(crc: bv16, a: seq<bool>, b: seq<bool>)
    requires |a| == |b| <= 16 && FeedBits(crc, a) == FeedBits(crc, b)
    ensures a == b
  {
    hide Shifts, Xor, Word, FeedBits;
    FeedWord(crc, a);
    FeedWord(crc, b);
    ShiftsInjective(Xor(crc, Word(a)), Xor(crc, Word(b)), |a|);
    XorCancels(crc, Word(a), Word(b));
    WordInjective(a, b);
  }

  lemma {:induction false} SuffixInjective(x: bv16, y: bv16, bits: seq<bool>)
    requires FeedBits(x, bits) == FeedBits(y, bits)
    ensures x == y
    decreases |bits|
  {
    hide Shift, Unit, Xor;
    if bits != [] {
      var u := Unit(bits[0]);
      SuffixInjective(Shift(Xor(x, u)), Shift(Xor(y, u)), bits[1..]);
      ShiftInjective(Xor(x, u), Xor(y, u));
      XorCancels(u, x, y);
    }
  }

  lemma {:induction false} FeedConcat(crc: bv16, a: seq<bool>, b: seq<bool>)
    ensures FeedBits(crc, a + b) == FeedBits(FeedBits(crc, a), b)
    decreases |a|
  {
    hide Shift, Unit, Xor;
    if a == [] {
      assert a + b == b;
    } else {
      assert (a + b)[1..] == a[1..] + b;
      FeedConcat(Shift(Xor(crc, Unit(a[0]))), a[1..], b);
    }
  }

  lemma Pushes(b: byte)
    ensures Push(b & 1 != 0, Push(b & 2 != 0, Push(b & 4 != 0, Push(b & 8 != 0,
            Push(b & 16 != 0, Push(b & 32 != 0, Push(b & 64 != 0, Push(b & 128 != 0, 0)))))))) == Wide(b)
  {}

  lemma {:induction false} WordOfTwo(s: seq<bool>)
    requires |s| >= 2
    ensures Word(s) == Push(s[0], Push(s[1], Word(s[2..])))
  {
    hide Push;
    assert s[1..][1..] == s[2..];
  }

  lemma {:induction false} WordOfFour(s: seq<bool>)
    requires |s| >= 4
    ensures Word(s) == Push(s[0], Push(s[1], Push(s[2], Push(s[3], Word(s[4..])))))
  {
    hide Push, Word;
    WordOfTwo(s);
    WordOfTwo(s[2..]);
    assert s[2..][2..] == s[4..];
  }

  lemma {:induction false} ByteWord(b: byte)
    ensures |ByteBits(b)| == 8 && Word(ByteBits(b)) == Wide(b)
  {
    var s := ByteBits(b);
    hide Push, Wide, Word;
    Pushes(b);
    WordOfFour(s);
    WordOfFour(s[4..]);
    assert s[4..][4..] == [];
    EmptyWord();
  }

  lemma EmptyWord()
    ensures Word([]) == 0
  {}

  lemma {:induction false} RegisterFeedsBits(crc: bv16, data: seq<byte>)
    ensures Register(crc, data) == FeedBits(crc, Bits(data))
    decreases |data|
  {
    hide Shifts, ByteBits, Word, Xor, Wide;
    if data != [] {
      var n := |data| - 1;
      var before, b := Register(crc, data[..n]), data[n];
      RegisterFeedsBits(crc, data[..n]);
      FeedConcat(crc, Bits(data[..n]), ByteBits(b));
      ByteWord(b);
      FeedWord(before, ByteBits(b));
    }
  }

  // ---- Bursts ----

  lemma BitBurst(crc: bv16, a: seq<bool>, b: seq<bool>, start: nat)
    requires |a| == |b| && FeedBits(crc, a) == FeedBits(crc, b)
    requires forall i :: 0 <= i < |a| && a[i] != b[i] ==> start <= i < start + 16
    ensures a == b
  {
    hide FeedBits;
    var n := |a|;
    var s := if start < n then start else n;
    var t := if start + 16 < n then start + 16 else n;
    assert a == a[..s] + (a[s..t] + a[t..]) && b == b[..s] + (b[s..t] + b[t..]);
    assert a[..s] == b[..s] && a[t..] == b[t..];
    var crc1 := FeedBits(crc, a[..s]);
    FeedConcat(crc, a[..s], a[s..t] + a[t..]);
    FeedConcat(crc, b[..s], b[s..t] + b[t..]);
    FeedConcat(crc1, a[s..t], a[t..]);
    FeedConcat(crc1, b[s..t], b[t..]);
    SuffixInjective(FeedBits(crc1, a[s..t]), FeedBits(crc1, b[s..t]), a[t..]);
    WindowInjective(crc1, a[s..t], b[s..t]);
  }

  /** The j-th bit of a byte. */
  predicate Bit(b: byte, j: nat) { j < 8 && ByteBits(b)[j] }

  /** The messages differ only within sixteen consecutive bits, counted in the
      order the register consumes them. */
  ghost predicate BurstAt(a: seq<byte>, b: seq<byte>, start: nat) {
    && |a| == |b|
    && forall i, j :: 0 <= i < |a| && 0 <= j < 8 && Bit(a[i], j) != Bit(b[i], j) ==> start <= 8 * i + j < start + 16
  }

  lemma {:induction false} BitsLength(data: seq<byte>)
    ensures |Bits(data)| == 8 * |data|
  {
    hide ByteBits;
    if data != [] {
      BitsLength(data[..|data| - 1]);
      ByteWord(data[|data| - 1]);
    }
  }

  lemma {:induction false} BitsAt(data: seq<byte>, i: nat, j: nat)
    requires i < |data| && j < 8
    ensures |Bits(data)| == 8 * |data| && Bits(data)[8 * i + j] == Bit(data[i], j)
  {
    hide ByteBits;
    BitsLength(data);
    var n := |data| - 1;
    BitsLength(data[..n]);
    ByteWord(data[n]);
    if i < n {
      BitsAt(data[..n], i, j);
    }
  }

  lemma BytesFromBits(x: byte, y: byte)
    requires forall j :: 0 <= j < 8 ==> Bit(x, j) == Bit(y, j)
    ensures x == y
  {
    assert Bit(x, 0) == Bit(y, 0) && Bit(x, 1) == Bit(y, 1) && Bit(x, 2) == Bit(y, 2) && Bit(x, 3) == Bit(y, 3);
    assert Bit(x, 4) == Bit(y, 4) && Bit(x, 5) == Bit(y, 5) && Bit(x, 6) == Bit(y, 6) && Bit(x, 7) == Bit(y, 7);
  }

  lemma {:induction false} BitsInjective(a: seq<byte>, b: seq<byte>)
    requires |a| == |b| && Bits(a) == Bits(b)
    ensures a == b
  {
    hide Bits, Bit;
    forall i | 0 <= i < |a|
      ensures a[i] == b[i]
    {
      forall j | 0 <= j < 8
        ensures Bit(a[i], j) == Bit(b[i], j)
      {
        BitsAt(a, i, j);
        BitsAt(b, i, j);
      }
      BytesFromBits(a[i], b[i]);
    }
  }

  /** Every burst of at most sixteen bits changes the checksum, in messages of
      any length. */
  lemma CrcDetectsBursts(a: seq<byte>, b: seq<byte>, start: nat)
    requires BurstAt(a, b, start) && a != b
    ensures Crc(a) != Crc(b)
  {
    hide Register, FeedBits, Bit, Bits, Complement;
    if Crc(a) == Crc(b) {
      ComplementInjective(Register(0xFFFF, a), Register(0xFFFF, b));
      RegisterFeedsBits(0xFFFF, a);
      RegisterFeedsBits(0xFFFF, b);
      BitsLength(a);
      BitsLength(b);
      forall m | 0 <= m < 8 * |a| && Bits(a)[m] != Bits(b)[m]
        ensures start <= m < start + 16
      {
        BitsAt(a, m / 8, m % 8);
        BitsAt(b, m / 8, m % 8);
      }
      BitBurst(0xFFFF, Bits(a), Bits(b), start);
      BitsInjective(a, b);
    }
  }

  /** In particular, any change confined to one byte or two adjacent bytes. */
  lemma CrcDetectsAdjacentBytes(a: seq<byte>, b: seq<byte>, k: nat)
    requires |a| == |b| && a != b
    requires forall i :: 0 <= i < |a| && a[i] != b[i] ==> i == k || i == k + 1
    ensures Crc(a) != Crc(b)
  {
    hide Crc, Bit;
    CrcDetectsBursts(a, b, 8 * k);
  }
}
