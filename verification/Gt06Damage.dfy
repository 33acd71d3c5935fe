/** Damage to a GT06 frame that reaches its checksum. The register is reflected but
    sent high byte first, so the burst guarantee does not extend over the checksum. */
module Gt06Damage {
  import opened Crc16
  import opened Gt06

  // ---- The register is linear ----

  lemma OddOfXor(x: bv16, y: bv16)
    ensures Odd(Xor(x, y)) == (Odd(x) != Odd(y))
  {}

  lemma HalfXor(x: bv16, y: bv16)
    ensures Half(Xor(x, y)) == Xor(Half(x), Half(y))
  {}

  lemma XorTwice(a: bv16, b: bv16, c: bv16)
    ensures Xor(Xor(a, c), Xor(b, c)) == Xor(a, b)
  {
    hide Xor;
    XorAssociative(Xor(a, c), b, c);
    XorSwaps(a, c, b);
    XorBack(Xor(a, b), c);
  }

  lemma XorBack(x: bv16, c: bv16)
    ensures Xor(Xor(x, c), c) == x
  {}

  lemma ShiftLinear(x: bv16, y: bv16)
    ensures Shift(Xor(x, y)) == Xor(Shift(x), Shift(y))
  {
    hide Shift, Xor, Odd, Half;
    ShiftParts(x);
    ShiftParts(y);
    ShiftParts(Xor(x, y));
    OddOfXor(x, y);
    HalfXor(x, y);
    XorTwice(Half(x), Half(y), POLYNOMIAL);
    XorSwaps(Half(x), Half(y), POLYNOMIAL);
    XorAssociative(Half(x), Half(y), POLYNOMIAL);
  }

  lemma {:induction false} ShiftsLinear(x: bv16, y: bv16, n: nat)
    ensures Shifts(Xor(x, y), n) == Xor(Shifts(x, n), Shifts(y, n))
  {
    hide Shift, Xor;
    if n > 0 {
      ShiftsLinear(x, y, n - 1);
      ShiftLinear(Shifts(x, n - 1), Shifts(y, n - 1));
    }
  }

  lemma XorPair(c: bv16, u: byte, v: byte)
    ensures Xor(Xor(c, Wide(u)), Xor(c, Wide(v))) == Wide(u ^ v)
  {}

  lemma ComplementsXor(x: bv16, y: bv16)
    ensures Xor(Complement(x), Complement(y)) == Xor(x, y)
  {}

  /** Changing the last byte changes the checksum by the shifted difference. */
  lemma LastByteChanges(p: seq<byte>, u: byte, v: byte)
    ensures Xor(Crc(p + [u]), Crc(p + [v])) == Shifts(Wide(u ^ v), 8)
  {
    var c := Register(0xFFFF, p);
    assert (p + [u])[..|p|] == p && (p + [v])[..|p|] == p;
    assert Register(0xFFFF, p + [u]) == Shifts(Xor(c, Wide(u)), 8);
    assert Register(0xFFFF, p + [v]) == Shifts(Xor(c, Wide(v)), 8);
    hide Register, Shifts, Xor, Wide, Complement;
    ComplementsXor(Register(0xFFFF, p + [u]), Register(0xFFFF, p + [v]));
    ShiftsLinear(Xor(c, Wide(u)), Xor(c, Wide(v)), 8);
    XorPair(c, u, v);
  }

  // ---- The one byte whose shift has an empty low byte ----

  function Shift4(x: bv16): bv16 { Shift(Shift(Shift(Shift(x)))) }

  lemma EightIsTwiceFour(x: bv16)
    ensures Shifts(x, 8) == Shift4(Shift4(x))
  {
    hide Shift;
    assert Shifts(x, 4) == Shift4(x);
    assert Shifts(x, 8) == Shift4(Shifts(x, 4));
  }

  /** Only the difference 0x91 moves the high checksum byte alone, and then by 0x85. */
  lemma OnlyThePair(d: byte, e: byte)
    ensures Shift4(Shift4(Wide(d))) == Combine(e, 0) <==> (d == 0 && e == 0) || (d == 0x91 && e == 0x85)
  {}

  // ---- Damage within two adjacent bytes ----

  /** The damage the reader cannot see: 0x91 in the last serial byte together with
      0x85 in the checksum's high byte. */
  ghost predicate Unseen(t: seq<byte>, damaged: seq<byte>, n: nat)
    requires 2 <= n < |t| == |damaged|
  {
    damaged[n - 2] ^ t[n - 2] == 0x91 && damaged[n - 1] ^ t[n - 1] == 0x85
  }

  ghost predicate DiffersOnlyAt(t: seq<byte>, damaged: seq<byte>, k: nat)
    requires |t| == |damaged|
  {
    forall i :: 0 <= i < |t| && damaged[i] != t[i] ==> i == k || i == k + 1
  }

  lemma CombineInjective(a: byte, b: byte, c: byte, d: byte)
    ensures Combine(a, b) == Combine(c, d) ==> a == c && b == d
  {}

  lemma CombineXor(a: byte, c: byte, b: byte)
    ensures Xor(Combine(a, b), Combine(c, b)) == Combine(a ^ c, 0)
  {}

  lemma XorDetermines(x: bv16, y: bv16, z: bv16)
    ensures Xor(x, y) == Xor(z, y) <==> x == z
  {}

  lemma SameByte(x: byte, y: byte)
    ensures x ^ y == 0 <==> x == y
  {}

  /** Both the last covered byte and the high checksum byte are damaged. */
  lemma DamageAtTheSeam(p: seq<byte>, u: byte, v: byte, high: byte, damagedHigh: byte, low: byte)
    requires Crc(p + [u]) == Combine(high, low) && u != v
    ensures Crc(p + [v]) == Combine(damagedHigh, low) <==> v ^ u == 0x91 && damagedHigh ^ high == 0x85
  {
    hide Crc, Shift4, Xor, Combine, Wide;
    LastByteChanges(p, v, u);
    EightIsTwiceFour(Wide(v ^ u));
    CombineXor(damagedHigh, high, low);
    XorDetermines(Crc(p + [v]), Crc(p + [u]), Combine(damagedHigh, low));
    OnlyThePair(v ^ u, damagedHigh ^ high);
    SameByte(v, u);
  }

  /** The verdict on a whole frame, stop bytes first. */
  lemma FrameVerdict(t: seq<byte>)
    requires t != [] && 5 <= Length(t[0]) <= 128 && |t| >= Length(t[0]) + 3
    ensures var n := Length(t[0]);
            ParseAfterMarker(t).0.Ok? <==>
            t[n + 1] == 0x0D && t[n + 2] == 0x0A && Crc(t[..n - 1]) == Combine(t[n - 1], t[n])
  {
    hide Crc, Combine, Length;
  }

  lemma AcceptedFrame(t: seq<byte>)
    requires ParseAfterMarker(t).0.Ok?
    ensures t != [] && 5 <= Length(t[0]) <= 128 && |t| >= Length(t[0]) + 3
  {
    hide Crc, Combine, Length;
  }

  /** Damage only to the bytes that the checksum covers. */
  lemma CoveredDamage(t: seq<byte>, damaged: seq<byte>, k: nat, n: nat)
    requires 5 <= n && n + 3 <= |t| == |damaged| && DiffersOnlyAt(t, damaged, k)
    requires damaged[n - 1] == t[n - 1] && damaged[n] == t[n]
    requires Crc(t[..n - 1]) == Combine(t[n - 1], t[n])
    ensures Crc(damaged[..n - 1]) == Combine(damaged[n - 1], damaged[n]) <==> damaged[..n - 1] == t[..n - 1]
  {
    hide Crc, Combine;
    var a, b := t[..n - 1], damaged[..n - 1];
    if a != b { CrcDetectsAdjacentBytes(a, b, k); }
  }

  /** Damage that reaches the checksum. */
  lemma ChecksumDamage(t: seq<byte>, damaged: seq<byte>, k: nat, n: nat)
    requires 5 <= n && n + 3 <= |t| == |damaged| && DiffersOnlyAt(t, damaged, k)
    requires damaged[n - 1] != t[n - 1] || damaged[n] != t[n]
    requires Crc(t[..n - 1]) == Combine(t[n - 1], t[n])
    ensures Crc(damaged[..n - 1]) == Combine(damaged[n - 1], damaged[n]) <==> Unseen(t, damaged, n)
  {
    hide Crc, Combine;
    var a, b, p := t[..n - 1], damaged[..n - 1], t[..n - 2];
    assert damaged[..n - 2] == p;
    assert a == p + [t[n - 2]] && b == p + [damaged[n - 2]];
    SameByte(damaged[n - 2], t[n - 2]);
    if damaged[n - 2] == t[n - 2] {
      CombineInjective(damaged[n - 1], damaged[n], t[n - 1], t[n]);
    } else {
      DamageAtTheSeam(p, t[n - 2], damaged[n - 2], t[n - 1], damaged[n - 1], t[n]);
    }
  }

  /** An accepted frame with damage inside two adjacent bytes behind its length byte is
      still accepted if and only if it is the one pair of changes, at the one place, that
      the checksum cannot see. */
  lemma DamageIsSeenExactlyUnless(noise: seq<byte>, t: seq<byte>, damaged: seq<byte>, k: nat)
    requires Quiet(noise) && Parse(noise + [START, START] + t).0.Ok?
    requires |damaged| == |t| && DiffersOnlyAt(t, damaged, k)
    requires exists i :: 0 <= i < |t| && damaged[i] != t[i] && i < Length(t[0]) + 3
    requires damaged[0] == t[0]
    ensures t != [] && 2 <= Length(t[0]) < |t|
    ensures Parse(noise + [START, START] + damaged).0.Ok? <==> Unseen(t, damaged, Length(t[0]))
  {
    assert |t| > 0;
    hide Hunt, ParseAfterMarker, Length, DiffersOnlyAt, Unseen;
    HuntSkipsNoise(noise, t);
    HuntSkipsNoise(noise, damaged);
    AcceptedFrame(t);
    FrameDamage(t, damaged, k);
  }

  /** The unseen pair leaves no room for other damage. */
  lemma PairIsAlone(t: seq<byte>, damaged: seq<byte>, k: nat, n: nat)
    requires 5 <= n && n + 3 <= |t| == |damaged| && DiffersOnlyAt(t, damaged, k) && Unseen(t, damaged, n)
    ensures damaged[n - 1] != t[n - 1] && damaged[n + 1] == t[n + 1] && damaged[n + 2] == t[n + 2]
  {
    SameByte(damaged[n - 2], t[n - 2]);
    SameByte(damaged[n - 1], t[n - 1]);
    hide Unseen;
    assert k == n - 2;
  }

  lemma CoveredByteDiffers(t: seq<byte>, damaged: seq<byte>, n: nat)
    requires 5 <= n && n + 3 <= |t| == |damaged|
    requires exists i :: 0 <= i < |t| && damaged[i] != t[i] && i < n + 3
    requires damaged[n - 1] == t[n - 1] && damaged[n] == t[n] && damaged[n + 1] == t[n + 1] && damaged[n + 2] == t[n + 2]
    ensures damaged[..n - 1] != t[..n - 1]
  {
    var i :| 0 <= i < |t| && damaged[i] != t[i] && i < n + 3;
    assert damaged[..n - 1][i] == damaged[i] && t[..n - 1][i] == t[i];
  }

  lemma FrameDamage(t: seq<byte>, damaged: seq<byte>, k: nat)
    requires ParseAfterMarker(t).0.Ok? && |damaged| == |t| && DiffersOnlyAt(t, damaged, k)
    requires t != [] && damaged[0] == t[0] && 5 <= Length(t[0]) <= 128 && |t| >= Length(t[0]) + 3
    requires exists i :: 0 <= i < |t| && damaged[i] != t[i] && i < Length(t[0]) + 3
    ensures ParseAfterMarker(damaged).0.Ok? <==> Unseen(t, damaged, Length(t[0]))
  {
    var n := Length(t[0]);
    FrameVerdict(t);
    FrameVerdict(damaged);
    hide ParseAfterMarker, Crc, Combine, Length, DiffersOnlyAt, Unseen;
    if Unseen(t, damaged, n) { PairIsAlone(t, damaged, k, n); }
    if damaged[n + 1] == t[n + 1] && damaged[n + 2] == t[n + 2] {
      if damaged[n - 1] != t[n - 1] || damaged[n] != t[n] {
        ChecksumDamage(t, damaged, k, n);
      } else {
        CoveredDamage(t, damaged, k, n);
        CoveredByteDiffers(t, damaged, n);
      }
    }
  }

  // ---- The accepted frame ----

  lemma LowXor(serial: bv16)
    ensures Low(serial ^ 0x91) == Low(serial) ^ 0x91 && High(serial ^ 0x91) == High(serial)
  {}

  lemma XorIsDifference(x: byte, d: byte)
    ensures (x ^ d) ^ x == d
  {}

  /** A reply behind its start marker. */
  function Body(protocol: byte, high: byte, low: byte, crcHigh: byte, crcLow: byte): seq<byte> {
    [5, protocol, high, low, crcHigh, crcLow, 0x0D, 0x0A]
  }

  /** A short frame whose checksum is right is read, to its end. */
  lemma ShortFrameIsRead(protocol: byte, high: byte, low: byte, crcHigh: byte, crcLow: byte)
    requires Crc([5, protocol, high, low]) == Combine(crcHigh, crcLow)
    ensures Parse([START, START] + Body(protocol, high, low, crcHigh, crcLow)) ==
            (Ok(Frame(protocol, [], Combine(high, low))), [])
  {
    assert Length(5) == 5;
    hide Crc, Combine, Hunt, Length;
    var t := Body(protocol, high, low, crcHigh, crcLow);
    HuntSkipsNoise([], t);
    assert [] + [START, START] + t == [START, START] + t;
    assert t[..4] == [5, protocol, high, low] && t[8..] == [] && t[1..6][1..1] == [];
  }

  lemma ShiftedChecksum(protocol: byte, high: byte, low: byte, crc: bv16)
    requires crc == Crc([5, protocol, high, low])
    ensures Crc([5, protocol, high, low ^ 0x91]) == Combine(High(crc) ^ 0x85, Low(crc))
  {
    hide Crc, High, Low, Combine;
    var p: seq<byte> := [5, protocol, high];
    assert p + [low] == [5, protocol, high, low] && p + [low ^ 0x91] == [5, protocol, high, low ^ 0x91];
    CombineSplit(crc);
    XorIsDifference(low, 0x91);
    XorIsDifference(High(crc), 0x85);
    SameByte(low ^ 0x91, low);
    DamageAtTheSeam(p, low, low ^ 0x91, High(crc), High(crc) ^ 0x85, Low(crc));
  }

  /** Every reply, damaged in this way, is read as the reply to another serial. */
  lemma DamagedReplyIsAccepted(protocol: byte, serial: bv16)
    ensures var crc := Crc([5, protocol, High(serial), Low(serial)]);
            && Reply(protocol, serial) == [START, START] + Body(protocol, High(serial), Low(serial), High(crc), Low(crc))
            && Parse([START, START] + Body(protocol, High(serial), Low(serial) ^ 0x91, High(crc) ^ 0x85, Low(crc))) ==
               (Ok(Frame(protocol, [], serial ^ 0x91)), [])
  {
    hide Crc, High, Low, Combine, Parse;
    var crc := Crc([5, protocol, High(serial), Low(serial)]);
    ShiftedChecksum(protocol, High(serial), Low(serial), crc);
    ShortFrameIsRead(protocol, High(serial), Low(serial) ^ 0x91, High(crc) ^ 0x85, Low(crc));
    LowXor(serial);
    CombineSplit(serial ^ 0x91);
  }
}
