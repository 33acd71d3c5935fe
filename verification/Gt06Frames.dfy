/** Printing any GT06 frame and reading it back: the reader accepts exactly the
    encodings of frames, behind quiet noise. */
module Gt06Frames {
  import opened Crc16
  import opened Gt06

  /** The bytes the checksum covers: length, protocol, payload and serial. */
  function Covered(f: Frame): (c: seq<byte>)
    requires |f.payload| <= 123
    ensures |c| == |f.payload| + 4
  {
    [(|f.payload| + 5) as byte, f.protocol] + f.payload + [High(f.serial), Low(f.serial)]
  }

  /** The frame as a tracker sends it. */
  function Encode(f: Frame): seq<byte>
    requires |f.payload| <= 123
  {
    var crc := Crc(Covered(f));
    [START, START] + Covered(f) + [High(crc), Low(crc), 0x0D, 0x0A]
  }

  lemma LengthOfByte(n: nat)
    requires n < 256
    ensures Length(n as byte) == n
  {}

  lemma ByteOfLength(b: byte)
    ensures Length(b) < 256 && Length(b) as byte == b
  {}

  lemma SplitCombine(high: byte, low: byte)
    ensures High(Combine(high, low)) == high && Low(Combine(high, low)) == low
  {}

  /** What follows the start marker of a frame, byte by byte. */
  function Layout(len: byte, f: Frame, crc: bv16, tail: seq<byte>): (t: seq<byte>)
    ensures |t| == |f.payload| + 8 + |tail|
  {
    [len, f.protocol] + f.payload + [High(f.serial), Low(f.serial), High(crc), Low(crc), 0x0D, 0x0A] + tail
  }

  lemma LayoutAt(len: byte, f: Frame, crc: bv16, tail: seq<byte>)
    ensures var t, m := Layout(len, f, crc, tail), |f.payload|;
            && t[0] == len && t[1] == f.protocol && t[2..m + 2] == f.payload
            && t[m + 2] == High(f.serial) && t[m + 3] == Low(f.serial) && t[m + 4] == High(crc) && t[m + 5] == Low(crc)
            && t[m + 6] == 0x0D && t[m + 7] == 0x0A && t[m + 8..] == tail
            && t[..m + 4] == [len, f.protocol] + f.payload + [High(f.serial), Low(f.serial)]
  {
    hide High, Low;
    var t, m := Layout(len, f, crc, tail), |f.payload|;
    var head, six := [len, f.protocol], [High(f.serial), Low(f.serial), High(crc), Low(crc), 0x0D, 0x0A];
    assert t == head + f.payload + six + tail;
    forall i | 0 <= i < m ensures t[2 + i] == f.payload[i] {}
    forall i | 0 <= i < 6 ensures t[m + 2 + i] == six[i] {}
    forall i | 0 <= i < |tail| ensures t[m + 8 + i] == tail[i] {}
    assert t[m + 2 + 0] == six[0] && t[m + 2 + 1] == six[1] && t[m + 2 + 2] == six[2];
    assert t[m + 2 + 3] == six[3] && t[m + 2 + 4] == six[4] && t[m + 2 + 5] == six[5];
  }

  /** The reader's result in terms of the bytes behind the marker. */
  lemma ParsedFrame(t: seq<byte>, n: nat)
    requires t != [] && n == Length(t[0]) && 5 <= n <= 128 && |t| >= n + 3
    ensures ParseAfterMarker(t).0.Ok? <==>
            t[n + 1] == 0x0D && t[n + 2] == 0x0A && Crc(t[..n - 1]) == Combine(t[n - 1], t[n])
    ensures ParseAfterMarker(t).0.Ok? ==>
            ParseAfterMarker(t) == (Ok(Frame(t[1], t[2..n - 3], Combine(t[n - 3], t[n - 2]))), t[n + 3..])
  {
    hide Crc, Combine, Length;
    var body := t[1..n + 1];
    assert body[0] == t[1] && body[n - 4] == t[n - 3] && body[n - 3] == t[n - 2];
    assert body[n - 2] == t[n - 1] && body[n - 1] == t[n];
    SliceOfSlice(t, 1, n + 1, 1, n - 4);
  }

  lemma SliceOfSlice(t: seq<byte>, lo: nat, hi: nat, a: nat, b: nat)
    requires lo <= hi <= |t| && a <= b <= hi - lo
    ensures t[lo..hi][a..b] == t[lo + a..lo + b]
  {
    var u, v := t[lo..hi][a..b], t[lo + a..lo + b];
    forall i | 0 <= i < |u| ensures u[i] == v[i] {
      assert u[i] == t[lo..hi][a + i] == t[lo + (a + i)];
    }
  }

  lemma AcceptedLength(t: seq<byte>)
    requires ParseAfterMarker(t).0.Ok?
    ensures t != [] && 5 <= Length(t[0]) <= 128 && |t| >= Length(t[0]) + 3
  {
    hide Crc, Combine, Length;
  }

  lemma LayoutIsParsed(f: Frame, tail: seq<byte>)
    requires |f.payload| <= 123
    ensures ParseAfterMarker(Layout((|f.payload| + 5) as byte, f, Crc(Covered(f)), tail)) == (Ok(f), tail)
  {
    var n, crc := |f.payload| + 5, Crc(Covered(f));
    var t := Layout(n as byte, f, crc, tail);
    LengthOfByte(n);
    LayoutAt(n as byte, f, crc, tail);
    assert t[..n - 1] == Covered(f);
    hide Crc, Combine, High, Low, Length, Layout, Covered, ParseAfterMarker;
    ParsedFrame(t, n);
    CombineSplit(crc);
    CombineSplit(f.serial);
  }

  lemma EncodeIsLayout(f: Frame, tail: seq<byte>)
    requires |f.payload| <= 123
    ensures Encode(f) + tail == [START, START] + Layout((|f.payload| + 5) as byte, f, Crc(Covered(f)), tail)
  {
    hide Crc, High, Low;
  }

  /** Every frame with a payload of up to 123 bytes, behind quiet noise, is read back
      whole, and exactly its bytes are consumed. */
  lemma FrameIsRead(noise: seq<byte>, f: Frame, tail: seq<byte>)
    requires Quiet(noise) && |f.payload| <= 123
    ensures Parse(noise + Encode(f) + tail) == (Ok(f), tail)
  {
    var t := Layout((|f.payload| + 5) as byte, f, Crc(Covered(f)), tail);
    EncodeIsLayout(f, tail);
    hide Hunt, Layout, Encode, ParseAfterMarker, Covered, Crc;
    assert noise + Encode(f) + tail == noise + (Encode(f) + tail);
    assert noise + [START, START] + t == noise + ([START, START] + t);
    HuntSkipsNoise(noise, t);
    LayoutIsParsed(f, tail);
  }

  // ---- The converse ----

  lemma {:induction false} HuntSplits(s: seq<byte>) returns (noise: seq<byte>)
    requires Hunt(s).Found?
    ensures Quiet(noise) && s == noise + [START, START] + Hunt(s).rest
  {
    if s[0] == START && s[1] == START {
      noise := [];
      assert s == [] + [START, START] + s[2..];
    } else {
      var later := HuntSplits(s[1..]);
      noise := [s[0]] + later;
      assert s == [s[0]] + s[1..];
      assert later != [] ==> s[1] == later[0];
    }
  }

  lemma AcceptedIsLayout(t: seq<byte>)
    requires ParseAfterMarker(t).0.Ok?
    ensures var f := ParseAfterMarker(t).0.frame;
            |f.payload| <= 123 && t == Layout((|f.payload| + 5) as byte, f, Crc(Covered(f)), ParseAfterMarker(t).1)
  {
    AcceptedLength(t);
    ByteOfLength(t[0]);
    var n := Length(t[0]);
    ParsedFrame(t, n);
    hide ParseAfterMarker, Crc, Combine, High, Low, Length;
    var f, rest := ParseAfterMarker(t).0.frame, ParseAfterMarker(t).1;
    SplitCombine(t[n - 3], t[n - 2]);
    SplitCombine(t[n - 1], t[n]);
    LayoutOfPieces(t, n, f, Combine(t[n - 1], t[n]));
    hide Layout;
  }

  lemma LayoutOfPieces(t: seq<byte>, n: nat, f: Frame, crc: bv16)
    requires 5 <= n <= 128 && n + 3 <= |t| && t[0] == n as byte && t[n + 1] == 0x0D && t[n + 2] == 0x0A
    requires f.protocol == t[1] && f.payload == t[2..n - 3]
    requires High(f.serial) == t[n - 3] && Low(f.serial) == t[n - 2] && High(crc) == t[n - 1] && Low(crc) == t[n]
    ensures |f.payload| + 5 == n && t == Layout(n as byte, f, crc, t[n + 3..]) && Covered(f) == t[..n - 1]
  {
    hide High, Low;
    PiecesOf(t, n);
  }

  /** A sequence is the concatenation of its pieces. */
  lemma PiecesOf(t: seq<byte>, n: nat)
    requires 5 <= n && n + 3 <= |t|
    ensures t == [t[0], t[1]] + t[2..n - 3] + [t[n - 3], t[n - 2], t[n - 1], t[n], t[n + 1], t[n + 2]] + t[n + 3..]
    ensures t[..n - 1] == [t[0], t[1]] + t[2..n - 3] + [t[n - 3], t[n - 2]]
  {}

  /** And nothing else is accepted: an input from which a frame is read is quiet noise,
      the encoding of that frame, and what is left unread. */
  lemma AcceptedIsEncoded(s: seq<byte>) returns (noise: seq<byte>)
    requires Parse(s).0.Ok?
    ensures Quiet(noise) && |Parse(s).0.frame.payload| <= 123
    ensures s == noise + Encode(Parse(s).0.frame) + Parse(s).1
  {
    noise := HuntSplits(s);
    var t := Hunt(s).rest;
    assert Parse(s) == ParseAfterMarker(t);
    hide *;
    AcceptedIsLayout(t);
    Assemble(noise, t, ParseAfterMarker(t).0.frame, ParseAfterMarker(t).1);
  }

  lemma Assemble(noise: seq<byte>, t: seq<byte>, f: Frame, rest: seq<byte>)
    requires |f.payload| <= 123 && t == Layout((|f.payload| + 5) as byte, f, Crc(Covered(f)), rest)
    ensures noise + [START, START] + t == noise + Encode(f) + rest
  {
    EncodeIsLayout(f, rest);
    hide Encode, Layout;
    assert noise + Encode(f) + rest == noise + (Encode(f) + rest);
    assert noise + [START, START] + t == noise + ([START, START] + t);
  }

  /** An acknowledgement is the encoding of the frame without a payload. */
  lemma ReplyIsAnEncoding(protocol: byte, serial: bv16)
    ensures Reply(protocol, serial) == Encode(Frame(protocol, [], serial))
  {
    hide Crc, High, Low;
    assert Covered(Frame(protocol, [], serial)) == [5, protocol, High(serial), Low(serial)];
  }

  // ---- What is refused ----

  /** Why a frame is refused, behind quiet noise and the start marker, and how much of the
      input is then gone: the length byte alone if it is out of range, the whole frame if
      its stop bytes or its checksum are wrong, everything if it is cut short. */
  lemma RefusedExactlyWhen(noise: seq<byte>, t: seq<byte>)
    requires Quiet(noise)
    ensures var (r, rest) := Parse(noise + [0x78, 0x78] + t);
            if t == [] then r == Err(EndOfInput) && rest == []
            else
              var n := Length(t[0]);
              if n < 5 || n > 128 then r == Err(LengthOutOfRange) && rest == t[1..]
              else if |t| < n + 3 then
                && rest == []
                && r == Err(if |t| <= n then TruncatedBody(|t| == 1) else if |t| == n + 1 then EndOfInput else UnexpectedEnd)
              else
                && rest == t[n + 3..]
                && (r == Err(BadStop) <==> !(t[n + 1] == 0x0D && t[n + 2] == 0x0A))
                && (r.Err? && r.error.CrcMismatch? <==>
                      t[n + 1] == 0x0D && t[n + 2] == 0x0A && Crc(t[..n - 1]) != Combine(t[n - 1], t[n]))
                && (r.Err? ==> r.error.BadStop? || r.error == CrcMismatch(Crc(t[..n - 1]), Combine(t[n - 1], t[n])))
  {
    hide Crc, Combine, Length, Hunt;
    HuntSkipsNoise(noise, t);
  }

  /** Where no two start bytes are adjacent there is nothing to read. */
  lemma {:induction false} NoMarkerNoFrame(s: seq<byte>)
    requires forall i :: 0 <= i < |s| - 1 ==> s[i] != 0x78 || s[i + 1] != 0x78
    ensures Parse(s) == (Err(EndOfInput), [])
  {
    hide ParseAfterMarker;
    if |s| >= 2 {
      assert forall i :: 0 <= i < |s| - 1 ==> s[1..][i] == s[i + 1];
      NoMarkerNoFrame(s[1..]);
    }
  }
}
