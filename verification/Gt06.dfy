/** GT06 tracker frames: 0x78 0x78, length, protocol, payload, serial, CRC,
    0x0D 0x0A. Reading from a byte stream and writing acknowledgements. */
module Gt06 {
  import opened Crc16

  const START: byte := 0x78

  datatype Frame = Frame(protocol: byte, payload: seq<byte>, serial: bv16)

  datatype FrameError =
    | EndOfInput                  // nothing left to read (io.EOF)
    | UnexpectedEnd               // the stop bytes were cut in two
    | TruncatedBody(empty: bool)  // the body was cut; empty when none of it came
    | LengthOutOfRange
    | BadStop
    | CrcMismatch(want: bv16, got: bv16)

  datatype Result = Ok(frame: Frame) | Err(error: FrameError)

  function High(x: bv16): byte { (x >> 8) as byte }
  function Low(x: bv16): byte { (x & 0xFF) as byte }
  function Combine(high: byte, low: byte): bv16 { ((high as bv16) << 8) ^ (low as bv16) }

  /** The length byte as a number. */
  function Length(b: byte): nat { b as int }

  lemma CombineSplit(x: bv16)
    ensures Combine(High(x), Low(x)) == x
  {}

  // ---- Reading ----

  datatype Hunted = NoMarker | Found(rest: seq<byte>)

  /** What remains after the first pair of start bytes. */
  function Hunt(s: seq<byte>): Hunted {
    if |s| < 2 then NoMarker
    else if s[0] == START && s[1] == START then Found(s[2..])
    else Hunt(s[1..])
  }

  /** A frame after its start marker: the result and the bytes left unread. */
  function ParseAfterMarker(t: seq<byte>): (Result, seq<byte>) {
    if t == [] then (Err(EndOfInput), [])
    else if Length(t[0]) < 5 || Length(t[0]) > 128 then (Err(LengthOutOfRange), t[1..])
    else
      var n := Length(t[0]);
      if |t| - 1 < n then (Err(TruncatedBody(|t| == 1)), [])
      else if |t| == n + 1 then (Err(EndOfInput), [])
      else if |t| == n + 2 then (Err(UnexpectedEnd), [])
      else
        var body, rest := t[1..n + 1], t[n + 3..];
        if t[n + 1] != 0x0D || t[n + 2] != 0x0A then (Err(BadStop), rest)
        else
          var want, got := Crc(t[..n - 1]), Combine(body[n - 2], body[n - 1]);
          if want != got then (Err(CrcMismatch(want, got)), rest)
          else (Ok(Frame(body[0], body[1..n - 4], Combine(body[n - 4], body[n - 3]))), rest)
  }

  function Parse(s: seq<byte>): (Result, seq<byte>) {
    match Hunt(s)
    case NoMarker => (Err(EndOfInput), [])
    case Found(t) => ParseAfterMarker(t)
  }

  /** A buffered reader over the bytes still to come. */
  class Reader {
    var rest: seq<byte>

    constructor (input: seq<byte>)
      ensures rest == input
    {
      rest := input;
    }

    method ReadByte() returns (ok: bool, b: byte)
      modifies this
      ensures ok <==> old(rest) != []
      ensures if ok then b == old(rest)[0] && rest == old(rest)[1..] else rest == old(rest)
    {
      if rest == [] {
        return false, 0;
      }
      ok, b, rest := true, rest[0], rest[1..];
    }

    /** `io.ReadFull`: on a shortage everything left is consumed. */
    method ReadFull(n: nat) returns (got: seq<byte>)
      modifies this
      ensures if n <= |old(rest)| then got == old(rest)[..n] && rest == old(rest)[n..]
              else got == old(rest) && rest == []
    {
      if n <= |rest| {
        got, rest := rest[..n], rest[n..];
      } else {
        got, rest := rest, [];
      }
    }

    /** Hunt for the start marker. */
    method HuntMarker() returns (found: bool)
      modifies this
      ensures found <==> Hunt(old(rest)).Found?
      ensures rest == if found then Hunt(old(rest)).rest else []
    {
      while true
        invariant Hunt(old(rest)) == Hunt(rest)
        decreases |rest|
      {
        var before := rest;
        var ok, first := ReadByte();
        if !ok {
          return false;
        }
        if first == START {
          if rest == [] {
            return false;
          }
          if rest[0] == START {
            var _, _ := ReadByte();
            assert before[2..] == rest;
            return true;
          }
        }
      }
    }

    method ReadFrame() returns (r: Result)
      modifies this
      ensures (r, rest) == Parse(old(rest))
    {
      var found := HuntMarker();
      if !found {
        return Err(EndOfInput);
      }
      r := ReadAfterMarker();
    }

    method ReadAfterMarker() returns (r: Result)
      modifies this
      ensures (r, rest) == ParseAfterMarker(old(rest))
    {
      hide Crc, Length, Combine;
      ghost var t := rest;
      var ok, length := ReadByte();
      if !ok {
        return Err(EndOfInput);
      }
      var n := Length(length);
      if n < 5 || n > 128 {
        return Err(LengthOutOfRange);
      }
      var body := ReadFull(n);
      if |body| < n {
        return Err(TruncatedBody(body == []));
      }
      assert body == t[1..n + 1] && rest == t[n + 1..];
      var stop := ReadFull(2);
      if |stop| < 2 {
        return Err(if stop == [] then EndOfInput else UnexpectedEnd);
      }
      assert stop[0] == t[n + 1] && stop[1] == t[n + 2] && rest == t[n + 3..];
      if stop[0] != 0x0D || stop[1] != 0x0A {
        return Err(BadStop);
      }
      var expected := Crc16X25([length] + body[..n - 2]);
      assert [length] + body[..n - 2] == t[..n - 1];
      var actual := Combine(body[n - 2], body[n - 1]);
      if expected != actual {
        return Err(CrcMismatch(expected, actual));
      }
      return Ok(Frame(body[0], body[1..n - 4], Combine(body[n - 4], body[n - 3])));
    }
  }

  // ---- Writing ----

  /** The acknowledgement of a frame. */
  function Reply(protocol: byte, serial: bv16): seq<byte> {
    var covered := [5, protocol, High(serial), Low(serial)];
    [START, START] + covered + [High(Crc(covered)), Low(Crc(covered)), 0x0D, 0x0A]
  }

  class Writer {
    var written: seq<byte>

    constructor ()
      ensures written == []
    {
      written := [];
    }

    method WriteReply(protocol: byte, serial: bv16)
      modifies this
      ensures written == old(written) + Reply(protocol, serial)
    {
      hide Crc;
      var length: byte := 5;
      var body := [protocol, High(serial), Low(serial)];
      var crc := Crc16X25([length] + body);
      var frame := [START, START, length];
      frame := frame + body;
      frame := frame + [High(crc), Low(crc), 0x0D, 0x0A];
      assert [length] + body == [5, protocol, High(serial), Low(serial)];
      assert frame == Reply(protocol, serial);
      written := written + frame;
    }
  }

  // ---- Round trip ----

  /** Noise the hunt skips: no two adjacent start bytes and none at the end. */
  ghost predicate Quiet(noise: seq<byte>) {
    && (forall i :: 0 <= i < |noise| - 1 ==> noise[i] != START || noise[i + 1] != START)
    && (noise != [] ==> noise[|noise| - 1] != START)
  }

  lemma {:induction false} HuntSkipsNoise(noise: seq<byte>, t: seq<byte>)
    requires Quiet(noise)
    ensures Hunt(noise + [START, START] + t) == Found(t)
  {
    var s := noise + [START, START] + t;
    if noise == [] {
      assert s[2..] == t;
    } else {
      assert s[1..] == noise[1..] + [START, START] + t;
      HuntSkipsNoise(noise[1..], t);
      if |noise| > 1 { assert s[1] == noise[1]; }
    }
  }

  /** A reply behind noise is read back as its frame, up to its last byte. */
  lemma ReplyIsRead(noise: seq<byte>, protocol: byte, serial: bv16, tail: seq<byte>)
    requires Quiet(noise)
    ensures Parse(noise + Reply(protocol, serial) + tail) == (Ok(Frame(protocol, [], serial)), tail)
  {
    assert Length(5) == 5;
    hide Crc, Hunt, Combine, High, Low, Length;
    var covered := [5 as byte, protocol, High(serial), Low(serial)];
    var crc := Crc(covered);
    var t := covered + [High(crc), Low(crc), 0x0D, 0x0A] + tail;
    assert noise + Reply(protocol, serial) + tail == noise + [START, START] + t;
    HuntSkipsNoise(noise, t);
    CombineSplit(crc);
    CombineSplit(serial);
    assert t[..4] == covered && t[8..] == tail && t[1..6][1..1] == [];
  }

  datatype Ack = Ack(noise: seq<byte>, protocol: byte, serial: bv16)

  function Stream(acks: seq<Ack>): seq<byte> {
    if acks == [] then [] else acks[0].noise + Reply(acks[0].protocol, acks[0].serial) + Stream(acks[1..])
  }

  function FramesOf(acks: seq<Ack>): seq<Frame> {
    seq(|acks|, i requires 0 <= i < |acks| => Frame(acks[i].protocol, [], acks[i].serial))
  }

  lemma {:induction false} ParseConsumes(s: seq<byte>)
    ensures Parse(s).0.Ok? ==> |Parse(s).1| < |s|
  {
    if |s| >= 2 && !(s[0] == START && s[1] == START) {
      ParseConsumes(s[1..]);
    }
  }

  /** Read frames until the first error, as `serve` does. */
  function ReadAll(s: seq<byte>): (seq<Frame>, FrameError)
    decreases |s|
  {
    ParseConsumes(s);
    match Parse(s)
    case (Err(e), _) => ([], e)
    case (Ok(f), rest) => var (more, e) := ReadAll(rest); ([f] + more, e)
  }

  /** Every sequence of replies, each behind quiet noise, is read back frame by
      frame, ending at the end of the input. */
  lemma {:induction false} RepliesRoundTrip(acks: seq<Ack>)
    requires forall i :: 0 <= i < |acks| ==> Quiet(acks[i].noise)
    ensures ReadAll(Stream(acks)) == (FramesOf(acks), EndOfInput)
  {
    hide Parse, Reply, Quiet;
    if acks == [] {
      NothingToRead();
    } else {
      ReplyIsRead(acks[0].noise, acks[0].protocol, acks[0].serial, Stream(acks[1..]));
      RepliesRoundTrip(acks[1..]);
      assert FramesOf(acks) == [Frame(acks[0].protocol, [], acks[0].serial)] + FramesOf(acks[1..]);
    }
  }

  lemma NothingToRead()
    ensures Parse([]) == (Err(EndOfInput), [])
  {}

  // ---- Corruption ----

  /** A frame the reader accepts, damaged only inside its protocol, payload and
      serial bytes and only within sixteen consecutive bits, is rejected. */
  lemma CorruptionIsRejected(noise: seq<byte>, t: seq<byte>, damaged: seq<byte>, start: nat)
    requires Quiet(noise) && Parse(noise + [START, START] + t).0.Ok?
    requires |damaged| == |t| && damaged != t && BurstAt(t, damaged, start)
    requires forall i :: 0 <= i < |t| && damaged[i] != t[i] ==> 1 <= i < Length(t[0]) - 1
    ensures Parse(noise + [START, START] + damaged).0.Err?
    ensures Parse(noise + [START, START] + damaged).0.error.CrcMismatch?
  {
    hide Hunt;
    HuntSkipsNoise(noise, t);
    HuntSkipsNoise(noise, damaged);
    DamagedFrame(t, damaged, start);
  }

  lemma DamagedFrame(t: seq<byte>, damaged: seq<byte>, start: nat)
    requires ParseAfterMarker(t).0.Ok?
    requires |damaged| == |t| && damaged != t && BurstAt(t, damaged, start)
    requires forall i :: 0 <= i < |t| && damaged[i] != t[i] ==> 1 <= i < Length(t[0]) - 1
    ensures ParseAfterMarker(damaged).0.Err? && ParseAfterMarker(damaged).0.error.CrcMismatch?
  {
    hide Crc, Combine, Bit, Length;
    var n := Length(t[0]);
    assert damaged[0] == t[0] && damaged[n - 1] == t[n - 1] && damaged[n] == t[n];
    assert damaged[n + 1] == t[n + 1] && damaged[n + 2] == t[n + 2];
    var a, b := t[..n - 1], damaged[..n - 1];
    assert a != b by {
      var i :| 0 <= i < |t| && damaged[i] != t[i];
      assert a[i] == t[i] && b[i] == damaged[i];
    }
    CrcDetectsBursts(a, b, start);
  }
}
