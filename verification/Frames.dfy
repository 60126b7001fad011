/** Frames: size[4] type[1] tag[2] body (libs/planten_9p/src/lib.rs:18-53 and 250-258). */
module Frames {
  import opened Bytes
  import opened Codec

  datatype RawMessage = RawMessage(size: U32, msgType: Byte, tag: U16, body: seq<Byte>)

  /** The longest body whose frame size still fits the u32 size field. */
  const MAX_BODY: nat := 0x1_0000_0000 - 8

  /** `7 + body.len() as u32`, which wraps. */
  function FrameSize(body: seq<Byte>): U32 {
    (7 + |body| % 0x1_0000_0000) % 0x1_0000_0000
  }

  function BuildFrame(msgType: Byte, tag: U16, body: seq<Byte>): (r: seq<Byte>)
    ensures |r| == 7 + |body|
  {
    U32Le(FrameSize(body)) + ([msgType] + (U16Le(tag) + body))
  }

  function ReadFrame(b: seq<Byte>): Parsed<RawMessage> {
    var (size, r1) :- ParseU32(b);
    if size < 7 then Err(InvalidData)
    else
      var (header, r2) :- ParseBytes(r1, 3);
      var (tag, _) :- ParseU16(header[1..]);
      var (body, rest) :- ParseBytes(r2, size - 7);
      Ok(RawMessage(size, header[0], tag, body), rest)
  }

  /** What the reader leaves: it takes a frame whole, and of what is no frame only the size field; for the rest of a cut
      one it waits. */
  function Behind(b: seq<Byte>): seq<Byte> {
    match ReadFrame(b)
    case Ok(_, rest) => rest
    case Err(e) => if e == InvalidData && |b| >= 4 then b[4..] else b
  }

  function Message(msgType: Byte, tag: U16, body: seq<Byte>): RawMessage
    requires |body| <= MAX_BODY
  {
    RawMessage(7 + |body|, msgType, tag, body)
  }

  lemma ReadParts(size: U32, msgType: Byte, tag: U16, tail: seq<Byte>)
    requires size >= 7
    ensures ReadFrame(U32Le(size) + ([msgType] + (U16Le(tag) + tail))) ==
            match ParseBytes(tail, size - 7)
            case Err(e) => Err(e)
            case Ok(body, rest) => Ok(RawMessage(size, msgType, tag, body), rest)
  {
    var r1 := [msgType] + (U16Le(tag) + tail);
    ParseU32Le(size, r1);
    hide ParseU32, U32Le, ParseU16, U16Le;
    var header := [msgType] + U16Le(tag);
    assert r1 == header + tail;
    TakeFirst(header, tail);
    assert header[1..] == U16Le(tag) + [];
    ParseU16Le(tag, []);
  }

  lemma FramePrefix(msgType: Byte, tag: U16, body: seq<Byte>, rest: seq<Byte>)
    ensures BuildFrame(msgType, tag, body) + rest ==
            U32Le(FrameSize(body)) + ([msgType] + (U16Le(tag) + (body + rest)))
  {
  }

  lemma FrameIsRead(msgType: Byte, tag: U16, body: seq<Byte>, rest: seq<Byte>)
    requires |body| <= MAX_BODY
    ensures ReadFrame(BuildFrame(msgType, tag, body) + rest) == Ok(Message(msgType, tag, body), rest)
  {
    hide ReadFrame, BuildFrame, ParseU32, U32Le, U16Le;
    FramePrefix(msgType, tag, body, rest);
    ReadParts(7 + |body|, msgType, tag, body + rest);
    TakeFirst(body, rest);
  }

  /** An accepted frame is exactly the encoding of what was read: at least 7 bytes of the input. */
  lemma ReadIsFrame(b: seq<Byte>)
    requires ReadFrame(b).Ok?
    ensures var m := ReadFrame(b).value;
            && |m.body| <= MAX_BODY && m == Message(m.msgType, m.tag, m.body)
            && b == BuildFrame(m.msgType, m.tag, m.body) + ReadFrame(b).rest
            && |ReadFrame(b).rest| + 7 <= |b|
  {
    hide BuildFrame, ParseU32, ParseU16, FromLe, ToLe;
    ParsedU32(b);
    var m, r1 := ReadFrame(b).value, ParseU32(b).rest;
    var header := r1[..3];
    ParsedU16(header[1..]);
    assert ParseU16(header[1..]).rest == [];
    HeaderParts(header, m.msgType, m.tag);
    assert r1 == header + r1[3..];
    assert r1[3..] == m.body + ReadFrame(b).rest;
    FramePrefix(m.msgType, m.tag, m.body, ReadFrame(b).rest);
  }

  lemma HeaderParts(header: seq<Byte>, msgType: Byte, tag: U16)
    requires |header| == 3 && header[0] == msgType && header[1..] == U16Le(tag) + []
    ensures forall tail: seq<Byte> :: header + tail == [msgType] + (U16Le(tag) + tail)
  {
    assert header == [msgType] + U16Le(tag);
  }

  /** The frame of a body is read back, whatever follows it, exactly when the body is at most 2^32 - 8 bytes. */
  lemma FrameRoundTrip(msgType: Byte, tag: U16, body: seq<Byte>, rest: seq<Byte>)
    ensures (exists m: RawMessage :: ReadFrame(BuildFrame(msgType, tag, body) + rest) == Ok(m, rest)
              && m.msgType == msgType && m.tag == tag && m.body == body)
            <==> |body| <= MAX_BODY
  {
    if |body| <= MAX_BODY {
      FrameIsRead(msgType, tag, body, rest);
    } else {
      var b := BuildFrame(msgType, tag, body) + rest;
      if ReadFrame(b).Ok? { ReadIsFrame(b); }
    }
  }

  /** No strict prefix of a frame parses: the reader waits for the rest. */
  lemma FramePrefixIsShort(msgType: Byte, tag: U16, body: seq<Byte>, k: nat)
    requires |body| <= MAX_BODY && k < 7 + |body|
    ensures ReadFrame(BuildFrame(msgType, tag, body)[..k]) == Err(UnexpectedEof)
  {
    var frame := BuildFrame(msgType, tag, body);
    var size := 7 + |body|;
    var cut := frame[..k];
    if k >= 4 {
      assert cut == U32Le(size) + cut[4..];
      ParseU32Le(size, cut[4..]);
      if k >= 7 {
        assert cut == U32Le(size) + ([msgType] + (U16Le(tag) + body[..k - 7]));
        ReadParts(size, msgType, tag, body[..k - 7]);
      }
    }
  }

  // ---------------------------------------------------------------- streams

  /** The reading loop: all the frames, and the error it stops at. */
  function ReadAll(b: seq<Byte>): (r: (seq<RawMessage>, IoError))
    decreases |b|
  {
    match ReadFrame(b)
    case Err(e) => ([], e)
    case Ok(m, rest) =>
      ReadIsFrame(b);
      var (ms, e) := ReadAll(rest);
      ([m] + ms, e)
  }

  /** What is left behind the last frame. */
  function Remainder(b: seq<Byte>): seq<Byte>
    decreases |b|
  {
    match ReadFrame(b)
    case Err(_) => b
    case Ok(_, rest) =>
      ReadIsFrame(b);
      Remainder(rest)
  }

  function FrameOf(m: RawMessage): seq<Byte> {
    BuildFrame(m.msgType, m.tag, m.body)
  }

  function Concat(ms: seq<RawMessage>): seq<Byte> {
    if ms == [] then [] else FrameOf(ms[0]) + Concat(ms[1..])
  }

  predicate WellFormed(m: RawMessage) {
    |m.body| <= MAX_BODY && m == Message(m.msgType, m.tag, m.body)
  }

  lemma ReadOne(b: seq<Byte>, m: RawMessage, rest: seq<Byte>)
    requires ReadFrame(b) == Ok(m, rest)
    ensures ReadAll(b) == ([m] + ReadAll(rest).0, ReadAll(rest).1)
  {
    ReadIsFrame(b);
  }

  lemma {:induction false} ReadAllFrames(ms: seq<RawMessage>, tail: seq<Byte>)
    requires forall i :: 0 <= i < |ms| ==> WellFormed(ms[i])
    ensures ReadAll(Concat(ms) + tail) == (ms + ReadAll(tail).0, ReadAll(tail).1)
  {
    hide ReadFrame, BuildFrame;
    if ms == [] {
      assert Concat(ms) + tail == tail;
      assert ms + ReadAll(tail).0 == ReadAll(tail).0;
    } else {
      ReadAllFrames(ms[1..], tail);
      var m, more := ms[0], Concat(ms[1..]) + tail;
      Regroup(FrameOf(m), Concat(ms[1..]), tail);
      FrameIsRead(m.msgType, m.tag, m.body, more);
      ReadOne(FrameOf(m) + more, m, more);
      Regroup([m], ms[1..], ReadAll(tail).0);
      assert [m] + ms[1..] == ms;
    }
  }

  lemma ReadNothing()
    ensures ReadAll([]) == ([], UnexpectedEof)
  {
  }

  /** Any list of frames, concatenated, is read back as exactly that list, and the reader stops at the end. */
  lemma StreamRoundTrip(ms: seq<RawMessage>)
    requires forall i :: 0 <= i < |ms| ==> WellFormed(ms[i])
    ensures ReadAll(Concat(ms)) == (ms, UnexpectedEof)
  {
    ReadAllFrames(ms, []);
    hide BuildFrame, ReadAll;
    ReadNothing();
    assert Concat(ms) + [] == Concat(ms);
    assert ms + [] == ms;
  }

  /** Any stream is the frames read from it and a remainder no frame can be read from. */
  lemma {:induction false} StreamIsFrames(b: seq<Byte>)
    ensures b == Concat(ReadAll(b).0) + Remainder(b)
    ensures ReadFrame(Remainder(b)) == Err(ReadAll(b).1)
    ensures forall i :: 0 <= i < |ReadAll(b).0| ==> WellFormed(ReadAll(b).0[i])
    decreases |b|
  {
    if ReadFrame(b).Ok? {
      var m, rest := ReadFrame(b).value, ReadFrame(b).rest;
      ReadIsFrame(b);
      ReadOne(b, m, rest);
      RemainderOne(b);
      StreamIsFrames(rest);
      hide ReadFrame, BuildFrame, ReadAll, Remainder;
      var ms := ReadAll(rest).0;
      assert ([m] + ms)[0] == m && ([m] + ms)[1..] == ms;
      Regroup(FrameOf(m), Concat(ms), Remainder(rest));
    }
  }

  lemma RemainderOne(b: seq<Byte>)
    requires ReadFrame(b).Ok?
    ensures Remainder(b) == Remainder(ReadFrame(b).rest)
  {
    hide ReadFrame;
  }

  /** What follows a frame does not change how it is read. */
  lemma ReadAhead(b: seq<Byte>, more: seq<Byte>)
    requires ReadFrame(b).Ok?
    ensures ReadFrame(b + more) == Ok(ReadFrame(b).value, ReadFrame(b).rest + more)
  {
    hide ReadFrame, BuildFrame;
    ReadIsFrame(b);
    var m := ReadFrame(b).value;
    Regroup(BuildFrame(m.msgType, m.tag, m.body), ReadFrame(b).rest, more);
    FrameIsRead(m.msgType, m.tag, m.body, ReadFrame(b).rest + more);
  }

  lemma {:induction false} ConcatAppend(a: seq<RawMessage>, b: seq<RawMessage>)
    ensures Concat(a + b) == Concat(a) + Concat(b)
  {
    hide BuildFrame;
    if a == [] {
      assert a + b == b;
    } else {
      ConcatAppend(a[1..], b);
      assert (a + b)[0] == a[0] && (a + b)[1..] == a[1..] + b;
      Regroup(FrameOf(a[0]), Concat(a[1..]), Concat(b));
    }
  }
}
