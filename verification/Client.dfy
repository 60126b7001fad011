/** The client: what it writes and what it takes from its stream (libs/planten_9p/src/lib.rs:55-226). */
module Clients {
  import opened Bytes
  import opened Stats
  import opened Codec
  import opened Frames
  import opened Messages
  import opened Listing
  import opened Wire

  datatype ClientError = Lost(error: IoError) | MismatchedTag | UnexpectedType | InvalidMsize

  /** The `io::Result` of a client call. */
  datatype Answer<+T> = Fine(value: T) | Failure(error: ClientError) {
    predicate IsFailure() { Failure? }

    function PropagateFailure<U>(): Answer<U>
      requires Failure?
    {
      Failure(error)
    }

    function Extract(): T
      requires Fine?
    {
      value
    }
  }

  // ---------------------------------------------------------------- reading a reply

  /** The reply `send_and_wait` returns, from what arrived. */
  function Await(tag: U16, arrived: Parsed<RawMessage>): Answer<RawMessage> {
    match arrived
    case Err(e) => Failure(Lost(e))
    case Ok(m, _) => if m.tag != tag then Failure(MismatchedTag) else Fine(m)
  }

  /** `ensure_msg_type` */
  function OfType(a: Answer<RawMessage>, expected: Byte): Answer<seq<Byte>> {
    var m :- a;
    if m.msgType != expected then Failure(UnexpectedType) else Fine(m.body)
  }

  function Decoded<T>(p: Parsed<T>): Answer<T> {
    match p
    case Err(e) => Failure(Lost(e))
    case Ok(v, _) => Fine(v)
  }

  function ParseQids(b: seq<Byte>, n: nat): Parsed<()> {
    if n == 0 then Ok((), b)
    else
      var (_, rest) :- ParseQid(b);
      ParseQids(rest, n - 1)
  }

  function ParseWalkReply(b: seq<Byte>): Parsed<U16> {
    var (nwqid, r1) :- ParseU16(b);
    var (_, r2) :- ParseQids(r1, nwqid);
    Ok(nwqid, r2)
  }

  function ParseOpenReply(b: seq<Byte>): Parsed<U32> {
    var (_, r1) :- ParseQid(b);
    ParseU32(r1)
  }

  function ParseCreateReply(b: seq<Byte>): Parsed<(Qid, U32)> {
    var (qid, r1) :- ParseQid(b);
    var (iounit, r2) :- ParseU32(r1);
    Ok((qid, iounit), r2)
  }

  function VersionAnswer(a: Answer<RawMessage>): Answer<Str> {
    var body :- OfType(a, RVERSION);
    var v :- Decoded(ParseVersion(body));
    if v.0 < 1 then Failure(InvalidMsize) else Fine(v.1)
  }

  function WalkAnswer(a: Answer<RawMessage>): Answer<U16> {
    var body :- OfType(a, RWALK);
    Decoded(ParseWalkReply(body))
  }

  function OpenAnswer(a: Answer<RawMessage>): Answer<U32> {
    var body :- OfType(a, ROPEN);
    Decoded(ParseOpenReply(body))
  }

  function CreateAnswer(a: Answer<RawMessage>): Answer<(Qid, U32)> {
    var body :- OfType(a, RCREATE);
    Decoded(ParseCreateReply(body))
  }

  function ReadAnswer(a: Answer<RawMessage>): Answer<seq<Byte>> {
    var body :- OfType(a, RREAD);
    Decoded(ParsePayload(body))
  }

  function WriteAnswer(a: Answer<RawMessage>): Answer<U32> {
    var body :- OfType(a, RWRITE);
    Decoded(ParseU32(body))
  }

  function StatAnswer(a: Answer<RawMessage>): Answer<Stat> {
    var body :- OfType(a, RSTAT);
    Decoded(ParseStat(body))
  }

  /** Calls whose reply carries nothing the client reads. */
  function PlainAnswer(a: Answer<RawMessage>, expected: Byte): Answer<()> {
    var _ :- OfType(a, expected);
    Fine(())
  }

  // ---------------------------------------------------------------- the client object

  function NextTag(tag: U16): U16 {
    (tag + 1) % 0x1_0000
  }

  class P9Client {
    var nextTag: U16
    /** What was written to the stream, and what it will still bring. */
    var written: seq<Byte>
    var incoming: seq<Byte>

    constructor (incoming: seq<Byte>)
      ensures nextTag == 0 && written == [] && this.incoming == incoming
    {
      nextTag := 0;
      written := [];
      this.incoming := incoming;
    }

    /** One frame was taken off the stream, if there was one. */
    twostate predicate Taken()
      reads this
    {
      incoming == Behind(old(incoming))
    }

    /** One request frame under the next tag was written, and one reply frame was taken if there was one. */
    twostate predicate Exchanged(msgType: Byte, body: seq<Byte>)
      reads this
    {
      && nextTag == NextTag(old(nextTag)) && written == old(written) + BuildFrame(msgType, old(nextTag), body)
      && Taken()
    }

    /** `next_tag`, with `wrapping_add` */
    method TakeTag() returns (tag: U16)
      modifies `nextTag
      ensures tag == old(nextTag) && nextTag == NextTag(tag)
    {
      tag := nextTag;
      nextTag := (nextTag + 1) % 0x1_0000;
    }

    /** The first half of `send_and_wait`: a frame under the next tag. */
    method Send(msgType: Byte, body: seq<Byte>) returns (tag: U16)
      modifies `nextTag, `written
      ensures tag == old(nextTag) && nextTag == NextTag(tag)
      ensures written == old(written) + BuildFrame(msgType, tag, body)
    {
      tag := TakeTag();
      var frame := MakeFrame(msgType, tag, body);
      written := written + frame;
    }

    /** The second half: the next frame, if it comes under that tag. */
    method Wait(tag: U16) returns (r: Answer<RawMessage>)
      modifies `incoming
      ensures Taken() && r == Await(tag, ReadFrame(old(incoming)))
    {
      hide ReadFrame;
      var cursor := new Cursor(incoming);
      var response := cursor.ReadMessage();
      if response.Raised? {
        if response.error == InvalidData { incoming := incoming[cursor.pos..]; }
        return Failure(Lost(response.error));
      }
      incoming := incoming[cursor.pos..];
      r := if response.value.tag != tag then Failure(MismatchedTag) else Fine(response.value);
    }

    method SendAndWait(msgType: Byte, body: seq<Byte>) returns (r: Answer<RawMessage>)
      modifies this
      ensures Exchanged(msgType, body) && r == Await(old(nextTag), ReadFrame(old(incoming)))
    {
      var tag := Send(msgType, body);
      r := Wait(tag);
    }

    /** The negotiated version; a negotiated msize of zero is an error. */
    method Version(msize: U32, version: Str) returns (r: Answer<Str>)
      modifies this
      ensures Exchanged(TVERSION, VersionBody(msize, version))
      ensures r == VersionAnswer(Await(old(nextTag), ReadFrame(old(incoming))))
    {
      hide ReadFrame, BuildFrame, ParseU32, ParseString, Cursor.Rest;
      var text := MakeString(version);
      var response :- SendAndWait(TVERSION, U32Le(msize) + text);
      if response.msgType != RVERSION { return Failure(UnexpectedType); }
      var cursor := new Cursor(response.body);
      var negotiated := cursor.DecodeU32();
      if negotiated.Raised? { return Failure(Lost(negotiated.error)); }
      var name := cursor.DecodeString();
      if name.Raised? { return Failure(Lost(name.error)); }
      r := if negotiated.value < 1 then Failure(InvalidMsize) else Fine(name.value);
    }

    method Attach(fid: U32, afid: Option<U32>, uname: Str, aname: Str) returns (r: Answer<()>)
      modifies this
      ensures Exchanged(TATTACH, AttachBody(fid, afid, uname, aname))
      ensures r == PlainAnswer(Await(old(nextTag), ReadFrame(old(incoming))), RATTACH)
    {
      hide ReadFrame, BuildFrame;
      var body := MakeAttachBody(fid, afid, uname, aname);
      var response :- SendAndWait(TATTACH, body);
      if response.msgType != RATTACH { return Failure(UnexpectedType); }
      r := Fine(());
    }

    /** The qids are decoded one by one and dropped; their number is returned. */
    method Walk(fid: U32, newfid: U32, names: seq<Str>) returns (r: Answer<U16>)
      modifies this
      ensures Exchanged(TWALK, WalkBody(fid, newfid, names))
      ensures r == WalkAnswer(Await(old(nextTag), ReadFrame(old(incoming))))
    {
      hide ReadFrame, BuildFrame, ParseU16, ParseQid, Cursor.Rest;
      var body := MakeWalkBody(fid, newfid, names);
      var response :- SendAndWait(TWALK, body);
      if response.msgType != RWALK { return Failure(UnexpectedType); }
      r := CountQids(response.body);
    }

    method Open(fid: U32, mode: Byte) returns (r: Answer<U32>)
      modifies this
      ensures Exchanged(TOPEN, OpenBody(fid, mode))
      ensures r == OpenAnswer(Await(old(nextTag), ReadFrame(old(incoming))))
    {
      hide ReadFrame, BuildFrame, ParseU32, ParseQid, Cursor.Rest;
      var response :- SendAndWait(TOPEN, U32Le(fid) + [mode]);
      if response.msgType != ROPEN { return Failure(UnexpectedType); }
      var cursor := new Cursor(response.body);
      var qid := cursor.DecodeQid();
      if qid.Raised? { return Failure(Lost(qid.error)); }
      var iounit := cursor.DecodeU32();
      r := if iounit.Raised? then Failure(Lost(iounit.error)) else Fine(iounit.value);
    }

    method Create(fid: U32, name: Str, perm: U32, mode: Byte) returns (r: Answer<(Qid, U32)>)
      modifies this
      ensures Exchanged(TCREATE, CreateBody(fid, name, perm, mode))
      ensures r == CreateAnswer(Await(old(nextTag), ReadFrame(old(incoming))))
    {
      hide ReadFrame, BuildFrame, ParseU32, ParseQid, Cursor.Rest;
      var body := MakeCreateBody(fid, name, perm, mode);
      var response :- SendAndWait(TCREATE, body);
      if response.msgType != RCREATE { return Failure(UnexpectedType); }
      var cursor := new Cursor(response.body);
      var qid := cursor.DecodeQid();
      if qid.Raised? { return Failure(Lost(qid.error)); }
      var iounit := cursor.DecodeU32();
      r := if iounit.Raised? then Failure(Lost(iounit.error)) else Fine((qid.value, iounit.value));
    }

    method Read(fid: U32, offset: U64, count: U32) returns (r: Answer<seq<Byte>>)
      modifies this
      ensures Exchanged(TREAD, ReadBody(fid, offset, count))
      ensures r == ReadAnswer(Await(old(nextTag), ReadFrame(old(incoming))))
    {
      hide ReadFrame, BuildFrame, ParseU32, Cursor.Rest;
      var body := MakeReadBody(fid, offset, count);
      var response :- SendAndWait(TREAD, body);
      if response.msgType != RREAD { return Failure(UnexpectedType); }
      var cursor := new Cursor(response.body);
      var dataLen := cursor.DecodeU32();
      if dataLen.Raised? { return Failure(Lost(dataLen.error)); }
      var payload := cursor.ReadExact(dataLen.value);
      r := if payload.Raised? then Failure(Lost(payload.error)) else Fine(payload.value);
    }

    method Write(fid: U32, offset: U64, data: seq<Byte>) returns (r: Answer<U32>)
      modifies this
      ensures Exchanged(TWRITE, WriteBody(fid, offset, data))
      ensures r == WriteAnswer(Await(old(nextTag), ReadFrame(old(incoming))))
    {
      hide ReadFrame, BuildFrame, ParseU32, Cursor.Rest;
      var body := MakeWriteBody(fid, offset, data);
      var response :- SendAndWait(TWRITE, body);
      if response.msgType != RWRITE { return Failure(UnexpectedType); }
      var cursor := new Cursor(response.body);
      var count := cursor.DecodeU32();
      r := if count.Raised? then Failure(Lost(count.error)) else Fine(count.value);
    }

    method Stat(fid: U32) returns (r: Answer<Stats.Stat>)
      modifies this
      ensures Exchanged(TSTAT, FidBody(fid))
      ensures r == StatAnswer(Await(old(nextTag), ReadFrame(old(incoming))))
    {
      hide ReadFrame, BuildFrame, ParseStat, Cursor.Rest;
      var response :- SendAndWait(TSTAT, U32Le(fid));
      if response.msgType != RSTAT { return Failure(UnexpectedType); }
      var cursor := new Cursor(response.body);
      var stat := cursor.DecodeStat();
      r := if stat.Raised? then Failure(Lost(stat.error)) else Fine(stat.value);
    }

    method Wstat(fid: U32, stat: Stats.Stat) returns (r: Answer<()>)
      modifies this
      ensures Exchanged(TWSTAT, WstatBody(fid, stat))
      ensures r == PlainAnswer(Await(old(nextTag), ReadFrame(old(incoming))), RWSTAT)
    {
      hide ReadFrame, BuildFrame;
      var body := MakeWstatBody(fid, stat);
      var response :- SendAndWait(TWSTAT, body);
      if response.msgType != RWSTAT { return Failure(UnexpectedType); }
      r := Fine(());
    }

    method Clunk(fid: U32) returns (r: Answer<()>)
      modifies this
      ensures Exchanged(TCLUNK, FidBody(fid))
      ensures r == PlainAnswer(Await(old(nextTag), ReadFrame(old(incoming))), RCLUNK)
    {
      hide ReadFrame, BuildFrame;
      var response :- SendAndWait(TCLUNK, U32Le(fid));
      if response.msgType != RCLUNK { return Failure(UnexpectedType); }
      r := Fine(());
    }

    method Remove(fid: U32) returns (r: Answer<()>)
      modifies this
      ensures Exchanged(TREMOVE, FidBody(fid))
      ensures r == PlainAnswer(Await(old(nextTag), ReadFrame(old(incoming))), RREMOVE)
    {
      hide ReadFrame, BuildFrame;
      var response :- SendAndWait(TREMOVE, U32Le(fid));
      if response.msgType != RREMOVE { return Failure(UnexpectedType); }
      r := Fine(());
    }
  }

  /** The loop over the qids of an Rwalk. */
  method CountQids(body: seq<Byte>) returns (r: Answer<U16>)
    ensures r == Decoded(ParseWalkReply(body))
  {
    hide ParseU16, ParseQid, Cursor.Rest;
    var cursor := new Cursor(body);
    var nwqid := cursor.DecodeU16();
    if nwqid.Raised? { return Failure(Lost(nwqid.error)); }
    ghost var all := ParseQids(cursor.Rest(), nwqid.value);
    var i := 0;
    while i < nwqid.value
      invariant i <= nwqid.value && cursor.Valid() && fresh(cursor)
      invariant all == ParseQids(cursor.Rest(), nwqid.value - i)
    {
      var qid := cursor.DecodeQid();
      if qid.Raised? { return Failure(Lost(qid.error)); }
      i := i + 1;
    }
    r := Fine(nwqid.value);
  }
}
