/** The codec as the crate runs it: decoders move a cursor, encoders grow a buffer
    (libs/planten_9p/src/lib.rs:17-53 and 250-470, libs/planten_fs_ramfs/tests/golden_integration.rs:46-68). */
module Wire {
  import opened Bytes
  import opened Utf8
  import opened Stats
  import opened Codec
  import opened Frames
  import opened Messages
  import opened Draining

  /** `io::Result` */
  datatype IoResult<+T> = Got(value: T) | Raised(error: IoError) {
    predicate IsFailure() { Raised? }

    function PropagateFailure<U>(): IoResult<U>
      requires Raised?
    {
      Raised(error)
    }

    function Extract(): T
      requires Got?
    {
      value
    }
  }

  /** What a decoder over a whole body returns. */
  ghost function Outcome<T>(p: Parsed<T>): IoResult<T> {
    if p.Ok? then Got(p.value) else Raised(p.error)
  }

  // ---------------------------------------------------------------- decoding

  /** `Cursor<&[u8]>`, and any other byte source read to its end. */
  class Cursor {
    const bytes: seq<Byte>
    var pos: nat

    ghost predicate Valid()
      reads this
    {
      pos <= |bytes|
    }

    /** What is still to be read. */
    ghost function Rest(): seq<Byte>
      reads this
    {
      if pos <= |bytes| then bytes[pos..] else []
    }

    /** A read from `before` that came out as the parser says: its value with the cursor behind it, or its error. */
    ghost predicate Took<T>(before: seq<Byte>, p: Parsed<T>, r: IoResult<T>)
      reads this
    {
      Valid() && if p.Ok? then r == Got(p.value) && Rest() == p.rest else r == Raised(p.error)
    }

    constructor (bytes: seq<Byte>)
      ensures Valid() && Rest() == bytes && this.bytes == bytes && pos == 0
    {
      this.bytes := bytes;
      pos := 0;
    }

    /** `read_exact`, which runs to the end when there is too little. */
    method ReadExact(n: nat) returns (r: IoResult<seq<Byte>>)
      requires Valid()
      modifies this
      ensures Took(old(Rest()), ParseBytes(old(Rest()), n), r)
    {
      if |bytes| - pos < n {
        pos := |bytes|;
        return Raised(UnexpectedEof);
      }
      assert Rest()[..n] == bytes[pos..pos + n] && Rest()[n..] == bytes[pos + n..];
      r := Got(bytes[pos..pos + n]);
      pos := pos + n;
    }

    method DecodeU8() returns (r: IoResult<Byte>)
      requires Valid()
      modifies this
      ensures Took(old(Rest()), ParseU8(old(Rest())), r)
    {
      var buf :- ReadExact(1);
      r := Got(buf[0]);
    }

    method DecodeU16() returns (r: IoResult<U16>)
      requires Valid()
      modifies this
      ensures Took(old(Rest()), ParseU16(old(Rest())), r)
    {
      var buf :- ReadExact(2);
      ToLeFromLe(buf);
      Widths();
      r := Got(FromLe(buf));
    }

    method DecodeU32() returns (r: IoResult<U32>)
      requires Valid()
      modifies this
      ensures Took(old(Rest()), ParseU32(old(Rest())), r)
    {
      var buf :- ReadExact(4);
      ToLeFromLe(buf);
      Widths();
      r := Got(FromLe(buf));
    }

    method DecodeU64() returns (r: IoResult<U64>)
      requires Valid()
      modifies this
      ensures Took(old(Rest()), ParseU64(old(Rest())), r)
    {
      var buf :- ReadExact(8);
      ToLeFromLe(buf);
      Widths();
      r := Got(FromLe(buf));
    }

    method DecodeString() returns (r: IoResult<Str>)
      requires Valid()
      modifies this
      ensures Took(old(Rest()), ParseString(old(Rest())), r)
    {
      hide ParseU16, ValidUtf8;
      var len :- DecodeU16();
      var buffer :- ReadExact(len);
      if !ValidUtf8(buffer) {
        return Raised(InvalidData);
      }
      r := Got(buffer);
    }

    /** The thirteen bytes first, then the fields from their places. */
    method DecodeQid() returns (r: IoResult<Qid>)
      requires Valid()
      modifies this
      ensures Took(old(Rest()), ParseQid(old(Rest())), r)
    {
      var buf :- ReadExact(13);
      QidPlaces(old(Rest()));
      r := Got(Qid(buf[0], FromLe(buf[1..5]), FromLe(buf[5..13])));
    }

    method DecodeWalkHead() returns (r: IoResult<(U32, U32, U16)>)
      requires Valid()
      modifies this
      ensures Took(old(Rest()), ParseWalkHead(old(Rest())), r)
    {
      hide ParseU32, ParseU16;
      var fid :- DecodeU32();
      var newfid :- DecodeU32();
      var nwname :- DecodeU16();
      r := Got((fid, newfid, nwname));
    }

    /** The sized buffer first; then the fields from a cursor over that buffer alone. */
    method DecodeStat() returns (r: IoResult<Stat>)
      requires Valid()
      modifies this
      ensures Took(old(Rest()), ParseStat(old(Rest())), r)
    {
      hide ParseU16, ParseStatFields;
      var size :- DecodeU16();
      var buffer :- ReadExact(size);
      var inner := new Cursor(buffer);
      r := inner.DecodeStatFields();
    }

    /** The fields of a stat in order: the fixed ones, then the times, then the names. */
    method DecodeStatFields() returns (r: IoResult<Stat>)
      requires Valid()
      modifies this
      ensures Took(old(Rest()), ParseStatFields(old(Rest())), r)
    {
      hide ParseU16, ParseU32, ParseQid, ParseTimes, ParseNames;
      var typ :- DecodeU16();
      var dev :- DecodeU32();
      var qid :- DecodeQid();
      var times :- DecodeTimes();
      var names :- DecodeNames();
      r := Got(Stat(typ, dev, qid, times.0, times.1, times.2, times.3, names.0, names.1, names.2, names.3));
    }

    method DecodeTimes() returns (r: IoResult<(U32, U32, U32, U64)>)
      requires Valid()
      modifies this
      ensures Took(old(Rest()), ParseTimes(old(Rest())), r)
    {
      hide ParseU32, ParseU64;
      var mode :- DecodeU32();
      var atime :- DecodeU32();
      var mtime :- DecodeU32();
      var length :- DecodeU64();
      r := Got((mode, atime, mtime, length));
    }

    method DecodeNames() returns (r: IoResult<(Str, Str, Str, Str)>)
      requires Valid()
      modifies this
      ensures Took(old(Rest()), ParseNames(old(Rest())), r)
    {
      hide ParseString;
      var name :- DecodeString();
      var uid :- DecodeString();
      var gid :- DecodeString();
      var muid :- DecodeString();
      r := Got((name, uid, gid, muid));
    }

    /** `RawMessage::read_from` */
    method ReadMessage() returns (r: IoResult<RawMessage>)
      requires Valid()
      modifies this
      ensures Took(old(Rest()), ReadFrame(old(Rest())), r)
      ensures Valid() && (r == Raised(InvalidData) ==> Rest() == Behind(old(Rest())))
    {
      CutNumber(Rest());
      hide ParseU16, ParseU32;
      var size :- DecodeU32();
      if size < 7 {
        return Raised(InvalidData);
      }
      var header :- ReadExact(3);
      var tag := TagOf(header);
      var body := [];
      if size - 7 > 0 {
        body :- ReadExact(size - 7);
      }
      r := Got(RawMessage(size, header[0], tag, body));
    }
  }

  lemma CutNumber(b: seq<Byte>)
    ensures match ParseU32(b)
            case Ok(_, rest) => |b| >= 4 && rest == b[4..]
            case Err(e) => e == UnexpectedEof
  {
  }

  function TagOf(header: seq<Byte>): (tag: U16)
    requires |header| == 3
    ensures ParseU16(header[1..]) == Ok(tag, [])
  {
    ToLeFromLe(header[1..]);
    Widths();
    assert header[1..][..2] == header[1..];
    FromLe(header[1..])
  }

  lemma QidPlaces(b: seq<Byte>)
    requires |b| >= 13
    ensures FromLe(b[..13][1..5]) < 0x1_0000_0000 && FromLe(b[..13][5..13]) < 0x1_0000_0000_0000_0000
    ensures ParseQid(b) == Ok(Qid(b[0], FromLe(b[..13][1..5]), FromLe(b[..13][5..13])), b[13..])
  {
    var buf := b[..13];
    ToLeFromLe(buf[1..5]);
    ToLeFromLe(buf[5..13]);
    Widths();
    hide FromLe;
    assert buf[1..][..4] == buf[1..5] && buf[1..][4..][..8] == buf[5..13];
  }

  function Before(entries: seq<Stat>, d: Drained): Drained {
    if d.Malformed? then Malformed else Drained(entries + d.stats, d.pending)
  }

  lemma OneMore(entries: seq<Stat>, s: Stat, d: Drained)
    ensures Before(entries, Before([s], d)) == Before(entries + [s], d)
  {
    if d.Drained? { assert entries + ([s] + d.stats) == (entries + [s]) + d.stats; }
  }

  lemma DrainStep(b: seq<Byte>)
    requires b != []
    ensures match ParseStat(b)
            case Err(e) => Drain(b) == if e == UnexpectedEof then Drained([], b) else Malformed
            case Ok(s, rest) => |rest| < |b| && Drain(b) == Before([s], Drain(rest))
  {
    hide ParseBytes, ParseStatFields, FromLe;
    ParseStatConsumes(b);
  }

  lemma DrainNothing(entries: seq<Stat>)
    ensures Before(entries, Drain([])) == Drained(entries, [])
    ensures forall b: seq<Byte> :: Before(entries, Drained([], b)) == Drained(entries, b)
  {
    assert entries + [] == entries;
  }

  /** `drain_stat_entries`: whole stats are taken off the front of the buffer until one is cut short; `Malformed` is
      its panic. */
  method DrainStatEntries(buffer: seq<Byte>) returns (d: Drained)
    ensures d == Drain(buffer)
  {
    hide ParseStat, Drain, Before;
    var cursor := new Cursor(buffer);
    var entries := [];
    NoneBefore(Drain(buffer));
    while true
      invariant cursor.Valid() && cursor.bytes == buffer && fresh(cursor)
      invariant Drain(buffer) == Before(entries, Drain(cursor.Rest()))
      decreases |buffer| - cursor.pos
    {
      var start := cursor.pos;
      DrainNothing(entries);
      if start >= |buffer| {
        assert cursor.Rest() == [];
        break;
      }
      DrainStep(cursor.Rest());
      var stat := cursor.DecodeStat();
      if stat.Raised? {
        if stat.error == UnexpectedEof {
          return Drained(entries, buffer[start..]);
        }
        MalformedBehind(entries);
        return Malformed;
      }
      OneMore(entries, stat.value, Drain(cursor.Rest()));
      entries := entries + [stat.value];
    }
    d := Drained(entries, buffer[cursor.pos..]);
  }

  lemma NoneBefore(d: Drained)
    ensures Before([], d) == d
  {
  }

  lemma MalformedBehind(entries: seq<Stat>)
    ensures Before(entries, Malformed) == Malformed
  {
  }

  // ---------------------------------------------------------------- encoding

  /** `build_frame` */
  method MakeFrame(msgType: Byte, tag: U16, body: seq<Byte>) returns (buffer: seq<Byte>)
    ensures buffer == BuildFrame(msgType, tag, body)
  {
    hide U16Le, U32Le;
    var size := FrameSize(body);
    buffer := U32Le(size);
    buffer := buffer + [msgType];
    buffer := buffer + U16Le(tag);
    buffer := buffer + body;
  }

  method MakeString(value: Str) returns (buf: seq<Byte>)
    ensures buf == EncodeString(value)
  {
    buf := U16Le(|value| % 0x1_0000);
    buf := buf + value;
  }

  /** `encode_qid_bytes`: thirteen zeros, overwritten at their places. */
  method MakeQid(qid: Qid) returns (buf: seq<Byte>)
    ensures buf == EncodeQid(qid)
  {
    hide U32Le, U64Le;
    buf := seq(13, _ => 0);
    buf := buf[0 := qid.qtype];
    buf := buf[..1] + U32Le(qid.version) + buf[5..];
    buf := buf[..5] + U64Le(qid.path) + buf[13..];
  }

  /** `encode_stat_payload`: the fields into a buffer of their own, then its length and the buffer. */
  method MakeStat(stat: Stat) returns (payload: seq<Byte>)
    ensures payload == EncodeStat(stat)
  {
    hide U16Le, U32Le, EncodeQid, TimeFields;
    var statBuf := U16Le(stat.typ);
    statBuf := statBuf + U32Le(stat.dev);
    var qid := MakeQid(stat.qid);
    statBuf := statBuf + qid;
    var times := MakeTimes(stat);
    Regroup(U16Le(stat.typ), U32Le(stat.dev), EncodeQid(stat.qid) + times);
    Regroup(U16Le(stat.typ) + U32Le(stat.dev), EncodeQid(stat.qid), times);
    statBuf := statBuf + times;
    payload := U16Le(|statBuf| % 0x1_0000);
    payload := payload + statBuf;
  }

  /** The stat fields from mode on. */
  method MakeTimes(stat: Stat) returns (buf: seq<Byte>)
    ensures buf == TimeFields(stat)
  {
    hide U32Le, U64Le, EncodeString;
    buf := U32Le(stat.mode);
    buf := buf + U32Le(stat.atime);
    buf := buf + U32Le(stat.mtime);
    buf := buf + U64Le(stat.length);
    var name := MakeString(stat.name);
    buf := buf + name;
    var uid := MakeString(stat.uid);
    buf := buf + uid;
    var gid := MakeString(stat.gid);
    buf := buf + gid;
    var muid := MakeString(stat.muid);
    buf := buf + muid;
  }

  /** `encode_walk_body`: the loop over the names. */
  method MakeWalkBody(fid: U32, newfid: U32, names: seq<Str>) returns (buf: seq<Byte>)
    ensures buf == WalkBody(fid, newfid, names)
  {
    hide U16Le, U32Le, EncodeString;
    buf := U32Le(fid);
    buf := buf + U32Le(newfid);
    buf := buf + U16Le(|names| % 0x1_0000);
    WalkHead(fid, newfid, names);
    var i := 0;
    while i < |names|
      invariant i <= |names|
      invariant buf + EncodeStrings(names[i..]) == WalkBody(fid, newfid, names)
    {
      var name := MakeString(names[i]);
      assert names[i..][0] == names[i] && names[i..][1..] == names[i + 1..];
      Regroup(buf, EncodeString(names[i]), EncodeStrings(names[i + 1..]));
      buf := buf + name;
      i := i + 1;
    }
    assert buf + [] == buf;
  }

  lemma WalkHead(fid: U32, newfid: U32, names: seq<Str>)
    ensures ((U32Le(fid) + U32Le(newfid)) + U16Le(|names| % 0x1_0000)) + EncodeStrings(names[0..]) ==
            WalkBody(fid, newfid, names)
  {
    hide U16Le, U32Le, EncodeString;
    assert names[0..] == names;
    Regroup(U32Le(fid) + U32Le(newfid), U16Le(|names| % 0x1_0000), EncodeStrings(names));
    Regroup(U32Le(fid), U32Le(newfid), U16Le(|names| % 0x1_0000) + EncodeStrings(names));
  }

  method MakeWriteBody(fid: U32, offset: U64, data: seq<Byte>) returns (buf: seq<Byte>)
    ensures buf == WriteBody(fid, offset, data)
  {
    hide U32Le, U64Le;
    buf := U32Le(fid);
    buf := buf + U64Le(offset);
    buf := buf + U32Le(|data| % 0x1_0000_0000);
    buf := buf + data;
  }

  method MakeReadBody(fid: U32, offset: U64, count: U32) returns (buf: seq<Byte>)
    ensures buf == ReadBody(fid, offset, count)
  {
    hide U32Le, U64Le;
    buf := U32Le(fid);
    buf := buf + U64Le(offset);
    buf := buf + U32Le(count);
  }

  method MakeCreateBody(fid: U32, name: Str, perm: U32, mode: Byte) returns (buf: seq<Byte>)
    ensures buf == CreateBody(fid, name, perm, mode)
  {
    hide U32Le, EncodeString;
    buf := U32Le(fid);
    var text := MakeString(name);
    buf := buf + text;
    buf := buf + U32Le(perm);
    buf := buf + [mode];
  }

  method MakeAttachBody(fid: U32, afid: Option<U32>, uname: Str, aname: Str) returns (buf: seq<Byte>)
    ensures buf == AttachBody(fid, afid, uname, aname)
  {
    hide U32Le, EncodeString;
    buf := U32Le(fid);
    buf := buf + U32Le(if afid.Some? then afid.value else 0);
    var user := MakeString(uname);
    buf := buf + user;
    var tree := MakeString(aname);
    buf := buf + tree;
  }

  method MakeWstatBody(fid: U32, stat: Stat) returns (buf: seq<Byte>)
    ensures buf == WstatBody(fid, stat)
  {
    hide U32Le, EncodeStat;
    buf := U32Le(fid);
    var payload := MakeStat(stat);
    buf := buf + payload;
  }
}
