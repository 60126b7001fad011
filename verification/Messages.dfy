/** Message types and bodies of 9P2000 (libs/planten_9p/src/messages.rs, libs/planten_9p/src/lib.rs:260-357). */
module Messages {
  import opened Bytes
  import opened Utf8
  import opened Stats
  import opened Codec

  const TVERSION: Byte := 100
  const RVERSION: Byte := 101
  const TAUTH: Byte := 102
  const RAUTH: Byte := 103
  const TATTACH: Byte := 104
  const RATTACH: Byte := 105
  const RERROR: Byte := 107
  const TFLUSH: Byte := 108
  const RFLUSH: Byte := 109
  const TWALK: Byte := 110
  const RWALK: Byte := 111
  const TOPEN: Byte := 112
  const ROPEN: Byte := 113
  const TCREATE: Byte := 114
  const RCREATE: Byte := 115
  const TREAD: Byte := 116
  const RREAD: Byte := 117
  const TWRITE: Byte := 118
  const RWRITE: Byte := 119
  const TCLUNK: Byte := 120
  const RCLUNK: Byte := 121
  const TREMOVE: Byte := 122
  const RREMOVE: Byte := 123
  const TSTAT: Byte := 124
  const RSTAT: Byte := 125
  const TWSTAT: Byte := 126
  const RWSTAT: Byte := 127
  const TCLONE: Byte := 128
  const RCLONE: Byte := 129

  // ---------------------------------------------------------------- what the client writes

  function VersionBody(msize: U32, version: Str): seq<Byte> {
    U32Le(msize) + EncodeString(version)
  }

  function AttachBody(fid: U32, afid: Option<U32>, uname: Str, aname: Str): seq<Byte> {
    U32Le(fid) + (U32Le(if afid.Some? then afid.value else 0) + (EncodeString(uname) + EncodeString(aname)))
  }

  function EncodeStrings(names: seq<Str>): seq<Byte> {
    if names == [] then [] else EncodeString(names[0]) + EncodeStrings(names[1..])
  }

  function WalkBody(fid: U32, newfid: U32, names: seq<Str>): seq<Byte> {
    U32Le(fid) + (U32Le(newfid) + (U16Le(|names| % 0x1_0000) + EncodeStrings(names)))
  }

  function OpenBody(fid: U32, mode: Byte): seq<Byte> {
    U32Le(fid) + [mode]
  }

  function ReadBody(fid: U32, offset: U64, count: U32): seq<Byte> {
    U32Le(fid) + (U64Le(offset) + U32Le(count))
  }

  function WriteBody(fid: U32, offset: U64, data: seq<Byte>): seq<Byte> {
    U32Le(fid) + (U64Le(offset) + (U32Le(|data| % 0x1_0000_0000) + data))
  }

  function CreateBody(fid: U32, name: Str, perm: U32, mode: Byte): seq<Byte> {
    U32Le(fid) + (EncodeString(name) + (U32Le(perm) + [mode]))
  }

  function WstatBody(fid: U32, stat: Stat): seq<Byte> {
    U32Le(fid) + EncodeStat(stat)
  }

  /** Tclunk, Tremove and Tstat carry only the fid. */
  function FidBody(fid: U32): seq<Byte> {
    U32Le(fid)
  }

  function CloneBody(fid: U32, newfid: U32): seq<Byte> {
    U32Le(fid) + U32Le(newfid)
  }

  // ---------------------------------------------------------------- what the server reads

  function ParseVersion(b: seq<Byte>): Parsed<(U32, Str)> {
    var (msize, r1) :- ParseU32(b);
    var (version, r2) :- ParseString(r1);
    Ok((msize, version), r2)
  }

  function ParseAttach(b: seq<Byte>): Parsed<U32> {
    var (fid, r1) :- ParseU32(b);
    var (_, r2) :- ParseU32(r1);
    var (_, r3) :- ParseString(r2);
    var (_, r4) :- ParseString(r3);
    Ok(fid, r4)
  }

  function ParseWalkHead(b: seq<Byte>): Parsed<(U32, U32, U16)> {
    var (fid, r1) :- ParseU32(b);
    var (newfid, r2) :- ParseU32(r1);
    var (nwname, r3) :- ParseU16(r2);
    Ok((fid, newfid, nwname), r3)
  }

  function ParseStrings(b: seq<Byte>, n: nat): (r: Parsed<seq<Str>>)
    ensures r.Ok? ==> |r.value| == n && forall i :: 0 <= i < n ==> ValidUtf8(r.value[i]) && |r.value[i]| < 0x1_0000
  {
    if n == 0 then Ok([], b)
    else
      var (s, r1) :- ParseString(b);
      var (ss, r2) :- ParseStrings(r1, n - 1);
      Ok([s] + ss, r2)
  }

  function ParseOpen(b: seq<Byte>): Parsed<(U32, Byte)> {
    var (fid, r1) :- ParseU32(b);
    var (mode, r2) :- ParseU8(r1);
    Ok((fid, mode), r2)
  }

  function ParseRead(b: seq<Byte>): Parsed<(U32, U64, U32)> {
    var (fid, r1) :- ParseU32(b);
    var (offset, r2) :- ParseU64(r1);
    var (count, r3) :- ParseU32(r2);
    Ok((fid, offset, count), r3)
  }

  function ParseWrite(b: seq<Byte>): (r: Parsed<(U32, U64, seq<Byte>)>)
    ensures r.Ok? ==> |r.value.2| < 0x1_0000_0000
  {
    var (fid, r1) :- ParseU32(b);
    var (offset, r2) :- ParseU64(r1);
    var (count, r3) :- ParseU32(r2);
    var (data, r4) :- ParseBytes(r3, count);
    Ok((fid, offset, data), r4)
  }

  function ParseCreate(b: seq<Byte>): (r: Parsed<(U32, Str, U32, Byte)>)
    ensures r.Ok? ==> ValidUtf8(r.value.1) && |r.value.1| < 0x1_0000
  {
    var (fid, r1) :- ParseU32(b);
    var (name, r2) :- ParseString(r1);
    var (perm, r3) :- ParseU32(r2);
    var (mode, r4) :- ParseU8(r3);
    Ok((fid, name, perm, mode), r4)
  }

  function ParseClone(b: seq<Byte>): Parsed<(U32, U32)> {
    var (fid, r1) :- ParseU32(b);
    var (newfid, r2) :- ParseU32(r1);
    Ok((fid, newfid), r2)
  }

  // ---------------------------------------------------------------- the server reads what the client wrote

  lemma ParseFidBody(fid: U32)
    ensures ParseU32(FidBody(fid)) == Ok(fid, [])
  {
    assert FidBody(fid) == U32Le(fid) + [];
    ParseU32Le(fid, []);
  }

  lemma ParseOpenBody(fid: U32, mode: Byte)
    ensures ParseOpen(OpenBody(fid, mode)) == Ok((fid, mode), [])
  {
    ParseU32Le(fid, [mode]);
  }

  lemma ParseReadBody(fid: U32, offset: U64, count: U32)
    ensures ParseRead(ReadBody(fid, offset, count)) == Ok((fid, offset, count), [])
  {
    hide ParseU32, ParseU64, U32Le, U64Le;
    ParseU32Le(fid, U64Le(offset) + U32Le(count));
    ParseU64Le(offset, U32Le(count));
    assert U32Le(count) == U32Le(count) + [];
    ParseU32Le(count, []);
  }

  lemma ParseWriteBody(fid: U32, offset: U64, data: seq<Byte>)
    requires |data| < 0x1_0000_0000
    ensures ParseWrite(WriteBody(fid, offset, data)) == Ok((fid, offset, data), [])
  {
    hide ParseU32, ParseU64, U32Le, U64Le;
    ParseU32Le(fid, U64Le(offset) + (U32Le(|data|) + data));
    ParseU64Le(offset, U32Le(|data|) + data);
    ParseU32Le(|data|, data);
    assert data[..|data|] == data && data[|data|..] == [];
  }

  lemma ParseCreateBody(fid: U32, name: Str, perm: U32, mode: Byte)
    requires ValidUtf8(name) && |name| < 0x1_0000
    ensures ParseCreate(CreateBody(fid, name, perm, mode)) == Ok((fid, name, perm, mode), [])
  {
    hide ParseU32, U32Le, ParseString, EncodeString;
    ParseU32Le(fid, EncodeString(name) + (U32Le(perm) + [mode]));
    ParseEncodedString(name, U32Le(perm) + [mode]);
    ParseU32Le(perm, [mode]);
  }

  lemma ParseCloneBody(fid: U32, newfid: U32)
    ensures ParseClone(CloneBody(fid, newfid)) == Ok((fid, newfid), [])
  {
    hide ParseU32, U32Le;
    ParseU32Le(fid, U32Le(newfid));
    assert U32Le(newfid) == U32Le(newfid) + [];
    ParseU32Le(newfid, []);
  }

  lemma ParseAttachBody(fid: U32, afid: Option<U32>, uname: Str, aname: Str)
    requires ValidUtf8(uname) && |uname| < 0x1_0000 && ValidUtf8(aname) && |aname| < 0x1_0000
    ensures ParseAttach(AttachBody(fid, afid, uname, aname)) == Ok(fid, [])
  {
    hide ParseU32, U32Le, ParseString, EncodeString;
    var a := if afid.Some? then afid.value else 0;
    ParseU32Le(fid, U32Le(a) + (EncodeString(uname) + EncodeString(aname)));
    ParseU32Le(a, EncodeString(uname) + EncodeString(aname));
    ParseEncodedString(uname, EncodeString(aname));
    assert EncodeString(aname) == EncodeString(aname) + [];
    ParseEncodedString(aname, []);
  }

  lemma ParseVersionBody(msize: U32, version: Str)
    requires ValidUtf8(version) && |version| < 0x1_0000
    ensures ParseVersion(VersionBody(msize, version)) == Ok((msize, version), [])
  {
    hide ParseU32, U32Le, ParseString, EncodeString;
    ParseU32Le(msize, EncodeString(version));
    assert EncodeString(version) == EncodeString(version) + [];
    ParseEncodedString(version, []);
  }

  lemma {:induction false} ParseEncodedStrings(names: seq<Str>, rest: seq<Byte>)
    requires forall i :: 0 <= i < |names| ==> ValidUtf8(names[i]) && |names[i]| < 0x1_0000
    ensures ParseStrings(EncodeStrings(names) + rest, |names|) == Ok(names, rest)
  {
    hide ParseString, EncodeString, ValidUtf8;
    if names == [] {
      assert EncodeStrings(names) + rest == rest;
    } else {
      var more := EncodeStrings(names[1..]) + rest;
      Regroup(EncodeString(names[0]), EncodeStrings(names[1..]), rest);
      ParseEncodedString(names[0], more);
      ParseEncodedStrings(names[1..], rest);
      assert [names[0]] + names[1..] == names;
    }
  }

  lemma ParseWalkHeadBody(fid: U32, newfid: U32, names: seq<Str>)
    ensures ParseWalkHead(WalkBody(fid, newfid, names)) ==
            Ok((fid, newfid, |names| % 0x1_0000), EncodeStrings(names))
  {
    hide ParseU32, U32Le, ParseU16, U16Le;
    var n := |names| % 0x1_0000;
    ParseU32Le(fid, U32Le(newfid) + (U16Le(n) + EncodeStrings(names)));
    ParseU32Le(newfid, U16Le(n) + EncodeStrings(names));
    ParseU16Le(n, EncodeStrings(names));
  }

  /** Head and names of a Twalk body together. */
  function ParseWalk(b: seq<Byte>): Parsed<(U32, U32, seq<Str>)> {
    var (head, r1) :- ParseWalkHead(b);
    var (names, r2) :- ParseStrings(r1, head.2);
    Ok((head.0, head.1, names), r2)
  }

  /** A Twalk body is parsed back to the same fid, newfid and names exactly when there are fewer than 65536 names,
      each shorter than 65536 bytes. */
  lemma WalkBodyRoundTrip(fid: U32, newfid: U32, names: seq<Str>)
    requires forall i :: 0 <= i < |names| ==> ValidUtf8(names[i])
    ensures ParseWalk(WalkBody(fid, newfid, names)) == Ok((fid, newfid, names), [])
            <==> |names| < 0x1_0000 && forall i :: 0 <= i < |names| ==> |names[i]| < 0x1_0000
  {
    hide ParseWalkHead, WalkBody, ParseStrings, EncodeStrings, ValidUtf8;
    ParseWalkHeadBody(fid, newfid, names);
    if |names| < 0x1_0000 && forall i :: 0 <= i < |names| ==> |names[i]| < 0x1_0000 {
      ParseEncodedStrings(names, []);
      assert EncodeStrings(names) + [] == EncodeStrings(names);
    }
  }
}
