/** The 9P wire format as values: encoders, decoders and their laws (libs/planten_9p/src/lib.rs). */
module Codec {
  import opened Bytes
  import opened Utf8
  import opened Stats

  // ---------------------------------------------------------------- decoding results

  /** The two kinds of `io::Error` the decoders raise. */
  datatype IoError = UnexpectedEof | InvalidData

  /** A decoded value with the bytes behind it, or the error. */
  datatype Parsed<+T> = Ok(value: T, rest: seq<Byte>) | Err(error: IoError) {
    predicate IsFailure() { Err? }

    function PropagateFailure<U>(): Parsed<U>
      requires Err?
    {
      Err(error)
    }

    function Extract(): (T, seq<Byte>)
      requires Ok?
    {
      (value, rest)
    }
  }

  // ---------------------------------------------------------------- numbers and bytes

  /** `read_exact` into a buffer of `n` bytes. */
  function ParseBytes(b: seq<Byte>, n: nat): Parsed<seq<Byte>> {
    if n <= |b| then Ok(b[..n], b[n..]) else Err(UnexpectedEof)
  }

  function ParseU8(b: seq<Byte>): Parsed<Byte> {
    if b == [] then Err(UnexpectedEof) else Ok(b[0], b[1..])
  }

  function ParseU16(b: seq<Byte>): Parsed<U16> {
    var (bs, rest) :- ParseBytes(b, 2);
    ToLeFromLe(bs); Widths();
    Ok(FromLe(bs), rest)
  }

  function ParseU32(b: seq<Byte>): Parsed<U32> {
    var (bs, rest) :- ParseBytes(b, 4);
    ToLeFromLe(bs); Widths();
    Ok(FromLe(bs), rest)
  }

  function ParseU64(b: seq<Byte>): Parsed<U64> {
    var (bs, rest) :- ParseBytes(b, 8);
    ToLeFromLe(bs); Widths();
    Ok(FromLe(bs), rest)
  }

  function U16Le(n: U16): (r: seq<Byte>) ensures |r| == 2 { ToLe(n, 2) }
  function U32Le(n: U32): (r: seq<Byte>) ensures |r| == 4 { ToLe(n, 4) }
  function U64Le(n: U64): (r: seq<Byte>) ensures |r| == 8 { ToLe(n, 8) }

  lemma TakeFirst(a: seq<Byte>, rest: seq<Byte>)
    ensures (a + rest)[..|a|] == a && (a + rest)[|a|..] == rest
  {
  }

  lemma ParseU16Le(n: U16, rest: seq<Byte>)
    ensures ParseU16(U16Le(n) + rest) == Ok(n, rest)
  {
    Widths();
    FromLeToLe(n, 2);
    TakeFirst(U16Le(n), rest);
  }

  lemma ParseU32Le(n: U32, rest: seq<Byte>)
    ensures ParseU32(U32Le(n) + rest) == Ok(n, rest)
  {
    Widths();
    FromLeToLe(n, 4);
    TakeFirst(U32Le(n), rest);
  }

  lemma ParseU64Le(n: U64, rest: seq<Byte>)
    ensures ParseU64(U64Le(n) + rest) == Ok(n, rest)
  {
    Widths();
    FromLeToLe(n, 8);
    TakeFirst(U64Le(n), rest);
  }

  /** What was read is what encodes to it. */
  lemma ParsedU16(b: seq<Byte>)
    requires ParseU16(b).Ok?
    ensures b == U16Le(ParseU16(b).value) + ParseU16(b).rest
  {
    ToLeFromLe(b[..2]);
  }

  lemma ParsedU32(b: seq<Byte>)
    requires ParseU32(b).Ok?
    ensures b == U32Le(ParseU32(b).value) + ParseU32(b).rest
  {
    ToLeFromLe(b[..4]);
  }

  // ---------------------------------------------------------------- strings and qids

  /** The length goes through `as u16`. */
  function EncodeString(s: Str): seq<Byte> {
    U16Le(|s| % 0x1_0000) + s
  }

  function ParseString(b: seq<Byte>): (r: Parsed<Str>)
    ensures r.Ok? ==> ValidUtf8(r.value) && |r.value| < 0x1_0000
  {
    var (len, rest) :- ParseU16(b);
    var (bs, rest') :- ParseBytes(rest, len);
    if ValidUtf8(bs) then Ok(bs, rest') else Err(InvalidData)
  }

  lemma ParseEncodedString(s: Str, rest: seq<Byte>)
    requires ValidUtf8(s) && |s| < 0x1_0000
    ensures ParseString(EncodeString(s) + rest) == Ok(s, rest)
  {
    hide ParseU16, U16Le, ValidUtf8;
    assert EncodeString(s) + rest == U16Le(|s|) + (s + rest);
    ParseU16Le(|s|, s + rest);
    TakeFirst(s, rest);
  }

  function EncodeQid(q: Qid): (r: seq<Byte>)
    ensures |r| == 13
  {
    [q.qtype] + (U32Le(q.version) + U64Le(q.path))
  }

  function ParseQid(b: seq<Byte>): Parsed<Qid> {
    var (bs, rest) :- ParseBytes(b, 13);
    var (qtype, r1) :- ParseU8(bs);
    var (version, r2) :- ParseU32(r1);
    var (path, _) :- ParseU64(r2);
    Ok(Qid(qtype, version, path), rest)
  }

  lemma ParseEncodedQid(q: Qid, rest: seq<Byte>)
    ensures ParseQid(EncodeQid(q) + rest) == Ok(q, rest)
  {
    TakeFirst(EncodeQid(q), rest);
    var tail := U32Le(q.version) + U64Le(q.path);
    TakeFirst([q.qtype], tail);
    ParseU32Le(q.version, U64Le(q.path));
    ParseU64Le(q.path, []);
    assert U64Le(q.path) + [] == U64Le(q.path);
  }

  // ---------------------------------------------------------------- stats

  function NameFields(s: Stat): seq<Byte> {
    EncodeString(s.name) + (EncodeString(s.uid) + (EncodeString(s.gid) + EncodeString(s.muid)))
  }

  function TimeFields(s: Stat): seq<Byte> {
    U32Le(s.mode) + (U32Le(s.atime) + (U32Le(s.mtime) + (U64Le(s.length) + NameFields(s))))
  }

  function StatFields(s: Stat): seq<Byte> {
    U16Le(s.typ) + (U32Le(s.dev) + (EncodeQid(s.qid) + TimeFields(s)))
  }

  /** The stat behind its own size, which goes through `as u16`. */
  function EncodeStat(s: Stat): seq<Byte> {
    U16Le(|StatFields(s)| % 0x1_0000) + StatFields(s)
  }

  function ParseNames(b: seq<Byte>): Parsed<(Str, Str, Str, Str)> {
    var (name, r1) :- ParseString(b);
    var (uid, r2) :- ParseString(r1);
    var (gid, r3) :- ParseString(r2);
    var (muid, r4) :- ParseString(r3);
    Ok((name, uid, gid, muid), r4)
  }

  function ParseTimes(b: seq<Byte>): Parsed<(U32, U32, U32, U64)> {
    var (mode, r1) :- ParseU32(b);
    var (atime, r2) :- ParseU32(r1);
    var (mtime, r3) :- ParseU32(r2);
    var (length, r4) :- ParseU64(r3);
    Ok((mode, atime, mtime, length), r4)
  }

  function ParseStatFields(b: seq<Byte>): Parsed<Stat> {
    var (typ, r1) :- ParseU16(b);
    var (dev, r2) :- ParseU32(r1);
    var (qid, r3) :- ParseQid(r2);
    var (t, r4) :- ParseTimes(r3);
    var (n, r5) :- ParseNames(r4);
    Ok(Stat(typ, dev, qid, t.0, t.1, t.2, t.3, n.0, n.1, n.2, n.3), r5)
  }

  /** `decode_stat`: the sized buffer first, then the fields inside it; what follows the fields is dropped. */
  function ParseStat(b: seq<Byte>): Parsed<Stat> {
    var (size, r1) :- ParseU16(b);
    var (buffer, rest) :- ParseBytes(r1, size);
    var (stat, _) :- ParseStatFields(buffer);
    Ok(stat, rest)
  }

  predicate StatStringsValid(s: Stat) {
    ValidUtf8(s.name) && ValidUtf8(s.uid) && ValidUtf8(s.gid) && ValidUtf8(s.muid)
  }

  function StringBytes(s: Stat): nat {
    |s.name| + |s.uid| + |s.gid| + |s.muid|
  }

  /** 65535 less the 47 fixed bytes. */
  const MAX_STRING_BYTES: nat := 65488

  predicate StatFits(s: Stat) {
    StringBytes(s) <= MAX_STRING_BYTES
  }

  lemma StatFieldsSize(s: Stat)
    ensures |StatFields(s)| == 47 + StringBytes(s)
  {
  }

  lemma ParseEncodedNames(s: Stat)
    requires StatStringsValid(s) && StatFits(s)
    ensures ParseNames(NameFields(s)) == Ok((s.name, s.uid, s.gid, s.muid), [])
  {
    ParseEncodedString(s.name, EncodeString(s.uid) + (EncodeString(s.gid) + EncodeString(s.muid)));
    ParseEncodedString(s.uid, EncodeString(s.gid) + EncodeString(s.muid));
    ParseEncodedString(s.gid, EncodeString(s.muid));
    ParseEncodedString(s.muid, []);
    assert EncodeString(s.muid) + [] == EncodeString(s.muid);
  }

  lemma ParseEncodedTimes(s: Stat)
    ensures ParseTimes(TimeFields(s)) == Ok((s.mode, s.atime, s.mtime, s.length), NameFields(s))
  {
    hide ParseU32, ParseU64, U32Le, U64Le, NameFields;
    ParseU32Le(s.mode, U32Le(s.atime) + (U32Le(s.mtime) + (U64Le(s.length) + NameFields(s))));
    ParseU32Le(s.atime, U32Le(s.mtime) + (U64Le(s.length) + NameFields(s)));
    ParseU32Le(s.mtime, U64Le(s.length) + NameFields(s));
    ParseU64Le(s.length, NameFields(s));
  }

  lemma ParseEncodedFields(s: Stat)
    requires StatStringsValid(s) && StatFits(s)
    ensures ParseStatFields(StatFields(s)) == Ok(s, [])
  {
    hide ParseU16, ParseU32, ParseQid, U16Le, U32Le, EncodeQid, TimeFields, NameFields, ParseTimes, ParseNames;
    ParseU16Le(s.typ, U32Le(s.dev) + (EncodeQid(s.qid) + TimeFields(s)));
    ParseU32Le(s.dev, EncodeQid(s.qid) + TimeFields(s));
    ParseEncodedQid(s.qid, TimeFields(s));
    ParseEncodedTimes(s);
    ParseEncodedNames(s);
  }

  lemma ParseEncodedStat(s: Stat, rest: seq<Byte>)
    requires StatStringsValid(s) && StatFits(s)
    ensures ParseStat(EncodeStat(s) + rest) == Ok(s, rest)
  {
    StatFieldsSize(s);
    hide StatFields, ParseU16, U16Le, ParseStatFields;
    var size := U16Le(|StatFields(s)|);
    assert EncodeStat(s) + rest == size + (StatFields(s) + rest);
    ParseU16Le(|StatFields(s)|, StatFields(s) + rest);
    TakeFirst(StatFields(s), rest);
    ParseEncodedFields(s);
  }

  /** Success consumes the size field and as many bytes as it says. */
  lemma ParseStatConsumes(b: seq<Byte>)
    ensures ParseStat(b).Ok? ==> |b| == 2 + ParseU16(b).value + |ParseStat(b).rest|
  {
    hide ParseStatFields, FromLe;
  }

  /** The strings of a decoded stat are valid and fit a string field. */
  lemma ParsedStatStrings(b: seq<Byte>)
    ensures ParseStat(b).Ok? ==>
              var s := ParseStat(b).value;
              && StatStringsValid(s)
              && |s.name| < 0x1_0000 && |s.uid| < 0x1_0000 && |s.gid| < 0x1_0000 && |s.muid| < 0x1_0000
  {
    hide ParseU16, ParseU32, ParseQid, ParseTimes, ParseBytes, ValidUtf8;
  }

  /** A decoded string takes its length field and its bytes. */
  lemma ParseStringConsumes(b: seq<Byte>)
    ensures ParseString(b).Ok? ==> |b| == 2 + |ParseString(b).value| + |ParseString(b).rest|
  {
    hide FromLe, ValidUtf8;
  }

  lemma ParseNamesConsumes(b: seq<Byte>)
    ensures ParseNames(b).Ok? ==>
              var n := ParseNames(b).value;
              |b| == 8 + |n.0| + |n.1| + |n.2| + |n.3| + |ParseNames(b).rest|
  {
    forall x: seq<Byte> { ParseStringConsumes(x); }
    hide ParseString;
  }

  lemma ParseTimesConsumes(b: seq<Byte>)
    ensures ParseTimes(b).Ok? ==> |b| == 20 + |ParseTimes(b).rest|
  {
    hide FromLe;
  }

  /** A stat that decodes fits its size field: no decoder ever returns one with longer strings. */
  lemma DecodedStatFits(b: seq<Byte>)
    ensures ParseStat(b).Ok? ==> StatFits(ParseStat(b).value)
  {
    hide FromLe, ParseNames, ParseTimes, ParseString;
    if ParseStat(b).Ok? {
      var buffer := b[2..][..ParseU16(b).value];
      var times := buffer[2..][4..][13..];
      assert ParseStatFields(buffer).Ok?;
      ParseTimesConsumes(times);
      ParseNamesConsumes(ParseTimes(times).rest);
    }
  }

  /** A stat survives the wire, whatever follows it, exactly when its strings total at most 65488 bytes. */
  lemma StatRoundTrip(s: Stat, rest: seq<Byte>)
    requires StatStringsValid(s)
    ensures ParseStat(EncodeStat(s) + rest) == Ok(s, rest) <==> StringBytes(s) <= 65488
  {
    if StatFits(s) {
      ParseEncodedStat(s, rest);
    } else {
      hide ParseStat, StatFields, ParseU16, U16Le;
      StatFieldsSize(s);
      ParseStatConsumes(EncodeStat(s) + rest);
      var size := |StatFields(s)| % 0x1_0000;
      assert EncodeStat(s) + rest == U16Le(size) + (StatFields(s) + rest);
      ParseU16Le(size, StatFields(s) + rest);
    }
  }

  /** Cut anywhere, an encoded stat makes the decoder ask for more. */
  lemma StatPrefixIsShort(s: Stat, k: nat)
    requires StatFits(s) && k < |EncodeStat(s)|
    ensures ParseStat(EncodeStat(s)[..k]) == Err(UnexpectedEof)
  {
    StatFieldsSize(s);
    hide StatFields;
    var n := |StatFields(s)|;
    var cut := EncodeStat(s)[..k];
    if k >= 2 {
      var part := StatFields(s)[..k - 2];
      assert cut == U16Le(n) + part;
      ParseU16Le(n, part);
      hide ParseU16, U16Le, EncodeStat;
    }
  }

  // ---------------------------------------------------------------- stats that do not fit

  /** Strings that a string field can carry each, whatever their sum. */
  predicate StatIsWired(s: Stat) {
    StatStringsValid(s) && |s.name| < 0x1_0000 && |s.uid| < 0x1_0000 && |s.gid| < 0x1_0000 && |s.muid| < 0x1_0000
  }

  lemma CutBehind(a: seq<Byte>, tail: seq<Byte>, k: nat)
    requires |a| <= k <= |a| + |tail|
    ensures (a + tail)[..k] == a + tail[..k - |a|]
  {
  }

  lemma StringCut(s: Str, tail: seq<Byte>, k: nat)
    requires ValidUtf8(s) && |s| < 0x1_0000 && k <= |EncodeString(s)| + |tail|
    ensures ParseString((EncodeString(s) + tail)[..k]) ==
            if k < |EncodeString(s)| then Err(UnexpectedEof) else Ok(s, tail[..k - |EncodeString(s)|])
  {
    hide ValidUtf8;
    if k >= |EncodeString(s)| {
      CutBehind(EncodeString(s), tail, k);
      ParseEncodedString(s, tail[..k - |EncodeString(s)|]);
    } else if k >= 2 {
      assert (EncodeString(s) + tail)[..k] == U16Le(|s|) + s[..k - 2];
      ParseU16Le(|s|, s[..k - 2]);
    }
  }

  lemma NamesCut(s: Stat, k: nat)
    requires StatIsWired(s) && k < |NameFields(s)|
    ensures ParseNames(NameFields(s)[..k]) == Err(UnexpectedEof)
  {
    hide ParseString, EncodeString, ValidUtf8;
    var t1 := EncodeString(s.uid) + (EncodeString(s.gid) + EncodeString(s.muid));
    StringCut(s.name, t1, k);
    if k >= |EncodeString(s.name)| {
      var k1 := k - |EncodeString(s.name)|;
      var t2 := EncodeString(s.gid) + EncodeString(s.muid);
      StringCut(s.uid, t2, k1);
      if k1 >= |EncodeString(s.uid)| {
        var k2 := k1 - |EncodeString(s.uid)|;
        StringCut(s.gid, EncodeString(s.muid), k2);
        if k2 >= |EncodeString(s.gid)| {
          assert EncodeString(s.muid) + [] == EncodeString(s.muid);
          StringCut(s.muid, [], k2 - |EncodeString(s.gid)|);
        }
      }
    }
  }

  lemma U16Cut(n: U16, tail: seq<Byte>, k: nat)
    requires k <= 2 + |tail|
    ensures ParseU16((U16Le(n) + tail)[..k]) == if k < 2 then Err(UnexpectedEof) else Ok(n, tail[..k - 2])
  {
    if k >= 2 {
      CutBehind(U16Le(n), tail, k);
      ParseU16Le(n, tail[..k - 2]);
    }
  }

  lemma U32Cut(n: U32, tail: seq<Byte>, k: nat)
    requires k <= 4 + |tail|
    ensures ParseU32((U32Le(n) + tail)[..k]) == if k < 4 then Err(UnexpectedEof) else Ok(n, tail[..k - 4])
  {
    if k >= 4 {
      CutBehind(U32Le(n), tail, k);
      ParseU32Le(n, tail[..k - 4]);
    }
  }

  lemma U64Cut(n: U64, tail: seq<Byte>, k: nat)
    requires k <= 8 + |tail|
    ensures ParseU64((U64Le(n) + tail)[..k]) == if k < 8 then Err(UnexpectedEof) else Ok(n, tail[..k - 8])
  {
    if k >= 8 {
      CutBehind(U64Le(n), tail, k);
      ParseU64Le(n, tail[..k - 8]);
    }
  }

  lemma QidCut(q: Qid, tail: seq<Byte>, k: nat)
    requires k <= 13 + |tail|
    ensures ParseQid((EncodeQid(q) + tail)[..k]) == if k < 13 then Err(UnexpectedEof) else Ok(q, tail[..k - 13])
  {
    if k >= 13 {
      CutBehind(EncodeQid(q), tail, k);
      ParseEncodedQid(q, tail[..k - 13]);
    }
  }

  lemma TimesCut(s: Stat, k: nat)
    requires k <= |TimeFields(s)|
    ensures ParseTimes(TimeFields(s)[..k]) ==
            if k < 20 then Err(UnexpectedEof) else Ok((s.mode, s.atime, s.mtime, s.length), NameFields(s)[..k - 20])
  {
    hide ParseU32, ParseU64, U32Le, U64Le, NameFields;
    U32Cut(s.mode, U32Le(s.atime) + (U32Le(s.mtime) + (U64Le(s.length) + NameFields(s))), k);
    if k >= 4 {
      U32Cut(s.atime, U32Le(s.mtime) + (U64Le(s.length) + NameFields(s)), k - 4);
      if k >= 8 {
        U32Cut(s.mtime, U64Le(s.length) + NameFields(s), k - 8);
        if k >= 12 { U64Cut(s.length, NameFields(s), k - 12); }
      }
    }
  }

  /** The fields of a stat, cut anywhere, make the decoder ask for more. */
  lemma FieldsCut(s: Stat, k: nat)
    requires StatIsWired(s) && k < |StatFields(s)|
    ensures ParseStatFields(StatFields(s)[..k]) == Err(UnexpectedEof)
  {
    hide ParseU16, ParseU32, ParseQid, U16Le, U32Le, EncodeQid, NameFields, ParseTimes, ParseNames, StatIsWired;
    U16Cut(s.typ, U32Le(s.dev) + (EncodeQid(s.qid) + TimeFields(s)), k);
    if k >= 2 {
      U32Cut(s.dev, EncodeQid(s.qid) + TimeFields(s), k - 2);
      if k >= 6 {
        QidCut(s.qid, TimeFields(s), k - 6);
        if k >= 19 {
          TimesCut(s, k - 19);
          if k >= 39 { NamesCut(s, k - 39); }
        }
      }
    }
  }

  /** A stat whose size field wraps makes the decoder ask for more, however much follows. */
  lemma OversizedIsShort(s: Stat, more: seq<Byte>, k: nat)
    requires StatIsWired(s) && !StatFits(s)
    ensures k <= |EncodeStat(s) + more| ==> ParseStat((EncodeStat(s) + more)[..k]) == Err(UnexpectedEof)
  {
    StatFieldsSize(s);
    hide StatFields, ParseU16, U16Le, ParseStatFields;
    var size := |StatFields(s)| % 0x1_0000;
    var tail := StatFields(s) + more;
    assert EncodeStat(s) + more == U16Le(size) + tail;
    if k <= 2 + |tail| { U16Cut(size, tail, k); }
    if 2 + size <= k <= 2 + |tail| {
      assert tail[..k - 2][..size] == StatFields(s)[..size];
      FieldsCut(s, size);
    }
  }
}
