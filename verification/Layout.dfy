/** Which byte is where on the wire: the layouts of section 5 of the Plan 9 manual, as
    libs/planten_9p/src/lib.rs:250-392 builds them. */
module Layout {
  import opened Bytes
  import Utf8
  import opened Stats
  import opened Codec
  import opened Frames
  import opened Messages

  /** From byte `at` on stands `f`. */
  predicate Field(b: seq<Byte>, at: nat, f: seq<Byte>) {
    at + |f| <= |b| && b[at..at + |f|] == f
  }

  lemma FieldsWithin(b: seq<Byte>, from: nat, part: seq<Byte>)
    requires Field(b, from, part)
    ensures forall at: nat, f: seq<Byte> :: Field(part, at, f) ==> Field(b, from + at, f)
  {
    forall at: nat, f: seq<Byte> | Field(part, at, f) ensures Field(b, from + at, f) {
      SliceOfSlice(b, from, |part|, at, |f|);
    }
  }

  lemma SliceOfSlice(b: seq<Byte>, from: nat, n: nat, at: nat, k: nat)
    requires from + n <= |b| && at + k <= n
    ensures b[from..from + n][at..at + k] == b[from + at..from + at + k]
  {
    var x, y := b[from..from + n][at..at + k], b[from + at..from + at + k];
    assert |x| == |y| && forall i :: 0 <= i < k ==> x[i] == y[i];
  }

  // ---------------------------------------------------------------- numbers and strings

  lemma {:induction false} Digit(n: nat, k: nat, i: nat)
    requires i < k
    ensures ToLe(n, k)[i] == n / Pow256(i) % 0x100
  {
    if i > 0 {
      Digit(n / 0x100, k - 1, i - 1);
      DivTwice(n, Pow256(i - 1));
    } else {
      assert Pow256(0) == 1;
    }
  }

  lemma DivTwice(n: nat, p: nat)
    requires p > 0
    ensures n / 0x100 / p == n / (0x100 * p)
  {
    var q := n / 0x100;
    var a, b := q / p, q % p;
    var r := n % 0x100 + 0x100 * b;
    assert n == 0x100 * p * a + r && 0 <= r < 0x100 * p by {
      assert q == p * a + b;
      assert 0x100 * (p * a) == 0x100 * p * a;
    }
    QuotientIs(n, 0x100 * p, a, r);
  }

  lemma QuotientIs(n: nat, d: nat, a: nat, r: nat)
    requires d > 0 && n == d * a + r && r < d
    ensures n / d == a
  {
    var q, m := n / d, n % d;
    Spread(d, q, a);
    Spread(d, a, q);
    assert d * (q - a) == r - m && d * (a - q) == m - r;
    if q > a { AtLeastOnce(d, q - a); }
    if q < a { AtLeastOnce(d, a - q); }
  }

  lemma Spread(d: nat, q: nat, a: nat)
    ensures d * (q - a) == d * q - d * a
  {
  }

  lemma AtLeastOnce(d: nat, x: nat)
    requires x > 0
    ensures d * x >= d
  {
  }

  /** Numbers are little endian. */
  lemma Numbers(n: U16, m: U32, l: U64)
    ensures U16Le(n) == [n % 0x100, n / 0x100]
    ensures U32Le(m) == [m % 0x100, m / 0x100 % 0x100, m / 0x1_0000 % 0x100, m / 0x100_0000]
    ensures U64Le(l)[..4] == U32Le(l % 0x1_0000_0000) && U64Le(l)[4..] == U32Le(l / 0x1_0000_0000)
  {
    Places();
    Digit(n, 2, 0);
    Digit(n, 2, 1);
    Digit(m, 4, 0);
    Digit(m, 4, 1);
    Digit(m, 4, 2);
    Digit(m, 4, 3);
    LongNumber(l);
    hide ToLe, Pow256;
  }

  lemma Places()
    ensures Pow256(0) == 1 && Pow256(1) == 0x100 && Pow256(2) == 0x1_0000 && Pow256(3) == 0x100_0000
  {
    assert Pow256(3) == 0x100 * Pow256(2);
  }

  lemma LongNumber(l: U64)
    ensures U64Le(l)[..4] == U32Le(l % 0x1_0000_0000) && U64Le(l)[4..] == U32Le(l / 0x1_0000_0000)
  {
    LowDigits(l, 4, 8);
    Widths();
  }

  lemma {:induction false} LowDigits(n: nat, j: nat, k: nat)
    requires j <= k
    ensures ToLe(n, k)[..j] == ToLe(n % Pow256(j), j) && ToLe(n, k)[j..] == ToLe(n / Pow256(j), k - j)
  {
    if j == 0 {
      assert Pow256(0) == 1;
    } else {
      LowDigits(n / 0x100, j - 1, k - 1);
      DivTwice(n, Pow256(j - 1));
      ModTwice(n, Pow256(j - 1));
    }
  }

  lemma ModTwice(n: nat, p: nat)
    requires p > 0
    ensures n % (0x100 * p) % 0x100 == n % 0x100 && n % (0x100 * p) / 0x100 == n / 0x100 % p
  {
    var q := n / 0x100;
    var a, b := q / p, q % p;
    var r := n % 0x100 + 0x100 * b;
    assert q == p * a + b;
    assert 0x100 * (p * a) == 0x100 * p * a;
    assert n == 0x100 * p * a + r && r < 0x100 * p;
    QuotientIs(n, 0x100 * p, a, r);
    assert n % (0x100 * p) == r;
  }

  /** A string stands behind its length. */
  lemma StringLayout(s: Str)
    ensures |EncodeString(s)| == 2 + |s|
    ensures Field(EncodeString(s), 0, U16Le(|s| % 0x1_0000)) && Field(EncodeString(s), 2, s)
  {
    hide ToLe;
  }

  // ---------------------------------------------------------------- records

  /** qid: type[1] version[4] path[8] */
  lemma QidLayout(q: Qid)
    ensures var b := EncodeQid(q);
            |b| == 13 && b[0] == q.qtype && Field(b, 1, U32Le(q.version)) && Field(b, 5, U64Le(q.path))
  {
    hide ToLe;
  }

  /** stat: size[2] type[2] dev[4] qid[13] mode[4] atime[4] mtime[4] length[8] name[s] uid[s] gid[s] muid[s] */
  lemma StatLayout(s: Stat)
    ensures var b := EncodeStat(s);
            var uid := 43 + |s.name|;
            var gid := uid + 2 + |s.uid|;
            var muid := gid + 2 + |s.gid|;
            && |b| == muid + 2 + |s.muid|
            && Field(b, 0, U16Le((|b| - 2) % 0x1_0000)) && Field(b, 2, U16Le(s.typ)) && Field(b, 4, U32Le(s.dev))
            && Field(b, 8, EncodeQid(s.qid)) && Field(b, 21, U32Le(s.mode)) && Field(b, 25, U32Le(s.atime))
            && Field(b, 29, U32Le(s.mtime)) && Field(b, 33, U64Le(s.length))
            && Field(b, 41, EncodeString(s.name)) && Field(b, uid, EncodeString(s.uid))
            && Field(b, gid, EncodeString(s.gid)) && Field(b, muid, EncodeString(s.muid))
  {
    NamesLayout(s);
    TimesLayout(s);
    HeadLayout(s);
    hide EncodeStat, TimeFields, NameFields, EncodeString, U16Le, U32Le, U64Le;
    FieldsWithin(EncodeStat(s), 21, TimeFields(s));
    FieldsWithin(TimeFields(s), 20, NameFields(s));
  }

  lemma NamesLayout(s: Stat)
    ensures var b := NameFields(s);
            var uid := 2 + |s.name|;
            var gid := uid + 2 + |s.uid|;
            var muid := gid + 2 + |s.gid|;
            && |b| == muid + 2 + |s.muid|
            && Field(b, 0, EncodeString(s.name)) && Field(b, uid, EncodeString(s.uid))
            && Field(b, gid, EncodeString(s.gid)) && Field(b, muid, EncodeString(s.muid))
  {
    hide ToLe;
  }

  lemma TimesLayout(s: Stat)
    ensures var b := TimeFields(s);
            && |b| == 20 + |NameFields(s)|
            && Field(b, 0, U32Le(s.mode)) && Field(b, 4, U32Le(s.atime)) && Field(b, 8, U32Le(s.mtime))
            && Field(b, 12, U64Le(s.length)) && Field(b, 20, NameFields(s))
  {
    hide ToLe, NameFields;
  }

  lemma HeadLayout(s: Stat)
    ensures var b := EncodeStat(s);
            && |b| == 21 + |TimeFields(s)|
            && Field(b, 0, U16Le((|b| - 2) % 0x1_0000)) && Field(b, 2, U16Le(s.typ)) && Field(b, 4, U32Le(s.dev))
            && Field(b, 8, EncodeQid(s.qid)) && Field(b, 21, TimeFields(s))
  {
    hide ToLe, TimeFields, EncodeQid;
    var size, typ, dev := U16Le(|StatFields(s)| % 0x1_0000), U16Le(s.typ), U32Le(s.dev);
    var qid, times := EncodeQid(s.qid), TimeFields(s);
    hide U16Le, U32Le;
    assert EncodeStat(s) == size + StatFields(s) && StatFields(s) == typ + (dev + (qid + times));
    assert |EncodeStat(s)| - 2 == |StatFields(s)|;
    hide EncodeStat, StatFields;
    FiveFields(size, typ, dev, qid, times);
  }

  lemma FiveFields(size: seq<Byte>, typ: seq<Byte>, dev: seq<Byte>, qid: seq<Byte>, times: seq<Byte>)
    requires |size| == 2 && |typ| == 2 && |dev| == 4 && |qid| == 13
    ensures var b := size + (typ + (dev + (qid + times)));
            && |b| == 21 + |times|
            && Field(b, 0, size) && Field(b, 2, typ) && Field(b, 4, dev) && Field(b, 8, qid) && Field(b, 21, times)
  {
  }

  // ---------------------------------------------------------------- frames and bodies

  /** frame: size[4] type[1] tag[2] body */
  lemma FrameLayout(msgType: Byte, tag: U16, body: seq<Byte>)
    ensures var b := BuildFrame(msgType, tag, body);
            && |b| == 7 + |body|
            && Field(b, 0, U32Le((7 + |body|) % 0x1_0000_0000)) && b[4] == msgType && Field(b, 5, U16Le(tag))
            && Field(b, 7, body)
  {
    hide ToLe;
    assert (7 + |body| % 0x1_0000_0000) % 0x1_0000_0000 == (7 + |body|) % 0x1_0000_0000;
  }

  /** Tversion, Rversion: msize[4] version[s]. Tattach: fid[4] afid[4] uname[s] aname[s]. */
  lemma SessionLayout(msize: U32, version: Str, fid: U32, afid: U32, uname: Str, aname: Str)
    ensures var b := VersionBody(msize, version);
            |b| == 6 + |version| && Field(b, 0, U32Le(msize)) && Field(b, 4, EncodeString(version))
    ensures var b := AttachBody(fid, Some(afid), uname, aname);
            && |b| == 12 + |uname| + |aname|
            && Field(b, 0, U32Le(fid)) && Field(b, 4, U32Le(afid)) && Field(b, 8, EncodeString(uname))
            && Field(b, 10 + |uname|, EncodeString(aname))
            && AttachBody(fid, None, uname, aname) == AttachBody(fid, Some(0), uname, aname)
  {
    hide ToLe;
  }

  /** Topen: fid[4] mode[1]. Tread: fid[4] offset[8] count[4]. Twrite: fid[4] offset[8] count[4] data. */
  lemma DataLayout(fid: U32, mode: Byte, offset: U64, count: U32, data: seq<Byte>)
    ensures OpenBody(fid, mode) == U32Le(fid) + [mode]
    ensures var b := ReadBody(fid, offset, count);
            |b| == 16 && Field(b, 0, U32Le(fid)) && Field(b, 4, U64Le(offset)) && Field(b, 12, U32Le(count))
    ensures var b := WriteBody(fid, offset, data);
            && |b| == 16 + |data| && Field(b, 0, U32Le(fid)) && Field(b, 4, U64Le(offset))
            && Field(b, 12, U32Le(|data| % 0x1_0000_0000)) && Field(b, 16, data)
  {
    hide ToLe;
  }

  /** Tcreate: fid[4] name[s] perm[4] mode[1]. Twstat: fid[4] stat. Tclone: fid[4] newfid[4]. Tclunk, Tremove and
      Tstat: fid[4]. */
  lemma FileLayout(fid: U32, newfid: U32, name: Str, perm: U32, mode: Byte, stat: Stat)
    ensures var b := CreateBody(fid, name, perm, mode);
            && |b| == 11 + |name| && Field(b, 0, U32Le(fid)) && Field(b, 4, EncodeString(name))
            && Field(b, 6 + |name|, U32Le(perm)) && b[10 + |name|] == mode
    ensures Field(WstatBody(fid, stat), 0, U32Le(fid)) && Field(WstatBody(fid, stat), 4, EncodeStat(stat))
    ensures |WstatBody(fid, stat)| == 4 + |EncodeStat(stat)|
    ensures |CloneBody(fid, newfid)| == 8
    ensures Field(CloneBody(fid, newfid), 0, U32Le(fid)) && Field(CloneBody(fid, newfid), 4, U32Le(newfid))
    ensures FidBody(fid) == U32Le(fid)
  {
    hide ToLe, EncodeStat;
  }

  /** Where name `i` of a Twalk begins. */
  function NameAt(names: seq<Str>, i: nat): nat
    requires i <= |names|
  {
    if i == 0 then 10 else NameAt(names, i - 1) + 2 + |names[i - 1]|
  }

  /** Twalk: fid[4] newfid[4] nwname[2] and the names one after the other. */
  lemma WalkLayout(fid: U32, newfid: U32, names: seq<Str>)
    ensures var b := WalkBody(fid, newfid, names);
            && |b| == NameAt(names, |names|)
            && Field(b, 0, U32Le(fid)) && Field(b, 4, U32Le(newfid)) && Field(b, 8, U16Le(|names| % 0x1_0000))
            && forall i :: 0 <= i < |names| ==> Field(b, NameAt(names, i), EncodeString(names[i]))
  {
    var b, tail := WalkBody(fid, newfid, names), EncodeStrings(names);
    WalkHead(fid, newfid, names);
    NamesInOrder(names, |names|);
    FieldsWithin(b, 10, tail);
    hide Field, WalkBody, EncodeString, EncodeStrings, U16Le, U32Le;
    forall i | 0 <= i < |names| ensures Field(b, NameAt(names, i), EncodeString(names[i])) {
      NamesInOrder(names, i);
      assert Field(tail, NameAt(names, i) - 10, EncodeString(names[i]));
    }
  }

  lemma WalkHead(fid: U32, newfid: U32, names: seq<Str>)
    ensures var b := WalkBody(fid, newfid, names);
            && |b| == 10 + |EncodeStrings(names)|
            && Field(b, 0, U32Le(fid)) && Field(b, 4, U32Le(newfid)) && Field(b, 8, U16Le(|names| % 0x1_0000))
            && Field(b, 10, EncodeStrings(names))
  {
    hide EncodeStrings, ToLe;
  }

  lemma {:induction false} NamesInOrder(names: seq<Str>, i: nat)
    requires i <= |names|
    ensures NameAt(names, i) >= 10
    ensures i == |names| ==> |EncodeStrings(names)| == NameAt(names, i) - 10
    ensures i < |names| ==> Field(EncodeStrings(names), NameAt(names, i) - 10, EncodeString(names[i]))
    decreases names
  {
    if i == 0 {
      if names != [] { FirstName(EncodeString(names[0]), EncodeStrings(names[1..])); }
    } else {
      var first, rest := EncodeString(names[0]), EncodeStrings(names[1..]);
      NamesInOrder(names[1..], i - 1);
      NameLater(names, i);
      if i < |names| {
        assert Field(first + rest, |first|, rest);
        FieldsWithin(first + rest, |first|, rest);
        assert names[1..][i - 1] == names[i];
      }
    }
  }

  lemma FirstName(first: seq<Byte>, rest: seq<Byte>)
    ensures Field(first + rest, 0, first)
  {
  }

  lemma {:induction false} NameLater(names: seq<Str>, i: nat)
    requires 0 < i <= |names|
    ensures NameAt(names, i) == NameAt(names[1..], i - 1) + 2 + |names[0]|
  {
    if i > 1 { NameLater(names, i - 1); }
  }

  // ---------------------------------------------------------------- reading, byte by byte

  function Number16(b: seq<Byte>): U16
    requires |b| >= 2
  {
    b[0] as int + 0x100 * b[1] as int
  }

  function Number32(b: seq<Byte>): U32
    requires |b| >= 4
  {
    b[0] as int + 0x100 * b[1] as int + 0x1_0000 * b[2] as int + 0x100_0000 * b[3] as int
  }

  lemma ReadNumbers(b: seq<Byte>)
    ensures ParseU16(b) == if |b| < 2 then Err(UnexpectedEof) else Ok(Number16(b), b[2..])
    ensures ParseU32(b) == if |b| < 4 then Err(UnexpectedEof) else Ok(Number32(b), b[4..])
  {
    if |b| >= 2 {
      FromTwo(b[..2]);
      if |b| >= 4 { FromFour(b[..4]); }
    }
    hide FromLe;
  }

  lemma FromTwo(b: seq<Byte>)
    requires |b| == 2
    ensures FromLe(b) == Number16(b)
  {
    var tail := b[1..];
    assert tail[1..] == [] && tail[0] == b[1];
    assert FromLe(tail) == tail[0];
  }

  lemma FromFour(b: seq<Byte>)
    requires |b| == 4
    ensures FromLe(b) == Number32(b)
  {
    assert b[1..][1..] == b[2..];
    FromTwo(b[2..]);
    assert FromLe(b[1..]) == b[1] as int + 0x100 * FromLe(b[2..]);
  }

  /** Reading a frame: fewer than four bytes are waited on; a size below 7 is no frame; a frame that is not all there is
      waited on; otherwise type, tag and body are where the layout says. */
  lemma FrameExactly(b: seq<Byte>)
    ensures ReadFrame(b) ==
            if |b| < 4 then Err(UnexpectedEof)
            else
              var size := Number32(b);
              if size < 7 then Err(InvalidData)
              else if |b| < size then Err(UnexpectedEof)
              else Ok(RawMessage(size, b[4], Number16(b[5..7]), b[7..size]), b[size..])
  {
    ReadNumbers(b);
    if |b| >= 4 && Number32(b) >= 7 && |b| >= 7 {
      ReadNumbers(b[4..][..3][1..]);
      FrameSlices(b, Number32(b));
    }
    hide ParseU32, ParseU16;
  }

  lemma FrameSlices(b: seq<Byte>, size: nat)
    requires size >= 7 && |b| >= 7
    ensures b[4..][..3][1..] == b[5..7] && b[4..][..3][0] == b[4] && b[4..][3..] == b[7..]
    ensures size <= |b| ==> b[7..][..size - 7] == b[7..size] && b[7..][size - 7..] == b[size..]
  {
  }

  /** Reading a string: the length, then so many bytes, which must be valid UTF-8. */
  lemma StringExactly(b: seq<Byte>)
    ensures ParseString(b) ==
            if |b| < 2 || |b| < 2 + Number16(b) then Err(UnexpectedEof)
            else
              var s := b[2..2 + Number16(b)];
              if Utf8.ValidUtf8(s) then Ok(s, b[2 + Number16(b)..]) else Err(InvalidData)
  {
    ReadNumbers(b);
    hide ParseU16, Utf8.ValidUtf8;
    if |b| >= 2 && |b| >= 2 + Number16(b) {
      var n := Number16(b);
      assert b[2..][..n] == b[2..2 + n] && b[2..][n..] == b[2 + n..];
    }
  }

  /** Bytes that the size of a stat counts behind its fields are skipped. */
  lemma PaddedStat(s: Stat, junk: seq<Byte>, rest: seq<Byte>)
    requires StatStringsValid(s) && |StatFields(s)| + |junk| < 0x1_0000
    ensures ParseStat(U16Le(|StatFields(s)| + |junk|) + (StatFields(s) + junk + rest)) == Ok(s, rest)
  {
    hide StatFields, ParseStat, ParseStatFields, StatStringsValid, U16Le;
    StatFieldsSize(s);
    var fields := StatFields(s) + junk;
    FieldsThenMore(s, junk);
    SizedFields(fields, rest);
    assert fields + rest == StatFields(s) + junk + rest;
  }

  lemma SizedFields(fields: seq<Byte>, rest: seq<Byte>)
    requires |fields| < 0x1_0000 && ParseStatFields(fields).Ok?
    ensures ParseStat(U16Le(|fields|) + (fields + rest)) == Ok(ParseStatFields(fields).value, rest)
  {
    hide U16Le, ParseU16, ParseStatFields;
    ParseU16Le(|fields|, fields + rest);
    TakeFirst(fields, rest);
  }

  lemma FieldsThenMore(s: Stat, junk: seq<Byte>)
    requires StatStringsValid(s) && StatFits(s)
    ensures ParseStatFields(StatFields(s) + junk) == Ok(s, junk)
  {
    hide ParseU16, ParseU32, ParseU64, ParseQid, ParseString, U16Le, U32Le, U64Le, EncodeQid, EncodeString;
    var muid := EncodeString(s.muid) + junk;
    var gid := EncodeString(s.gid) + muid;
    var uid := EncodeString(s.uid) + gid;
    var name := EncodeString(s.name) + uid;
    var times := U32Le(s.mode) + (U32Le(s.atime) + (U32Le(s.mtime) + (U64Le(s.length) + name)));
    NamesThenMore(s, junk, name);
    TimesThenMore(s, junk, name);
    assert StatFields(s) + junk == U16Le(s.typ) + (U32Le(s.dev) + (EncodeQid(s.qid) + (TimeFields(s) + junk)));
    hide TimeFields;
    ParseU16Le(s.typ, U32Le(s.dev) + (EncodeQid(s.qid) + (TimeFields(s) + junk)));
    ParseU32Le(s.dev, EncodeQid(s.qid) + (TimeFields(s) + junk));
    ParseEncodedQid(s.qid, TimeFields(s) + junk);
    hide StatFields, ParseTimes, ParseNames;
  }

  lemma NamesThenMore(s: Stat, junk: seq<Byte>, name: seq<Byte>)
    requires StatStringsValid(s) && StatFits(s)
    requires name == EncodeString(s.name)
                     + (EncodeString(s.uid) + (EncodeString(s.gid) + (EncodeString(s.muid) + junk)))
    ensures name == NameFields(s) + junk && ParseNames(name) == Ok((s.name, s.uid, s.gid, s.muid), junk)
  {
    var muid := EncodeString(s.muid) + junk;
    var gid := EncodeString(s.gid) + muid;
    var uid := EncodeString(s.uid) + gid;
    ParseEncodedString(s.name, uid);
    ParseEncodedString(s.uid, gid);
    ParseEncodedString(s.gid, muid);
    ParseEncodedString(s.muid, junk);
    hide ParseString, EncodeString;
    FourThenMore(EncodeString(s.name), EncodeString(s.uid), EncodeString(s.gid), EncodeString(s.muid), junk);
  }

  lemma FourThenMore(a: seq<Byte>, b: seq<Byte>, c: seq<Byte>, d: seq<Byte>, junk: seq<Byte>)
    ensures (a + (b + (c + d))) + junk == a + (b + (c + (d + junk)))
  {
  }

  lemma TimesThenMore(s: Stat, junk: seq<Byte>, name: seq<Byte>)
    requires name == NameFields(s) + junk
    ensures ParseTimes(TimeFields(s) + junk) == Ok((s.mode, s.atime, s.mtime, s.length), name)
  {
    hide ParseU32, ParseU64, U32Le, U64Le, NameFields;
    ParseU32Le(s.mode, U32Le(s.atime) + (U32Le(s.mtime) + (U64Le(s.length) + name)));
    ParseU32Le(s.atime, U32Le(s.mtime) + (U64Le(s.length) + name));
    ParseU32Le(s.mtime, U64Le(s.length) + name);
    ParseU64Le(s.length, name);
    assert TimeFields(s) + junk == U32Le(s.mode) + (U32Le(s.atime) + (U32Le(s.mtime) + (U64Le(s.length) + name)));
  }
}
