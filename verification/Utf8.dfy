/** Well-formed UTF-8, the test `String::from_utf8` applies (table 3-7 of the Unicode Standard). */
module Utf8 {
  import opened Bytes

  predicate Continuation(s: Str, i: nat) {
    i < |s| && 0x80 <= s[i] <= 0xBF
  }

  /** The length of the well-formed character at the head of `s`, or 0 when there is none. */
  function CharLen(s: Str): (n: nat)
    ensures n <= |s|
    ensures forall i :: 0 < i < n ==> Continuation(s, i)
  {
    if s == [] then 0
    else if s[0] < 0x80 then 1
    else if 0xC2 <= s[0] <= 0xDF && Continuation(s, 1) then 2
    else if 0xE0 <= s[0] <= 0xEF && Continuation(s, 1) && Continuation(s, 2)
            && (s[0] == 0xE0 ==> 0xA0 <= s[1]) && (s[0] == 0xED ==> s[1] <= 0x9F) then 3
    else if 0xF0 <= s[0] <= 0xF4 && Continuation(s, 1) && Continuation(s, 2) && Continuation(s, 3)
            && (s[0] == 0xF0 ==> 0x90 <= s[1]) && (s[0] == 0xF4 ==> s[1] <= 0x8F) then 4
    else 0
  }

  predicate ValidUtf8(s: Str)
    decreases |s|
  {
    s == [] || (CharLen(s) > 0 && ValidUtf8(s[CharLen(s)..]))
  }

  lemma {:induction false} AsciiIsValid(s: Str)
    requires forall i :: 0 <= i < |s| ==> s[i] < 0x80
    ensures ValidUtf8(s)
  {
    if s == [] {
    } else {
      assert CharLen(s) == 1;
      AsciiIsValid(s[1..]);
    }
  }

  lemma {:induction false} Concat(s: Str, t: Str)
    requires ValidUtf8(s) && ValidUtf8(t)
    ensures ValidUtf8(s + t)
    decreases |s|
  {
    if s == [] {
      assert s + t == t;
    } else {
      var n := CharLen(s);
      assert CharLen(s + t) == n;
      Concat(s[n..], t);
      assert (s + t)[n..] == s[n..] + t;
    }
  }

  lemma NoCharOver(s: Str, i: nat)
    requires i < |s| && s[i] < 0x80 && CharLen(s) > 0
    ensures if i == 0 then CharLen(s) == 1 else CharLen(s) <= i && CharLen(s[..i]) == CharLen(s)
  {
    assert !Continuation(s, i);
  }

  lemma CutSlices(s: Str, n: nat, i: nat)
    requires n <= i < |s|
    ensures s[..i][n..] == s[n..][..i - n] && s[n..][i - n + 1..] == s[i + 1..] && s[n..][i - n] == s[i]
  {
  }

  /** An ASCII byte is a character boundary: cutting a valid string around it leaves two valid strings. */
  lemma {:induction false} CutAtAscii(s: Str, i: nat)
    requires ValidUtf8(s) && i < |s| && s[i] < 0x80
    ensures ValidUtf8(s[..i]) && ValidUtf8(s[i + 1..])
    decreases |s|
  {
    hide CharLen;
    NoCharOver(s, i);
    var n := CharLen(s);
    if i == 0 {
      assert s[..0] == [];
    } else {
      CutSlices(s, n, i);
      CutAtAscii(s[n..], i - n);
    }
  }

  lemma TextIsValid(s: string)
    requires forall i :: 0 <= i < |s| ==> s[i] as int < 0x80
    ensures ValidUtf8(Text(s)) && |Text(s)| == |s|
  {
    hide ValidUtf8;
    AsciiIsValid(Text(s));
  }

  // ---------------------------------------------------------------- code points

  /** A Unicode scalar value: a Rust `char`. */
  predicate Scalar(c: nat) {
    c < 0xD800 || 0xE000 <= c < 0x11_0000
  }

  /** Its UTF-8 bytes (table 3-6 of the Unicode Standard). */
  function EncodeChar(c: nat): Str
    requires Scalar(c)
  {
    if c < 0x80 then [c]
    else if c < 0x800 then [0xC0 + c / 0x40, 0x80 + c % 0x40]
    else if c < 0x1_0000 then [0xE0 + c / 0x1000, 0x80 + c / 0x40 % 0x40, 0x80 + c % 0x40]
    else [0xF0 + c / 0x4_0000, 0x80 + c / 0x1000 % 0x40, 0x80 + c / 0x40 % 0x40, 0x80 + c % 0x40]
  }

  function EncodeChars(cs: seq<nat>): Str
    requires forall i :: 0 <= i < |cs| ==> Scalar(cs[i])
  {
    if cs == [] then [] else EncodeChar(cs[0]) + EncodeChars(cs[1..])
  }

  function Value2(a: int, b: int): int { (a - 0xC0) * 0x40 + (b - 0x80) }

  function Value3(a: int, b: int, c: int): int { (a - 0xE0) * 0x1000 + (b - 0x80) * 0x40 + (c - 0x80) }

  function Value4(a: int, b: int, c: int, d: int): int {
    (a - 0xF0) * 0x4_0000 + (b - 0x80) * 0x1000 + (c - 0x80) * 0x40 + (d - 0x80)
  }

  /** The value of the character at the head of `s`. */
  function HeadValue(s: Str): int
    requires CharLen(s) > 0
  {
    var n := CharLen(s);
    if n == 1 then s[0]
    else if n == 2 then Value2(s[0], s[1])
    else if n == 3 then Value3(s[0], s[1], s[2])
    else Value4(s[0], s[1], s[2], s[3])
  }

  lemma TwoBytes(a: Byte, b: Byte)
    requires 0xC2 <= a <= 0xDF && 0x80 <= b <= 0xBF
    ensures var c := Value2(a, b); 0x80 <= c < 0x800 && EncodeChar(c) == [a, b]
  {
  }

  lemma Shifted(u: nat, r: nat)
    requires r < 0x40
    ensures var v := u * 0x40 + r;
            v % 0x40 == r && v / 0x40 == u && v / 0x1000 == u / 0x40 && v / 0x4_0000 == u / 0x1000
  {
  }

  lemma ThreeBytes(a: Byte, b: Byte, c: Byte)
    requires 0xE0 <= a <= 0xEF && 0x80 <= b <= 0xBF && 0x80 <= c <= 0xBF
    requires (a == 0xE0 ==> 0xA0 <= b) && (a == 0xED ==> b <= 0x9F)
    ensures var v := Value3(a, b, c); v >= 0x800 && Scalar(v) && v < 0x1_0000 && EncodeChar(v) == [a, b, c]
  {
    var x: nat, y: nat, z: nat := a - 0xE0, b - 0x80, c - 0x80;
    var w := x * 0x40 + y;
    var v := w * 0x40 + z;
    Shifted(x, y);
    Shifted(w, z);
    assert Value3(a, b, c) == v && 0x800 <= v < 0x1_0000 && Scalar(v);
    ThreeParts(v, x, y, z);
  }

  lemma ThreeParts(v: nat, x: nat, y: nat, z: nat)
    requires 0x800 <= v < 0x1_0000 && Scalar(v)
    requires v / 0x1000 == x && v / 0x40 % 0x40 == y && v % 0x40 == z
    ensures EncodeChar(v) == [0xE0 + x, 0x80 + y, 0x80 + z]
  {
  }

  lemma FourBytes(a: Byte, b: Byte, c: Byte, d: Byte)
    requires 0xF0 <= a <= 0xF4 && 0x80 <= b <= 0xBF && 0x80 <= c <= 0xBF && 0x80 <= d <= 0xBF
    requires (a == 0xF0 ==> 0x90 <= b) && (a == 0xF4 ==> b <= 0x8F)
    ensures var v := Value4(a, b, c, d); v >= 0x1_0000 && Scalar(v) && EncodeChar(v) == [a, b, c, d]
  {
    var x: nat, y: nat, z: nat, r: nat := a - 0xF0, b - 0x80, c - 0x80, d - 0x80;
    var w := x * 0x40 + y;
    var u := w * 0x40 + z;
    Shifted(x, y);
    Shifted(w, z);
    Shifted(u, r);
    FourParts(u * 0x40 + r, x, y, z, r);
    assert Value4(a, b, c, d) == u * 0x40 + r;
  }

  lemma FourParts(v: nat, x: nat, y: nat, z: nat, r: nat)
    requires 0x1_0000 <= v < 0x11_0000
    requires v / 0x4_0000 == x && v / 0x1000 % 0x40 == y && v / 0x40 % 0x40 == z && v % 0x40 == r
    ensures Scalar(v) && EncodeChar(v) == [0xF0 + x, 0x80 + y, 0x80 + z, 0x80 + r]
  {
  }

  lemma HeadIsChar(s: Str)
    requires CharLen(s) > 0
    ensures HeadValue(s) >= 0 && Scalar(HeadValue(s)) && EncodeChar(HeadValue(s)) == s[..CharLen(s)]
  {
    hide EncodeChar, Value2, Value3, Value4;
    var n := CharLen(s);
    if n == 1 {
      OneByte(s[0]);
      assert s[..1] == [s[0]];
    } else if n == 2 {
      TwoBytes(s[0], s[1]);
      assert s[..2] == [s[0], s[1]];
    } else if n == 3 {
      ThreeBytes(s[0], s[1], s[2]);
      assert s[..3] == [s[0], s[1], s[2]];
    } else {
      FourBytes(s[0], s[1], s[2], s[3]);
      assert s[..4] == [s[0], s[1], s[2], s[3]];
    }
  }

  lemma OneByte(a: Byte)
    requires a < 0x80
    ensures Scalar(a) && EncodeChar(a) == [a]
  {
  }

  /** The bytes that table 3-7 of the Unicode Standard allows. */
  predicate AllowedBytes(e: Str) {
    || (|e| == 1 && e[0] < 0x80)
    || (|e| == 2 && 0xC2 <= e[0] <= 0xDF && Continuation(e, 1))
    || (|e| == 3 && 0xE0 <= e[0] <= 0xEF && Continuation(e, 1) && Continuation(e, 2)
        && (e[0] == 0xE0 ==> 0xA0 <= e[1]) && (e[0] == 0xED ==> e[1] <= 0x9F))
    || (|e| == 4 && 0xF0 <= e[0] <= 0xF4 && Continuation(e, 1) && Continuation(e, 2) && Continuation(e, 3)
        && (e[0] == 0xF0 ==> 0x90 <= e[1]) && (e[0] == 0xF4 ==> e[1] <= 0x8F))
  }

  lemma CharIsAllowed(c: nat)
    requires Scalar(c)
    ensures AllowedBytes(EncodeChar(c))
  {
  }

  lemma AllowedIsHead(e: Str, rest: Str)
    requires AllowedBytes(e)
    ensures CharLen(e + rest) == |e| > 0
  {
    assert forall i :: 0 <= i < |e| ==> (e + rest)[i] == e[i];
  }

  lemma CharIsHead(c: nat, rest: Str)
    requires Scalar(c)
    ensures CharLen(EncodeChar(c) + rest) == |EncodeChar(c)| > 0
  {
    hide EncodeChar, CharLen, AllowedBytes;
    CharIsAllowed(c);
    AllowedIsHead(EncodeChar(c), rest);
  }

  lemma EncodeCons(c: nat, cs: seq<nat>)
    requires Scalar(c) && forall i :: 0 <= i < |cs| ==> Scalar(cs[i])
    ensures forall i :: 0 <= i <= |cs| ==> Scalar(([c] + cs)[i])
    ensures EncodeChars([c] + cs) == EncodeChar(c) + EncodeChars(cs)
  {
    hide EncodeChar, Scalar;
    assert ([c] + cs)[1..] == cs;
  }

  lemma {:induction false} Decoded(s: Str) returns (cs: seq<nat>)
    requires ValidUtf8(s)
    ensures forall i :: 0 <= i < |cs| ==> Scalar(cs[i])
    ensures EncodeChars(cs) == s
    decreases |s|
  {
    if s == [] {
      cs := [];
    } else {
      var n := CharLen(s);
      ValidTail(s);
      HeadIsChar(s);
      hide EncodeChar, CharLen, Scalar, HeadValue, ValidUtf8, EncodeChars;
      var rest := Decoded(s[n..]);
      EncodeCons(HeadValue(s), rest);
      cs := [HeadValue(s)] + rest;
      HeadAndTail(s, n);
    }
  }

  lemma ValidTail(s: Str)
    requires ValidUtf8(s) && s != []
    ensures CharLen(s) > 0 && ValidUtf8(s[CharLen(s)..])
  {
    hide CharLen;
  }

  lemma HeadAndTail(s: Str, n: nat)
    requires n <= |s|
    ensures s[..n] + s[n..] == s
  {
  }

  lemma {:induction false} EncodedIsValid(cs: seq<nat>)
    requires forall i :: 0 <= i < |cs| ==> Scalar(cs[i])
    ensures ValidUtf8(EncodeChars(cs))
  {
    hide EncodeChar, CharLen, Scalar;
    if cs != [] {
      EncodedIsValid(cs[1..]);
      CharIsHead(cs[0], EncodeChars(cs[1..]));
      var s, n := EncodeChars(cs), |EncodeChar(cs[0])|;
      assert s[n..] == EncodeChars(cs[1..]);
    }
  }

  /** A byte string is valid exactly when it is the encoding of some sequence of scalar values. */
  lemma ValidIsEncoded(s: Str)
    ensures ValidUtf8(s) <==>
            exists cs: seq<nat> :: (forall i :: 0 <= i < |cs| ==> Scalar(cs[i])) && EncodeChars(cs) == s
  {
    hide ValidUtf8, EncodeChars, Scalar;
    if ValidUtf8(s) { var cs := Decoded(s); }
    forall cs: seq<nat> | (forall i :: 0 <= i < |cs| ==> Scalar(cs[i])) && EncodeChars(cs) == s ensures ValidUtf8(s) {
      EncodedIsValid(cs);
    }
  }
}
