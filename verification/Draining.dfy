/** Data that comes in chunks, cut anywhere: bytes put together again, and stats taken off as they complete
    (libs/planten_fs_ramfs/src/server.rs:414-420, the client loop at
    libs/planten_fs_ramfs/tests/golden_integration.rs:46-68 and 171-199). */
module Draining {
  import opened Bytes
  import opened Stats
  import opened Codec
  import opened Server

  // ---------------------------------------------------------------- chained chunks

  /** Reads of the given counts, each starting where the one before ended. */
  function Chain(data: seq<Byte>, offset: nat, counts: seq<nat>): seq<seq<Byte>>
    decreases counts
  {
    if counts == [] then []
    else var c := Chunk(data, offset, counts[0]); [c] + Chain(data, offset + |c|, counts[1..])
  }

  function Joined(chunks: seq<seq<Byte>>): seq<Byte> {
    if chunks == [] then [] else chunks[0] + Joined(chunks[1..])
  }

  /** The chunks are the bytes from the first offset on; a read comes back empty only at the end. */
  lemma {:induction false} ChainIsData(data: seq<Byte>, offset: nat, counts: seq<nat>)
    requires offset <= |data|
    ensures var j := Joined(Chain(data, offset, counts)); offset + |j| <= |data| && j == data[offset..offset + |j|]
    ensures |Chain(data, offset, counts)| == |counts|
    ensures counts != [] && counts[|counts| - 1] > 0 && Chain(data, offset, counts)[|counts| - 1] == [] ==>
              Joined(Chain(data, offset, counts)) == data[offset..]
    decreases counts
  {
    hide Chunk;
    if counts != [] {
      var c := Chunk(data, offset, counts[0]);
      ChunkIsSlice(data, offset, counts[0]);
      assert |counts| > 1 ==> counts[1..][|counts| - 2] == counts[|counts| - 1];
      ChainIsData(data, offset + |c|, counts[1..]);
      ChunkThenRest(data, offset, c, Joined(Chain(data, offset + |c|, counts[1..])));
    }
  }

  lemma ChunkIsSlice(data: seq<Byte>, offset: nat, count: nat)
    requires offset <= |data|
    ensures var c := Chunk(data, offset, count);
            && offset + |c| <= |data| && c == data[offset..offset + |c|]
            && (c == [] && count > 0 ==> offset == |data|) && (offset == |data| ==> c == [])
  {
  }

  predicate AllPositive(counts: seq<nat>) {
    forall i :: 0 <= i < |counts| ==> counts[i] > 0
  }

  /** With positive counts, more reads than there are bytes left end in an empty one. */
  lemma {:induction false} ChainEnds(data: seq<Byte>, offset: nat, counts: seq<nat>)
    requires offset <= |data| && |counts| > |data| - offset
    requires AllPositive(counts)
    ensures |Chain(data, offset, counts)| == |counts| && Chain(data, offset, counts)[|counts| - 1] == []
    decreases counts
  {
    hide Chunk;
    ChunkIsSlice(data, offset, counts[0]);
    if |counts| > 1 {
      ChainEnds(data, offset + |Chunk(data, offset, counts[0])|, counts[1..]);
    } else {
      assert counts[1..] == [];
    }
  }

  lemma ChunkThenRest(data: seq<Byte>, offset: nat, c: seq<Byte>, j: seq<Byte>)
    requires offset + |c| + |j| <= |data|
    requires c == data[offset..offset + |c|] && j == data[offset + |c|..offset + |c| + |j|]
    ensures c + j == data[offset..offset + |c + j|]
  {
  }

  // ---------------------------------------------------------------- draining stats

  function EncodeStats(ss: seq<Stat>): seq<Byte> {
    if ss == [] then [] else EncodeStat(ss[0]) + EncodeStats(ss[1..])
  }

  /** The stats taken from a buffer and what stays pending, or the failure of a stat that will never decode. */
  datatype Drained = Drained(stats: seq<Stat>, pending: seq<Byte>) | Malformed

  /** `drain_stat_entries` */
  function Drain(buffer: seq<Byte>): Drained
    decreases |buffer|
  {
    if buffer == [] then Drained([], [])
    else match ParseStat(buffer)
      case Err(e) => if e == UnexpectedEof then Drained([], buffer) else Malformed
      case Ok(s, rest) =>
        ParseStatConsumes(buffer);
        var d := Drain(rest);
        if d.Malformed? then Malformed else Drained([s] + d.stats, d.pending)
  }

  /** Each chunk is appended to what is pending and whole stats are drained. */
  function DrainChunks(pending: seq<Byte>, chunks: seq<seq<Byte>>): Drained
    decreases chunks
  {
    if chunks == [] then Drained([], pending)
    else
      var d := Drain(pending + chunks[0]);
      if d.Malformed? then Malformed
      else
        var more := DrainChunks(d.pending, chunks[1..]);
        if more.Malformed? then Malformed else Drained(d.stats + more.stats, more.pending)
  }

  predicate Fitting(ss: seq<Stat>) {
    forall i :: 0 <= i < |ss| ==> StatStringsValid(ss[i]) && StatFits(ss[i])
  }

  lemma DrainOne(s: Stat, rest: seq<Byte>)
    requires StatStringsValid(s) && StatFits(s)
    ensures Drain(EncodeStat(s) + rest) ==
            var d := Drain(rest); if d.Malformed? then Malformed else Drained([s] + d.stats, d.pending)
  {
    ParseEncodedStat(s, rest);
  }

  /** Behind any stats that fit, a stat that breaks a string spoils the whole buffer. */
  lemma {:induction false} DrainFails(ss: seq<Stat>, b: seq<Byte>)
    requires Fitting(ss) && ParseStat(b) == Err(InvalidData)
    ensures Drain(EncodeStats(ss) + b) == Malformed
  {
    hide ParseStat, EncodeStat;
    if ss == [] {
      assert EncodeStats(ss) + b == b && b != [] by { NothingIsShort(); }
    } else {
      assert Fitting(ss[1..]);
      DrainFails(ss[1..], b);
      DrainOne(ss[0], EncodeStats(ss[1..]) + b);
      Regroup(EncodeStat(ss[0]), EncodeStats(ss[1..]), b);
    }
  }

  lemma NothingIsShort()
    ensures ParseStat([]) == Err(UnexpectedEof)
  {
  }

  lemma DrainShort(s: Stat, b: seq<Byte>)
    requires StatFits(s) && b <= EncodeStat(s) && |b| < |EncodeStat(s)|
    ensures Drain(b) == Drained([], b)
  {
    StatPrefixIsShort(s, |b|);
    assert EncodeStat(s)[..|b|] == b;
  }

  /** Bytes of which no part ever completes a stat. */
  ghost predicate Stuck(rest: seq<Byte>) {
    forall b :: b <= rest ==> Drain(b) == Drained([], b)
  }

  lemma NothingIsStuck()
    ensures Stuck([])
  {
  }

  lemma DrainNone(ss: seq<Stat>, rest: seq<Byte>, b: seq<Byte>)
    requires Fitting(ss) && Stuck(rest) && b <= EncodeStats(ss) + rest && (ss == [] || |b| < |EncodeStat(ss[0])|)
    ensures Drain(b) == Drained(ss[..0], b) && EncodeStats(ss[..0]) + b == b
    ensures EncodeStats(ss) == EncodeStats(ss[..0]) + EncodeStats(ss[0..])
  {
    hide Drain, EncodeStat;
    assert ss[..0] == [] && ss[0..] == ss;
    if ss != [] {
      assert (EncodeStats(ss) + rest)[..|b|] == EncodeStat(ss[0])[..|b|];
      DrainShort(ss[0], b);
    } else {
      assert EncodeStats(ss) + rest == rest;
    }
  }

  lemma FittingTail(ss: seq<Stat>)
    requires Fitting(ss) && ss != []
    ensures Fitting(ss[1..]) && StatStringsValid(ss[0]) && StatFits(ss[0])
  {
  }

  /** Any prefix of encoded stats with a stuck rest drains to the stats it holds whole. */
  lemma {:induction false} DrainPrefix(ss: seq<Stat>, rest: seq<Byte>, b: seq<Byte>) returns (k: nat, p: seq<Byte>)
    requires Fitting(ss) && Stuck(rest) && b <= EncodeStats(ss) + rest
    ensures k <= |ss| && Drain(b) == Drained(ss[..k], p)
    ensures EncodeStats(ss[..k]) + p == b && EncodeStats(ss) == EncodeStats(ss[..k]) + EncodeStats(ss[k..])
    decreases ss
  {
    hide Drain, EncodeStat, Fitting, Stuck;
    if ss == [] || |b| < |EncodeStat(ss[0])| {
      k, p := 0, b;
      DrainNone(ss, rest, b);
    } else {
      var first := EncodeStat(ss[0]);
      var b' := b[|first|..];
      FittingTail(ss);
      Regroup(first, EncodeStats(ss[1..]), rest);
      PrefixSplit(first, EncodeStats(ss[1..]) + rest, b);
      var k', p' := DrainPrefix(ss[1..], rest, b');
      DrainOne(ss[0], b');
      k, p := k' + 1, p';
      TakeOneMore(ss, k');
      Regroup(first, EncodeStats(ss[1..][..k']), p');
      Regroup(first, EncodeStats(ss[1..][..k']), EncodeStats(ss[1..][k'..]));
    }
  }

  lemma PrefixSplit(first: seq<Byte>, more: seq<Byte>, b: seq<Byte>)
    requires b <= first + more && |b| >= |first|
    ensures b == first + b[|first|..] && b[|first|..] <= more
  {
    assert b == (first + more)[..|b|];
  }

  lemma TakeOneMore(ss: seq<Stat>, k: nat)
    requires ss != [] && k < |ss|
    ensures ss[..k + 1] == [ss[0]] + ss[1..][..k] && ss[k + 1..] == ss[1..][k..]
    ensures EncodeStats(ss[..k + 1]) == EncodeStat(ss[0]) + EncodeStats(ss[1..][..k])
  {
    hide EncodeStat;
    assert ss[..k + 1][1..] == ss[1..][..k];
  }

  /** However the encoding of a list of stats with a stuck rest is cut into chunks, draining whole stats as they
      complete yields exactly the list, and the rest stays pending. */
  lemma {:induction false} ChunkedStats(ss: seq<Stat>, rest: seq<Byte>, pending: seq<Byte>, chunks: seq<seq<Byte>>)
    requires Fitting(ss) && Stuck(rest) && pending + Joined(chunks) == EncodeStats(ss) + rest
    requires Drain(pending) == Drained([], pending)
    ensures DrainChunks(pending, chunks) == Drained(ss, rest)
    decreases chunks
  {
    hide Drain, EncodeStat, Stuck;
    if chunks == [] {
      assert pending + [] == pending;
      AllPending(ss, rest, pending);
    } else {
      var b, more := pending + chunks[0], Joined(chunks[1..]);
      Regroup(pending, chunks[0], more);
      assert b <= EncodeStats(ss) + rest;
      var k, p := DrainPrefix(ss, rest, b);
      var done, left := EncodeStats(ss[..k]), EncodeStats(ss[k..]);
      Regroup(done, p, more);
      Regroup(done, left, rest);
      CutFront(done, p + more, left + rest);
      DrainAgain(b);
      ChunkedStats(ss[k..], rest, p, chunks[1..]);
      assert ss[..k] + ss[k..] == ss;
    }
  }

  /** What stays pending after a drain stays pending. */
  lemma {:induction false} DrainAgain(b: seq<Byte>)
    requires Drain(b).Drained?
    ensures Drain(Drain(b).pending) == Drained([], Drain(b).pending)
    decreases |b|
  {
    if b != [] && ParseStat(b).Ok? {
      ParseStatConsumes(b);
      hide ParseStat;
      DrainAgain(ParseStat(b).rest);
    }
  }

  lemma AllPending(ss: seq<Stat>, rest: seq<Byte>, pending: seq<Byte>)
    requires Fitting(ss) && pending == EncodeStats(ss) + rest && Drain(pending) == Drained([], pending)
    ensures ss == [] && pending == rest
  {
    if ss != [] {
      hide Drain, ParseStat, EncodeStat;
      Regroup(EncodeStat(ss[0]), EncodeStats(ss[1..]), rest);
      DrainOne(ss[0], EncodeStats(ss[1..]) + rest);
    } else {
      assert [] + rest == rest;
    }
  }

  lemma CutFront(a: seq<Byte>, b: seq<Byte>, c: seq<Byte>)
    requires a + b == a + c
    ensures b == c
  {
    assert b == (a + b)[|a|..] && c == (a + c)[|a|..];
  }

  // ---------------------------------------------------------------- stats that do not fit

  /** An oversized stat ends the draining: neither it nor anything after it ever comes out. */
  lemma OversizedIsStuck(s: Stat, more: seq<Byte>)
    requires StatIsWired(s) && !StatFits(s)
    ensures Stuck(EncodeStat(s) + more)
  {
    var rest := EncodeStat(s) + more;
    forall b | b <= rest ensures Drain(b) == Drained([], b) {
      OversizedIsShort(s, more, |b|);
      assert rest[..|b|] == b;
      hide ParseStat, EncodeStat;
    }
  }

  predicate AllWired(ss: seq<Stat>) {
    forall i :: 0 <= i < |ss| ==> StatIsWired(ss[i])
  }

  /** How many stats come before the first that does not fit. */
  function FitsUpTo(ss: seq<Stat>): (n: nat)
    ensures n <= |ss| && (forall i :: 0 <= i < n ==> StatFits(ss[i])) && (n < |ss| ==> !StatFits(ss[n]))
  {
    if ss == [] || !StatFits(ss[0]) then 0 else 1 + FitsUpTo(ss[1..])
  }

  lemma {:induction false} EncodeStatsConcat(a: seq<Stat>, b: seq<Stat>)
    ensures EncodeStats(a + b) == EncodeStats(a) + EncodeStats(b)
  {
    hide EncodeStat;
    if a == [] {
      assert a + b == b;
    } else {
      EncodeStatsConcat(a[1..], b);
      assert (a + b)[0] == a[0] && (a + b)[1..] == a[1..] + b;
      Regroup(EncodeStat(a[0]), EncodeStats(a[1..]), EncodeStats(b));
    }
  }

  /** Exactly what comes out of encoded stats, however they are cut: those before the first that does not fit. */
  lemma DrainsUpTo(ss: seq<Stat>, chunks: seq<seq<Byte>>)
    requires AllWired(ss) && Joined(chunks) == EncodeStats(ss)
    ensures var n := FitsUpTo(ss); DrainChunks([], chunks) == Drained(ss[..n], EncodeStats(ss[n..]))
  {
    hide Drain, DrainChunks, EncodeStat, Stuck, AllWired, Fitting;
    var n := FitsUpTo(ss);
    var fit, left := ss[..n], ss[n..];
    StuckFrom(ss);
    NothingDrains();
    EncodeStatsConcat(fit, left);
    assert fit + left == ss;
    assert [] + Joined(chunks) == Joined(chunks);
    ChunkedStats(fit, EncodeStats(left), [], chunks);
  }

  lemma NothingDrains()
    ensures Drain([]) == Drained([], [])
  {
  }

  lemma StuckFrom(ss: seq<Stat>)
    requires AllWired(ss)
    ensures var n := FitsUpTo(ss); Fitting(ss[..n]) && Stuck(EncodeStats(ss[n..]))
  {
    hide Drain, EncodeStat, Stuck, StatFits;
    var n := FitsUpTo(ss);
    if n == |ss| {
      NothingIsStuck();
    } else {
      var left := ss[n..];
      assert left[0] == ss[n];
      OversizedIsStuck(left[0], EncodeStats(left[1..]));
    }
  }

  /** So the list itself comes out, with nothing pending, exactly when all its stats fit. */
  lemma DrainsAll(ss: seq<Stat>, chunks: seq<seq<Byte>>)
    requires AllWired(ss) && Joined(chunks) == EncodeStats(ss)
    ensures DrainChunks([], chunks) == Drained(ss, []) <==> AllFit(ss)
    ensures DrainChunks([], chunks).Drained? && DrainChunks([], chunks).pending == [] ==>
              DrainChunks([], chunks).stats == ss
  {
    DrainsUpTo(ss, chunks);
    hide DrainChunks, EncodeStat;
    var n := FitsUpTo(ss);
    if n < |ss| {
      assert EncodeStats(ss[n..]) != [] by { SomethingIsSent(ss[n..]); }
    } else {
      assert ss[..n] == ss;
    }
  }

  lemma SomethingIsSent(ss: seq<Stat>)
    requires ss != []
    ensures EncodeStats(ss) != []
  {
    assert |EncodeStat(ss[0])| >= 2;
  }

  predicate AllFit(ss: seq<Stat>) {
    forall i :: 0 <= i < |ss| ==> StatFits(ss[i])
  }

  /** Whatever is drained fits: no stat with longer strings ever comes out. */
  lemma {:induction false} DrainedStatsFit(pending: seq<Byte>, chunks: seq<seq<Byte>>)
    ensures DrainChunks(pending, chunks).Drained? ==> AllFit(DrainChunks(pending, chunks).stats)
    decreases chunks
  {
    if chunks != [] {
      DrainFits(pending + chunks[0]);
      hide Drain, StatFits;
      var d := Drain(pending + chunks[0]);
      if d.Drained? {
        DrainedStatsFit(d.pending, chunks[1..]);
        var more := DrainChunks(d.pending, chunks[1..]);
        if more.Drained? { AllFitConcat(d.stats, more.stats); }
        hide AllFit;
      }
    }
  }

  lemma AllFitConcat(a: seq<Stat>, b: seq<Stat>)
    requires AllFit(a) && AllFit(b)
    ensures AllFit(a + b)
  {
  }

  lemma {:induction false} DrainFits(b: seq<Byte>)
    ensures Drain(b).Drained? ==> AllFit(Drain(b).stats)
    decreases |b|
  {
    if b != [] && ParseStat(b).Ok? {
      ParseStatConsumes(b);
      DecodedStatFits(b);
      hide ParseStat, StatFits;
      DrainFits(ParseStat(b).rest);
    }
  }
}
