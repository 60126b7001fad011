/** What the wire alone tells about fids and replies, over any interleaving
    (libs/planten_fs_ramfs/src/server.rs:175-195, 232-257, 305-357, 371-383, 442-454, 519, 536). */
module History {
  import opened Bytes
  import opened Paths
  import opened Stats
  import opened Tree
  import opened TreeLaws
  import opened Codec
  import opened Frames
  import opened Messages
  import opened Server
  import opened Effects
  import opened Systems

  /** A request and the reply it got, as seen on one connection. */
  datatype Event = Event(m: RawMessage, reply: Reply)

  /** What a step shows on connection `c`. */
  function Seen(h: Hasher, s: System, step: Step, c: nat): seq<Event> {
    if step.Receive? && step.c == c && c in s.conns then
      var e := Dispatch(h, step.now, step.m, s.conns[c], s.tree);
      if e.reply.Some? then [Event(step.m, e.reply.value)] else []
    else []
  }

  function Events(h: Hasher, s: System, steps: seq<Step>, c: nat): seq<Event>
    decreases steps
  {
    if steps == [] then []
    else
      Events(h, s, steps[..|steps| - 1], c)
      + Seen(h, Run(h, s, steps[..|steps| - 1]), steps[|steps| - 1], c)
  }

  // ---------------------------------------------------------------- open modes

  /** Whether a fid is bound, and if so whether and how it is open. */
  type Mode = Option<Option<Byte>>

  function ModeOf(fids: FidTable, f: U32): Mode {
    if f in fids then Some(fids[f].openMode) else None
  }

  /** What an exchange means for fid `f`, read off the wire. */
  datatype FidEffect = Untouched | Unbound | Bound | Opened(mode: Byte) | CopyOf(source: U32)

  function Meaning(m: RawMessage, replyType: Byte, f: U32): FidEffect {
    if m.msgType == TATTACH && replyType == RATTACH && ParseAttach(m.body).Ok? && ParseAttach(m.body).value == f then
      Bound
    else if m.msgType == TWALK && replyType == RWALK && ParseWalkHead(m.body).Ok?
            && ParseWalkHead(m.body).value.1 == f then
      Bound
    else if m.msgType == TOPEN && replyType == ROPEN && ParseOpen(m.body).Ok? && ParseOpen(m.body).value.0 == f then
      Opened(ParseOpen(m.body).value.1)
    else if m.msgType == TCLONE && replyType == RCLONE && ParseClone(m.body).Ok?
            && ParseClone(m.body).value.1 == f then
      CopyOf(ParseClone(m.body).value.0)
    else if (m.msgType == TCLUNK || m.msgType == TREMOVE) && ParseU32(m.body).Ok? && ParseU32(m.body).value == f then
      Unbound
    else Untouched
  }

  /** The mode of `f` according to the exchanges so far: that of its last successful Topen since it was last bound by
      an attach or a walk, followed through a clone back to the source at that moment; clunk and remove unbind. */
  function WireMode(events: seq<Event>, f: U32): Mode
    decreases events
  {
    if events == [] then None
    else
      var before, last := events[..|events| - 1], events[|events| - 1];
      match Meaning(last.m, last.reply.msgType, f)
      case Bound => Some(None)
      case Opened(mode) => Some(Some(mode))
      case CopyOf(source) => WireMode(before, source)
      case Unbound => None
      case Untouched => WireMode(before, f)
  }

  /** The exchange that touched `f` last decides; none means it was never bound. */
  lemma {:induction false} LastTouchDecides(events: seq<Event>, f: U32, k: int)
    requires -1 <= k < |events|
    requires k >= 0 ==> !Meaning(events[k].m, events[k].reply.msgType, f).Untouched?
    requires forall j :: k < j < |events| ==> Meaning(events[j].m, events[j].reply.msgType, f).Untouched?
    ensures WireMode(events, f) ==
            if k < 0 then None
            else match Meaning(events[k].m, events[k].reply.msgType, f)
              case Opened(mode) => Some(Some(mode))
              case Bound => Some(None)
              case CopyOf(source) => WireMode(events[..k], source)
              case _ => None
    decreases events
  {
    hide Meaning;
    if k < |events| - 1 {
      var before := events[..|events| - 1];
      LastTouchDecides(before, f, k);
      assert k >= 0 ==> before[..k] == events[..k];
    }
  }

  function NextMode(meaning: FidEffect, own: Mode, source: Mode): Mode {
    match meaning
    case Bound => Some(None)
    case Opened(mode) => Some(Some(mode))
    case CopyOf(_) => source
    case Unbound => None
    case Untouched => own
  }

  function SourceOfCopy(meaning: FidEffect, f: U32): U32 {
    if meaning.CopyOf? then meaning.source else f
  }

  /** An exchange changes the mode of `f` as it means. */
  ghost predicate ModeStep(m: RawMessage, e: Effect, fids: FidTable, f: U32) {
    e.reply.Some? ==>
      var meaning := Meaning(m, e.reply.value.msgType, f);
      ModeOf(e.fids, f) == NextMode(meaning, ModeOf(fids, f), ModeOf(fids, SourceOfCopy(meaning, f)))
  }

  lemma WalkModes(h: Hasher, m: RawMessage, fids: FidTable, tree: Inode, f: U32)
    requires m.msgType == TWALK
    ensures ModeStep(m, HandleWalk(h, m.body, fids, tree), fids, f)
  {
    hide ParseWalkHead, ParseClone, ParseOpen, ParseAttach, ParseU32, WalkLoop, EncodeQids, EncodeString, Find, QidOf;
  }

  lemma AttachModes(h: Hasher, m: RawMessage, fids: FidTable, tree: Inode, f: U32)
    requires m.msgType == TATTACH
    ensures ModeStep(m, HandleAttach(h, m.body, fids, tree), fids, f)
  {
    hide ParseWalkHead, ParseClone, ParseOpen, ParseAttach, ParseU32, EncodeQid, EncodeString, Find, QidOf;
  }

  lemma OpenModes(h: Hasher, m: RawMessage, fids: FidTable, tree: Inode, f: U32)
    requires m.msgType == TOPEN
    ensures ModeStep(m, HandleOpen(h, m.body, fids, tree), fids, f)
  {
    hide ParseWalkHead, ParseClone, ParseOpen, ParseAttach, ParseU32, EncodeQid, EncodeString, Find, QidOf, U32Le;
  }

  lemma CloneModes(m: RawMessage, fids: FidTable, tree: Inode, f: U32)
    requires m.msgType == TCLONE
    ensures ModeStep(m, HandleClone(m.body, fids, tree), fids, f)
  {
    hide ParseWalkHead, ParseClone, ParseOpen, ParseAttach, ParseU32, EncodeString;
  }

  lemma UnbindModes(m: RawMessage, fids: FidTable, tree: Inode, f: U32)
    requires m.msgType == TREMOVE || m.msgType == TCLUNK
    ensures ModeStep(m, if m.msgType == TREMOVE then HandleRemove(m.body, fids, tree)
                        else HandleClunk(m.body, fids, tree), fids, f)
  {
    hide ParseWalkHead, ParseClone, ParseOpen, ParseAttach, ParseU32, EncodeString, Remove, Components;
  }

  /** Every other request leaves the fids as they are. */
  lemma OtherModes(h: Hasher, now: U32, m: RawMessage, fids: FidTable, tree: Inode, f: U32)
    requires m.msgType !in {TWALK, TATTACH, TOPEN, TCLONE, TREMOVE, TCLUNK}
    ensures ModeStep(m, Dispatch(h, now, m, fids, tree), fids, f)
  {
    hide ParseVersion, ParseRead, ParseWrite, ParseCreate, ParseU32, ParseStat, EncodeString, EncodeQid, EncodeStat,
      U32Le, VersionBody, Chunk, SourceOf, Make, Write, Wstat, Lookup, ResolveStep, Components, StatOf, QidOf;
  }

  /** One request changes the mode of a fid as its exchange means. */
  lemma DispatchModes(h: Hasher, now: U32, m: RawMessage, fids: FidTable, tree: Inode, f: U32)
    ensures ModeStep(m, Dispatch(h, now, m, fids, tree), fids, f)
  {
    hide HandleWalk, HandleAttach, HandleOpen, HandleClone, HandleRemove, HandleClunk, ModeStep;
    if m.msgType == TWALK { WalkModes(h, m, fids, tree, f); }
    else if m.msgType == TATTACH { AttachModes(h, m, fids, tree, f); }
    else if m.msgType == TOPEN { OpenModes(h, m, fids, tree, f); }
    else if m.msgType == TCLONE { CloneModes(m, fids, tree, f); }
    else if m.msgType == TREMOVE || m.msgType == TCLUNK { UnbindModes(m, fids, tree, f); }
    else { OtherModes(h, now, m, fids, tree, f); }
  }

  /** In every run, on every connection, a fid is bound and open exactly as the wire history says. */
  lemma {:induction false} ModesFollowHistory(h: Hasher, s: System, steps: seq<Step>, c: nat, f: U32)
    requires c !in s.conns && c !in s.out
    requires c in Run(h, s, steps).conns
    ensures ModeOf(Run(h, s, steps).conns[c], f) == WireMode(Events(h, s, steps, c), f)
    decreases steps
  {
    if steps != [] {
      var init, step := steps[..|steps| - 1], steps[|steps| - 1];
      var before := Run(h, s, init);
      NeverSeen(h, s, init, c);
      if c in before.conns {
        forall g: U32 { ModesFollowHistory(h, s, init, c, g); }
        ModesStep(h, before, step, c, f, Events(h, s, init, c));
      } else {
        JustConnected(h, before, step, c);
      }
    }
  }

  /** A connection not yet made has shown nothing. */
  lemma {:induction false} NeverSeen(h: Hasher, s: System, steps: seq<Step>, c: nat)
    requires c !in s.conns && c !in s.out
    ensures c in Run(h, s, steps).conns ==> c in Run(h, s, steps).out
    ensures c !in Run(h, s, steps).out ==> Events(h, s, steps, c) == []
    decreases steps
  {
    if steps != [] {
      var init, step := steps[..|steps| - 1], steps[|steps| - 1];
      NeverSeen(h, s, init, c);
      NeverSeenStep(h, Run(h, s, init), step, c);
    }
  }

  lemma NeverSeenStep(h: Hasher, s: System, step: Step, c: nat)
    requires c in s.conns ==> c in s.out
    ensures c in Next(h, s, step).conns ==> c in Next(h, s, step).out
    ensures c in s.out ==> c in Next(h, s, step).out
    ensures c !in s.out ==> Seen(h, s, step, c) == []
  {
    hide Dispatch, BuildFrame;
  }

  lemma JustConnected(h: Hasher, s: System, step: Step, c: nat)
    requires c !in s.conns && c in Next(h, s, step).conns
    ensures step == Connect(c) && c !in s.out && Next(h, s, step).conns[c] == map[] && Seen(h, s, step, c) == []
  {
    hide Dispatch, BuildFrame;
  }

  lemma ModesStep(h: Hasher, s: System, step: Step, c: nat, f: U32, events: seq<Event>)
    requires c in s.conns && c in s.out && c in Next(h, s, step).conns
    requires forall g: U32 :: ModeOf(s.conns[c], g) == WireMode(events, g)
    ensures ModeOf(Next(h, s, step).conns[c], f) == WireMode(events + Seen(h, s, step, c), f)
  {
    var seen := Seen(h, s, step, c);
    if step.Receive? && step.c == c {
      var m := step.m;
      DispatchModes(h, step.now, m, s.conns[c], s.tree, f);
      hide Dispatch, BuildFrame, Meaning;
      var e := Dispatch(h, step.now, m, s.conns[c], s.tree);
      assert e.reply.Some?;
      var all := events + seen;
      assert all[..|all| - 1] == events && all[|all| - 1] == seen[0];
    } else {
      assert events + seen == events;
      OthersUntouchedHere(h, s, step, c);
    }
  }

  lemma OthersUntouchedHere(h: Hasher, s: System, step: Step, c: nat)
    requires c in s.conns && c in s.out && c in Next(h, s, step).conns && !(step.Receive? && step.c == c)
    ensures Next(h, s, step).conns[c] == s.conns[c]
  {
    hide Dispatch, BuildFrame;
  }

  // ---------------------------------------------------------------- reads and writes need the mode

  lemma ReadNeedsMode(h: Hasher, now: U32, m: RawMessage, fids: FidTable, tree: Inode)
    ensures var e := Dispatch(h, now, m, fids, tree);
            && (Succeeded(e, RREAD) ==>
                  && m.msgType == TREAD && ParseRead(m.body).Ok?
                  && var mode := ModeOf(fids, ParseRead(m.body).value.0);
                  && mode.Some? && mode.value.Some? && ModeAllowsRead(mode.value.value))
            && (Succeeded(e, RWRITE) ==>
                  && m.msgType == TWRITE && ParseWrite(m.body).Ok?
                  && var mode := ModeOf(fids, ParseWrite(m.body).value.0);
                  && mode.Some? && mode.value.Some? && ModeAllowsWrite(mode.value.value))
  {
    hide ParseVersion, ParseAttach, ParseOpen, ParseRead, ParseWrite, ParseClone, ParseCreate, ParseU32,
      ParseWalkHead, ParseStat, HandleWalk, EncodeString, EncodeQid, EncodeStat, U32Le, VersionBody, Chunk, SourceOf,
      Make, Write, Wstat, Remove, ResolveStep, Components, StatOf, QidOf;
    if m.msgType == TWALK { WalkReplies(h, m.body, fids, tree); }
  }

  lemma WalkReplies(h: Hasher, body: seq<Byte>, fids: FidTable, tree: Inode)
    ensures var e := HandleWalk(h, body, fids, tree);
            e.reply.Some? ==> e.reply.value.msgType == RWALK || e.reply.value.msgType == RERROR
  {
    hide ParseWalkHead, WalkLoop, EncodeQids, EncodeString, Find, QidOf;
  }

  /** The mode the wire history gives for the fid of a read or write request. */
  function HistoryAllows(events: seq<Event>, fid: U32, write: bool): bool {
    var mode := WireMode(events, fid);
    mode.Some? && mode.value.Some? &&
    if write then ModeAllowsWrite(mode.value.value) else ModeAllowsRead(mode.value.value)
  }

  /** In every run, an Rread or Rwrite is sent only when the wire history of that connection up to then gives its fid
      a mode that allows it. */
  lemma DataNeedsOpen(h: Hasher, s: System, steps: seq<Step>, k: nat)
    requires k < |steps| && steps[k].Receive?
    requires steps[k].c !in s.conns && steps[k].c !in s.out
    ensures var c, m := steps[k].c, steps[k].m;
            var seen, past := Seen(h, Run(h, s, steps[..k]), steps[k], c), Events(h, s, steps[..k], c);
            seen != [] ==>
              && (seen[0].reply.msgType == RREAD ==>
                    ParseRead(m.body).Ok? && HistoryAllows(past, ParseRead(m.body).value.0, false))
              && (seen[0].reply.msgType == RWRITE ==>
                    ParseWrite(m.body).Ok? && HistoryAllows(past, ParseWrite(m.body).value.0, true))
  {
    var c, m, before := steps[k].c, steps[k].m, Run(h, s, steps[..k]);
    if c in before.conns {
      ReadNeedsMode(h, steps[k].now, m, before.conns[c], before.tree);
      hide Dispatch, Run, Events, WireMode, ParseRead, ParseWrite;
      if ParseRead(m.body).Ok? { ModesFollowHistory(h, s, steps[..k], c, ParseRead(m.body).value.0); }
      if ParseWrite(m.body).Ok? { ModesFollowHistory(h, s, steps[..k], c, ParseWrite(m.body).value.0); }
    }
  }

  // ---------------------------------------------------------------- replies

  function ReplyFrame(e: Event): seq<Byte> {
    BuildFrame(e.reply.msgType, e.m.tag, e.reply.body)
  }

  function ReplyFrames(events: seq<Event>): seq<Byte>
    decreases events
  {
    if events == [] then [] else ReplyFrames(events[..|events| - 1]) + ReplyFrame(events[|events| - 1])
  }

  predicate Answers(e: Event) {
    e.reply.msgType == RERROR || (KnownRequest(e.m.msgType) && e.reply.msgType == e.m.msgType + 1)
  }

  /** All that is ever sent on a connection is one frame per exchange, in order, with the tag of its request and the
      type one above it or RERROR. */
  lemma {:induction false} OutputIsReplies(h: Hasher, s: System, steps: seq<Step>, c: nat)
    requires c !in s.conns && c !in s.out
    ensures Sent(Run(h, s, steps), c) == ReplyFrames(Events(h, s, steps, c))
    ensures forall i :: 0 <= i < |Events(h, s, steps, c)| ==> Answers(Events(h, s, steps, c)[i])
    decreases steps
  {
    if steps != [] {
      var init, step := steps[..|steps| - 1], steps[|steps| - 1];
      var before := Run(h, s, init);
      OutputIsReplies(h, s, init, c);
      NeverSeen(h, s, init, c);
      OutputStep(h, before, step, c);
      var past, seen := Events(h, s, init, c), Seen(h, before, step, c);
      ReplyFramesAppend(past, seen);
    }
  }

  lemma ReplyFramesAppend(past: seq<Event>, seen: seq<Event>)
    requires |seen| <= 1
    ensures ReplyFrames(past + seen) == ReplyFrames(past) + (if seen == [] then [] else ReplyFrame(seen[0]))
  {
    if seen == [] {
      assert past + seen == past;
    } else {
      assert (past + seen)[..|past + seen| - 1] == past;
    }
  }

  lemma OutputStep(h: Hasher, s: System, step: Step, c: nat)
    requires c in s.conns ==> c in s.out
    ensures var seen := Seen(h, s, step, c);
            && |seen| <= 1 && (forall i :: 0 <= i < |seen| ==> Answers(seen[i]))
            && Sent(Next(h, s, step), c) == Sent(s, c) + (if seen == [] then [] else ReplyFrame(seen[0]))
  {
    if step.Receive? && step.c == c && c in s.conns {
      ReplyMatchesRequest(h, step.now, step.m, s.conns[c], s.tree);
    }
    hide Dispatch, BuildFrame, KnownRequest;
  }

  /** The requests of a connection, in order. */
  function Requests(steps: seq<Step>, c: nat): seq<RawMessage>
    decreases steps
  {
    if steps == [] then []
    else
      var init, step := steps[..|steps| - 1], steps[|steps| - 1];
      Requests(init, c) + if step.Receive? && step.c == c then [step.m] else []
  }

  function RequestsOf(events: seq<Event>): seq<RawMessage> {
    seq(|events|, i requires 0 <= i < |events| => events[i].m)
  }

  /** A connection that is open, or opens with the first step, and then only sends decodable requests and does not hang
      up, stays open and gets exactly one reply to each request, whatever the other connections do. */
  lemma {:induction false} EveryRequestIsAnswered(h: Hasher, s: System, steps: seq<Step>, c: nat)
    requires c in s.conns || (steps != [] && steps[0] == Connect(c) && c !in s.out)
    requires forall i :: 0 <= i < |steps| && steps[i].c == c ==>
               steps[i].Connect? || (steps[i].Receive? && Decodable(steps[i].m))
    ensures c in Run(h, s, steps).conns
    ensures RequestsOf(Events(h, s, steps, c)) == Requests(steps, c)
    decreases steps
  {
    if steps != [] {
      var init, step := steps[..|steps| - 1], steps[|steps| - 1];
      var before := Run(h, s, init);
      if init == [] && c !in s.conns {
        FirstStep(h, s, c);
      } else {
        EveryRequestIsAnswered(h, s, init, c);
        AnsweredStep(h, before, step, c);
      }
      var past, seen := Events(h, s, init, c), Seen(h, before, step, c);
      assert RequestsOf(past + seen) == RequestsOf(past) + RequestsOf(seen);
    }
  }

  lemma FirstStep(h: Hasher, s: System, c: nat)
    requires c !in s.out
    ensures c in Next(h, s, Connect(c)).conns && Seen(h, s, Connect(c), c) == []
  {
  }

  lemma AnsweredStep(h: Hasher, s: System, step: Step, c: nat)
    requires c in s.conns
    requires step.c == c ==> step.Connect? || (step.Receive? && Decodable(step.m))
    ensures c in Next(h, s, step).conns
    ensures RequestsOf(Seen(h, s, step, c)) == if step.Receive? && step.c == c then [step.m] else []
  {
    if step.Receive? && step.c == c {
      ReplyMatchesRequest(h, step.now, step.m, s.conns[c], s.tree);
    }
    hide Dispatch, BuildFrame, Decodable;
  }

  // ---------------------------------------------------------------- the client's view of the output

  /** The longest payload whose Rread still fits a frame. */
  const MAX_COUNT: nat := MAX_BODY - 4

  /** A Tread whose reply carries more than a frame can: it asks for more, and there is more. */
  predicate LongRead(h: Hasher, m: RawMessage, fids: FidTable, tree: Inode) {
    && m.msgType == TREAD && ParseRead(m.body).Ok?
    && var (fid, offset, count) := ParseRead(m.body).value;
    && count > MAX_COUNT && fid in fids && fids[fid].openMode.Some? && ModeAllowsRead(fids[fid].openMode.value)
    && SourceOf(h, tree, fids[fid].path).Data?
    && |SourceOf(h, tree, fids[fid].path).bytes| > offset + MAX_COUNT
  }

  /** The step is not answered with more than a frame can carry. */
  predicate ShortStep(h: Hasher, s: System, step: Step, c: nat) {
    step.Receive? && step.c == c && c in s.conns ==> !LongRead(h, step.m, s.conns[c], s.tree)
  }

  predicate ShortReads(h: Hasher, s: System, steps: seq<Step>, c: nat)
    decreases steps
  {
    steps == [] || (ShortReads(h, s, steps[..|steps| - 1], c)
                    && ShortStep(h, Run(h, s, steps[..|steps| - 1]), steps[|steps| - 1], c))
  }

  predicate ModestRead(m: RawMessage) {
    m.msgType == TREAD && ParseRead(m.body).Ok? ==> ParseRead(m.body).value.2 <= MAX_COUNT
  }

  /** Asking for no more than a frame can carry is enough, whatever the data. */
  lemma {:induction false} ModestIsShort(h: Hasher, s: System, steps: seq<Step>, c: nat)
    requires forall i :: 0 <= i < |steps| && steps[i].Receive? && steps[i].c == c ==> ModestRead(steps[i].m)
    ensures ShortReads(h, s, steps, c)
    decreases steps
  {
    hide Run, SourceOf;
    if steps != [] {
      ModestIsShort(h, s, steps[..|steps| - 1], c);
    }
  }

  function ReplyMessage(e: Event): RawMessage
    requires |e.reply.body| <= MAX_BODY
  {
    Message(e.reply.msgType, e.m.tag, e.reply.body)
  }

  function ReplyMessages(events: seq<Event>): seq<RawMessage>
    requires forall i :: 0 <= i < |events| ==> |events[i].reply.body| <= MAX_BODY
    decreases events
  {
    if events == [] then [] else ReplyMessages(events[..|events| - 1]) + [ReplyMessage(events[|events| - 1])]
  }

  lemma {:induction false} FramesOfMessages(events: seq<Event>)
    requires forall i :: 0 <= i < |events| ==> |events[i].reply.body| <= MAX_BODY
    ensures var ms := ReplyMessages(events);
            && |ms| == |events| && ReplyFrames(events) == Concat(ms)
            && forall i :: 0 <= i < |ms| ==> WellFormed(ms[i]) && ms[i] == ReplyMessage(events[i])
    decreases events
  {
    if events != [] {
      hide BuildFrame;
      var before, last := events[..|events| - 1], events[|events| - 1];
      FramesOfMessages(before);
      ConcatAppend(ReplyMessages(before), [ReplyMessage(last)]);
      OneFrame(ReplyMessage(last));
    }
  }

  lemma OneFrame(m: RawMessage)
    ensures Concat([m]) == FrameOf(m)
  {
    assert [m][1..] == [];
    assert FrameOf(m) + [] == FrameOf(m);
  }

  /** The reply bodies fit their frames exactly when no read was long. */
  lemma {:induction false} RepliesFit(h: Hasher, s: System, steps: seq<Step>, c: nat)
    requires Inv(s)
    ensures AllFitFrames(Events(h, s, steps, c)) <==> ShortReads(h, s, steps, c)
    decreases steps
  {
    if steps != [] {
      hide Dispatch, LongRead, Run, AllFitFrames, Inv;
      var init, step := steps[..|steps| - 1], steps[|steps| - 1];
      var before := Run(h, s, init);
      RepliesFit(h, s, init, c);
      RunKeepsInv(h, s, init);
      SeenFits(h, before, step, c);
      FitsConcat(Events(h, s, init, c), Seen(h, before, step, c));
    } else {
      hide Dispatch, Run;
    }
  }

  predicate AllFitFrames(events: seq<Event>) {
    forall i :: 0 <= i < |events| ==> |events[i].reply.body| <= MAX_BODY
  }

  lemma FitIsBounded(events: seq<Event>)
    requires AllFitFrames(events)
    ensures forall i :: 0 <= i < |events| ==> |events[i].reply.body| <= MAX_BODY
  {
  }

  lemma FitsConcat(a: seq<Event>, b: seq<Event>)
    ensures AllFitFrames(a + b) <==> AllFitFrames(a) && AllFitFrames(b)
  {
    assert forall i :: 0 <= i < |a| ==> (a + b)[i] == a[i];
    assert forall i :: 0 <= i < |b| ==> (a + b)[|a| + i] == b[i];
  }

  lemma SeenFits(h: Hasher, s: System, step: Step, c: nat)
    requires Inv(s)
    ensures AllFitFrames(Seen(h, s, step, c)) <==> ShortStep(h, s, step, c)
  {
    hide Dispatch, LongRead, FidsOk, TreeOk;
    if step.Receive? && step.c == c && c in s.conns {
      ReplyFits(h, step.now, step.m, s.conns[c], s.tree);
      LongIsAnswered(h, step.now, step.m, s.conns[c], s.tree);
      var seen := Seen(h, s, step, c);
      assert seen != [] ==> seen[0].reply == Dispatch(h, step.now, step.m, s.conns[c], s.tree).reply.value;
    }
  }

  /** What the framing loop reads from the output is exactly one message per exchange, in order. */
  predicate ReadBack(events: seq<Event>, read: (seq<RawMessage>, IoError)) {
    && read.1 == UnexpectedEof && |read.0| == |events|
    && forall i :: 0 <= i < |events| ==>
         && read.0[i].tag == events[i].m.tag && read.0[i].msgType == events[i].reply.msgType
         && read.0[i].body == events[i].reply.body
  }

  /** The output of a connection is read back so exactly when no read was long, and every message answers its
      request. */
  lemma OutputIsRead(h: Hasher, s: System, steps: seq<Step>, c: nat)
    requires Inv(s) && c !in s.conns && c !in s.out
    ensures ReadBack(Events(h, s, steps, c), ReadAll(Sent(Run(h, s, steps), c))) <==> ShortReads(h, s, steps, c)
    ensures forall i :: 0 <= i < |Events(h, s, steps, c)| ==> Answers(Events(h, s, steps, c)[i])
  {
    hide Dispatch, Run, Events, ShortReads, ReadAll, Answers, ReplyFrames, AllFitFrames;
    var events, out := Events(h, s, steps, c), Sent(Run(h, s, steps), c);
    OutputIsReplies(h, s, steps, c);
    RepliesFit(h, s, steps, c);
    if AllFitFrames(events) {
      FitIsBounded(events);
      FramesOfMessages(events);
      StreamRoundTrip(ReplyMessages(events));
    }
    ReadBackFits(events, out);
  }

  lemma ReadBackFits(events: seq<Event>, out: seq<Byte>)
    ensures ReadBack(events, ReadAll(out)) ==> AllFitFrames(events)
  {
    StreamIsFrames(out);
    hide ReadAll;
  }

  // ---------------------------------------------------------------- sizes of reply bodies

  lemma {:induction false} QidsSize(qids: seq<Qid>)
    ensures |EncodeQids(qids)| == 13 * |qids|
  {
    if qids != [] {
      hide EncodeQid;
      QidsSize(qids[1..]);
    }
  }

  lemma StatSize(h: Hasher, path: Str, a: Attr)
    requires AttrOk(a)
    ensures |EncodeStat(StatOf(h, path, a))| <= MAX_BODY
  {
    StatFieldsSize(StatOf(h, path, a));
    hide StatFields, QidOf;
  }

  lemma {:induction false} WalkSize(h: Hasher, t: Inode, path: Str, qids: seq<Qid>, rest: seq<Byte>, n: nat)
    ensures var w := WalkLoop(h, t, path, qids, rest, n);
            && (w.Failed? ==> |w.text| < 0x2_0000)
            && (w.Walked? ==> |w.qids| == |qids| + n)
    decreases n
  {
    hide ParseString, WalkName;
    if n > 0 && ParseString(rest).Ok? {
      var name, rest' := ParseString(rest).value, ParseString(rest).rest;
      WalkNameSize(h, t, path, name);
      var w := WalkName(h, t, path, name);
      if w.Walked? { WalkSize(h, t, w.path, qids + w.qids, rest', n - 1); }
    }
  }

  lemma WalkNameSize(h: Hasher, t: Inode, path: Str, name: Str)
    requires |name| < 0x1_0000
    ensures var w := WalkName(h, t, path, name);
            !w.Broken? && (w.Failed? ==> |w.text| < 0x2_0000) && (w.Walked? ==> |w.qids| == 1)
  {
    hide ResolveStep, Find, QidOf;
  }

  lemma WalkFits(h: Hasher, body: seq<Byte>, fids: FidTable, tree: Inode)
    ensures var e := HandleWalk(h, body, fids, tree); e.reply.Some? ==> |e.reply.value.body| <= MAX_BODY
  {
    if ParseWalkHead(body).Ok? {
      var head, rest := ParseWalkHead(body).value, ParseWalkHead(body).rest;
      var w := WalkLoop(h, tree, WalkBase(fids, head.0), [], rest, head.2);
      WalkSize(h, tree, WalkBase(fids, head.0), [], rest, head.2);
      if w.Walked? { QidsSize(w.qids); }
    }
    hide ParseWalkHead, WalkLoop, EncodeQids, Find, QidOf, ToLe;
  }

  lemma StatReplyFits(h: Hasher, body: seq<Byte>, fids: FidTable, tree: Inode)
    requires TreeOk(tree)
    ensures var e := HandleStat(h, body, fids, tree); e.reply.Some? ==> |e.reply.value.body| <= MAX_BODY
  {
    hide ParseU32, StatOf, EncodeStat, Components, ToLe, AttrOk;
    if ParseU32(body).Ok? {
      var fid := ParseU32(body).value;
      if fid in fids && Find(tree, fids[fid].path).Some? {
        assert NodeOk(Components(fids[fid].path), At(tree, Components(fids[fid].path)).value);
        StatSize(h, fids[fid].path, Find(tree, fids[fid].path).value.attr);
      }
    }
  }

  lemma ReadReplyFits(h: Hasher, m: RawMessage, fids: FidTable, tree: Inode)
    requires m.msgType == TREAD
    ensures var e := HandleRead(h, m.body, fids, tree);
            e.reply.Some? ==> (|e.reply.value.body| <= MAX_BODY <==> !LongRead(h, m, fids, tree))
  {
    hide ParseRead, ToLe, SourceOf, Chunk;
    if ParseRead(m.body).Ok? {
      var (fid, offset, count) := ParseRead(m.body).value;
      if fid in fids && SourceOf(h, tree, fids[fid].path).Data? {
        ChunkSize(SourceOf(h, tree, fids[fid].path).bytes, offset, count);
      }
    }
    SourceTexts(h, tree);
  }

  lemma ChunkSize(data: seq<Byte>, offset: nat, count: nat)
    ensures |Chunk(data, offset, count)| > MAX_COUNT <==> count > MAX_COUNT && |data| > offset + MAX_COUNT
  {
  }

  lemma SourceTexts(h: Hasher, tree: Inode)
    ensures forall path :: SourceOf(h, tree, path).Unreadable? ==> |SourceOf(h, tree, path).text| < 100
  {
  }

  lemma LongIsAnswered(h: Hasher, now: U32, m: RawMessage, fids: FidTable, tree: Inode)
    ensures LongRead(h, m, fids, tree) ==> Dispatch(h, now, m, fids, tree).reply.Some?
  {
    hide ParseRead, SourceOf, EncodeString, U32Le, Chunk;
  }

  lemma OtherReplyFits(h: Hasher, now: U32, m: RawMessage, fids: FidTable, tree: Inode)
    requires m.msgType != TWALK && m.msgType != TSTAT && m.msgType != TREAD
    ensures var e := Dispatch(h, now, m, fids, tree); e.reply.Some? ==> |e.reply.value.body| <= MAX_BODY
  {
    hide HandleWalk, HandleStat, HandleRead, ParseVersion, ParseAttach, ParseOpen, ParseWrite, ParseClone, ParseCreate,
      ParseU32, ParseStat, ParseRead, ToLe, EncodeQid, Make, Write, Wstat, Remove, Lookup, ResolveStep,
      Components, StatOf, QidOf, SourceOf;
  }

  /** With names that fit the wire, every reply body fits a frame but that of a long read. */
  lemma ReplyFits(h: Hasher, now: U32, m: RawMessage, fids: FidTable, tree: Inode)
    requires TreeOk(tree)
    ensures var e := Dispatch(h, now, m, fids, tree);
            e.reply.Some? ==> (|e.reply.value.body| <= MAX_BODY <==> !LongRead(h, m, fids, tree))
  {
    if m.msgType == TWALK { WalkFits(h, m.body, fids, tree); }
    else if m.msgType == TSTAT { StatReplyFits(h, m.body, fids, tree); }
    else if m.msgType == TREAD { ReadReplyFits(h, m, fids, tree); }
    else { OtherReplyFits(h, now, m, fids, tree); }
    hide HandleVersion, HandleAttach, HandleWalk, HandleOpen, HandleRead, HandleWrite, HandleWstat, HandleFlush,
      HandleRemove, HandleClunk, HandleStat, HandleClone, HandleCreate, HandleAuth, EncodeString, TreeOk, ParseRead,
      SourceOf;
  }
}
