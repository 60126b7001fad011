/** Path strings and the component lists they stand for
    (libs/planten_fs_ramfs/src/server.rs:607-635 and the `split('/')` of every RamFs operation). */
module Paths {
  import opened Bytes
  import opened Utf8

  type Path = seq<Str>

  const SLASH: Byte := 0x2F
  const ROOT: Str := [SLASH]
  const DOT: Str := [0x2E]
  const DOTDOT: Str := [0x2E, 0x2E]

  // ---------------------------------------------------------------- splitting

  /** The index of the first slash, or the length when there is none. */
  function FirstSlash(s: Str): (i: nat)
    ensures i <= |s|
    ensures i < |s| ==> s[i] == SLASH
    ensures forall j :: 0 <= j < i ==> s[j] != SLASH
  {
    if s == [] || s[0] == SLASH then 0 else 1 + FirstSlash(s[1..])
  }

  /** `s.split('/')`: always at least one piece. */
  function SplitSlash(s: Str): (pieces: seq<Str>)
    ensures |pieces| > 0
    decreases |s|
  {
    var i := FirstSlash(s);
    if i == |s| then [s] else [s[..i]] + SplitSlash(s[i + 1..])
  }

  /** `.filter(|s| !s.is_empty())` */
  function NonEmpty(pieces: seq<Str>): seq<Str> {
    if pieces == [] then []
    else (if pieces[0] == [] then [] else [pieces[0]]) + NonEmpty(pieces[1..])
  }

  function Components(s: Str): Path {
    NonEmpty(SplitSlash(s))
  }

  /** What the absolute path of a component list looks like. */
  function Render(p: Path): Str {
    if p == [] then ROOT else Slashed(p)
  }

  function Slashed(p: Path): Str {
    if p == [] then [] else ROOT + p[0] + Slashed(p[1..])
  }

  predicate SlashFree(s: Str) { SLASH !in s }

  /** A component list some path string can name. */
  predicate Nameable(p: Path) {
    forall c :: c in p ==> c != [] && SlashFree(c)
  }

  /** An ordinary name: one that a walk follows to a child. */
  predicate Ordinary(name: Str) {
    name != [] && SlashFree(name) && name != DOT && name != DOTDOT
  }

  predicate Normal(p: Path) {
    forall c :: c in p ==> Ordinary(c)
  }

  lemma {:induction false} NonEmptyConcat(a: seq<Str>, b: seq<Str>)
    ensures NonEmpty(a + b) == NonEmpty(a) + NonEmpty(b)
  {
    if a == [] {
      assert a + b == b;
    } else {
      NonEmptyConcat(a[1..], b);
      assert (a + b)[1..] == a[1..] + b;
      Regroup(if a[0] == [] then [] else [a[0]], NonEmpty(a[1..]), NonEmpty(b));
    }
  }

  lemma FirstSlashWithin(a: Str, b: Str)
    ensures FirstSlash(a + ROOT + b) == FirstSlash(a)
  {
    var whole, i := a + ROOT + b, FirstSlash(a);
    assert whole[i] == SLASH;
    assert forall j :: 0 <= j < i ==> whole[j] == a[j];
  }

  lemma DropWithin(a: Str, b: Str, i: nat)
    requires i < |a|
    ensures (a + ROOT + b)[..i] == a[..i]
    ensures (a + ROOT + b)[i + 1..] == a[i + 1..] + ROOT + b
  {
  }

  lemma SplitOnce(s: Str, i: nat)
    requires i == FirstSlash(s)
    ensures i == |s| ==> SplitSlash(s) == [s]
    ensures i < |s| ==> SplitSlash(s) == [s[..i]] + SplitSlash(s[i + 1..])
  {
    hide FirstSlash;
  }

  lemma SeamSlices(a: Str, b: Str)
    ensures var whole := a + ROOT + b; |whole| > |a| && whole[..|a|] == a && whole[|a| + 1..] == b
  {
  }

  lemma {:induction false} SplitAtSlash(a: Str, b: Str)
    ensures SplitSlash(a + ROOT + b) == SplitSlash(a) + SplitSlash(b)
    decreases |a|
  {
    var whole, i := a + ROOT + b, FirstSlash(a);
    FirstSlashWithin(a, b);
    SplitOnce(a, i);
    SplitOnce(whole, i);
    hide FirstSlash, SplitSlash;
    if i == |a| {
      SeamSlices(a, b);
    } else {
      SplitAtSlash(a[i + 1..], b);
      DropWithin(a, b, i);
      Regroup([a[..i]], SplitSlash(a[i + 1..]), SplitSlash(b));
    }
  }

  /** A slash separates: the components around it are found independently. */
  lemma ComponentsAtSlash(a: Str, b: Str)
    ensures Components(a + ROOT + b) == Components(a) + Components(b)
  {
    SplitAtSlash(a, b);
    NonEmptyConcat(SplitSlash(a), SplitSlash(b));
  }

  lemma SplitNoSlash(s: Str)
    requires SlashFree(s)
    ensures SplitSlash(s) == [s]
  {
    assert FirstSlash(s) == |s|;
  }

  lemma ComponentsOfName(s: Str)
    requires SlashFree(s)
    ensures Components(s) == if s == [] then [] else [s]
  {
    SplitNoSlash(s);
    assert NonEmpty([]) == [];
    assert [s][1..] == [];
  }

  lemma ComponentsOfRoot()
    ensures Components(ROOT) == [] && Components([]) == []
  {
    ComponentsAtSlash([], []);
    assert [] + ROOT + [] == ROOT;
    ComponentsOfName([]);
  }

  lemma {:induction false} SplitIsSlashFree(s: Str)
    ensures forall c :: c in SplitSlash(s) ==> SlashFree(c)
    decreases |s|
  {
    var i := FirstSlash(s);
    if i < |s| {
      SplitIsSlashFree(s[i + 1..]);
    }
  }

  lemma {:induction false} NonEmptyMembers(pieces: seq<Str>)
    ensures forall c :: c in NonEmpty(pieces) <==> c in pieces && c != []
  {
    if pieces == [] {
    } else {
      NonEmptyMembers(pieces[1..]);
    }
  }

  lemma ComponentsAreNameable(s: Str)
    ensures Nameable(Components(s))
  {
    SplitIsSlashFree(s);
    NonEmptyMembers(SplitSlash(s));
  }

  lemma {:induction false} ComponentsOfSlashed(p: Path)
    requires Nameable(p)
    ensures Components(Slashed(p)) == p
  {
    ComponentsOfRoot();
    if p != [] {
      ComponentsOfSlashed(p[1..]);
      ComponentsOfName(p[0]);
      ComponentsBeforeSlashed(p[0], p[1..]);
      assert Slashed(p) == [] + ROOT + (p[0] + Slashed(p[1..]));
      ComponentsAtSlash([], p[0] + Slashed(p[1..]));
      assert [p[0]] + p[1..] == p;
    }
  }

  lemma SlashedHead(p: Path, tail: Str)
    requires p != [] && tail == p[0] + Slashed(p[1..])
    ensures Slashed(p) == [] + ROOT + tail
  {
  }

  lemma ComponentsBeforeSlashed(s: Str, p: Path)
    ensures Components(s + Slashed(p)) == Components(s) + Components(Slashed(p))
  {
    ComponentsOfRoot();
    if p == [] {
      assert s + Slashed(p) == s;
    } else {
      var tail := p[0] + Slashed(p[1..]);
      SlashedHead(p, tail);
      assert s + Slashed(p) == s + ROOT + tail by { assert Slashed(p) == [] + ROOT + tail; }
      ComponentsAtSlash(s, tail);
      ComponentsAtSlash([], tail);
      assert [] + Components(tail) == Components(tail);
    }
  }

  /** Rendering and splitting undo each other, and exactly the lists of non-empty slash-free names can be written. */
  lemma RenderRoundTrip(p: Path)
    ensures Nameable(p) ==> Components(Render(p)) == p
    ensures (exists s: Str :: Components(s) == p) <==> Nameable(p)
  {
    if Nameable(p) {
      ComponentsOfSlashed(p);
      ComponentsOfRoot();
      assert Components(Render(p)) == p;
    }
    forall s: Str | Components(s) == p ensures Nameable(p) {
      ComponentsAreNameable(s);
    }
  }

  lemma {:induction false} SlashedPush(p: Path, name: Str)
    ensures Slashed(p + [name]) == Slashed(p) + ROOT + name
  {
    if p == [] {
      assert Slashed([name]) == ROOT + name + [];
    } else {
      SlashedPush(p[1..], name);
      assert (p + [name])[1..] == p[1..] + [name];
    }
  }

  // ---------------------------------------------------------------- resolve_step

  /** `trim_end_matches('/')` */
  function TrimEnd(s: Str): (r: Str) {
    if s != [] && s[|s| - 1] == SLASH then TrimEnd(s[..|s| - 1]) else s
  }

  /** The last slash among the first `n` bytes. */
  function RFindFrom(s: Str, n: nat): (r: Option<nat>)
    requires n <= |s|
    ensures r.None? ==> forall j :: 0 <= j < n ==> s[j] != SLASH
    ensures r.Some? ==> r.value < n && s[r.value] == SLASH && forall j :: r.value < j < n ==> s[j] != SLASH
  {
    if n == 0 then None
    else if s[n - 1] == SLASH then Some(n - 1)
    else RFindFrom(s, n - 1)
  }

  /** `rfind('/')` */
  function RFind(s: Str): (r: Option<nat>)
    ensures r.None? ==> SlashFree(s)
    ensures r.Some? ==> r.value < |s| && s[r.value] == SLASH && SlashFree(s[r.value + 1..])
  {
    RFindFrom(s, |s|)
  }

  function ResolveStep(base: Str, component: Str): Option<Str> {
    if component == [] then None
    else if component == DOT then Some(base)
    else if component == ROOT then Some(ROOT)
    else if component == DOTDOT then
      if base == ROOT then Some(ROOT)
      else
        var trimmed := TrimEnd(base);
        match RFind(trimmed)
        case None => Some(ROOT)
        case Some(idx) => if idx == 0 then Some(ROOT) else Some(trimmed[..idx])
    else if base == ROOT then Some(ROOT + component)
    else Some(base + ROOT + component)
  }

  /** The same step on component lists. */
  function Pop(p: Path): Path {
    if p == [] then [] else p[..|p| - 1]
  }

  function StepComponents(p: Path, name: Str): Option<Path> {
    if name == [] then None
    else if name == DOT then Some(p)
    else if name == ROOT then Some([])
    else if name == DOTDOT then Some(Pop(p))
    else Some(p + Components(name))
  }

  lemma {:induction false} TrimEndComponents(s: Str)
    ensures Components(TrimEnd(s)) == Components(s)
    ensures TrimEnd(s) != [] ==> TrimEnd(s)[|TrimEnd(s)| - 1] != SLASH
  {
    if s != [] && s[|s| - 1] == SLASH {
      var t := s[..|s| - 1];
      TrimEndComponents(t);
      assert s == t + ROOT + [];
      ComponentsAtSlash(t, []);
      ComponentsOfRoot();
    }
  }

  /** Cutting a string before its last slash, when there is something behind it, drops the last component. */
  lemma CutLast(s: Str, idx: nat)
    requires idx < |s| && s[idx] == SLASH && SlashFree(s[idx + 1..]) && s[|s| - 1] != SLASH
    ensures Components(s[..idx]) == Pop(Components(s))
  {
    hide Components, SlashFree;
    var last := s[idx + 1..];
    assert last != [] && s == s[..idx] + ROOT + last;
    ComponentsAtSlash(s[..idx], last);
    ComponentsOfName(last);
    assert Components(s) == Components(s[..idx]) + [last];
  }

  lemma {:induction false} TrimSlashes(s: Str, k: nat)
    requires s == [] || s[|s| - 1] != SLASH
    ensures TrimEnd(s + seq(k, _ => SLASH)) == s
  {
    var whole := s + seq(k, _ => SLASH);
    if k == 0 {
      assert whole == s;
    } else {
      assert whole[..|whole| - 1] == s + seq(k - 1, _ => SLASH);
      TrimSlashes(s, k - 1);
    }
  }

  /** The string that ".." gives: the part before the last slash that has something else behind it, or "/" when there is
      nothing before it; and "/" when there is no such slash. */
  lemma StepUpExactly(front: Str, last: Str, k: nat)
    requires last != [] && SlashFree(last)
    ensures ResolveStep(front + ROOT + last + seq(k, _ => SLASH), DOTDOT) == Some(if front == [] then ROOT else front)
    ensures ResolveStep(last + seq(k, _ => SLASH), DOTDOT) == Some(ROOT)
    ensures ResolveStep(seq(k, _ => SLASH), DOTDOT) == Some(ROOT)
  {
    hide TrimEnd, RFind;
    var tail := seq(k, _ => SLASH);
    var s := front + ROOT + last;
    LastByte(front, last);
    LastSeparator(front, last);
    TrimSlashes(s, k);
    StepUpTrimmed(s + tail);
    assert s[..|front|] == front;
    TrimSlashes(last, k);
    assert (last + tail)[0] == last[0] && last[0] in last;
    StepUpTrimmed(last + tail);
    TrimSlashes([], k);
    assert [] + tail == tail;
    StepUpTrimmed(tail);
  }

  lemma LastByte(front: Str, last: Str)
    requires last != [] && SlashFree(last)
    ensures var s := front + ROOT + last; s[|s| - 1] == last[|last| - 1] && last[|last| - 1] != SLASH
  {
    assert last[|last| - 1] in last;
  }

  lemma StepUpTrimmed(base: Str)
    ensures ResolveStep(base, DOTDOT) ==
            if base == ROOT then Some(ROOT)
            else match RFind(TrimEnd(base))
              case None => Some(ROOT)
              case Some(idx) => if idx == 0 then Some(ROOT) else Some(TrimEnd(base)[..idx])
    ensures SlashFree(TrimEnd(base)) ==> RFind(TrimEnd(base)) == None
  {
    hide TrimEnd;
  }

  lemma StepUpRefines(base: Str)
    requires base != ROOT
    ensures ResolveStep(base, DOTDOT).Some? && Components(ResolveStep(base, DOTDOT).value) == Pop(Components(base))
  {
    var trimmed := TrimEnd(base);
    TrimEndComponents(base);
    ComponentsOfRoot();
    hide TrimEnd, RFind, Components;
    match RFind(trimmed) {
      case None => ComponentsOfName(trimmed);
      case Some(idx) =>
        CutLast(trimmed, idx);
        assert trimmed[..0] == [];
    }
  }

  /** Every step on path strings is the step on component lists, whatever the strings hold. */
  lemma ResolveStepRefines(base: Str, name: Str)
    ensures ResolveStep(base, name).Some? <==> StepComponents(Components(base), name).Some?
    ensures ResolveStep(base, name).Some? ==>
              Components(ResolveStep(base, name).value) == StepComponents(Components(base), name).value
  {
    ComponentsOfRoot();
    if name == [] || name == DOT || name == ROOT {
    } else if name == DOTDOT {
      if base != ROOT { StepUpRefines(base); }
    } else {
      hide Components, TrimEnd, RFind;
      ComponentsAtSlash([], name);
      assert [] + ROOT + name == ROOT + name;
      assert [] + Components(name) == Components(name);
      ComponentsAtSlash(base, name);
    }
  }

  /** On rendered normal paths a step is literally push, pop, stay or reset, and the result is rendered again. */
  lemma ResolveStepNormal(p: Path, name: Str)
    requires Normal(p)
    requires SlashFree(name) || name == ROOT
    ensures ResolveStep(Render(p), name) ==
            if name == [] then None
            else if name == DOT then Some(Render(p))
            else if name == ROOT then Some(Render([]))
            else if name == DOTDOT then Some(Render(Pop(p)))
            else Some(Render(p + [name]))
    ensures Ordinary(name) ==> Normal(p + [name])
    ensures Normal(Pop(p))
  {
    if name == DOTDOT {
      if p != [] {
        TrimIsIdle(p);
      }
    } else if Ordinary(name) {
      RenderNotRoot(p);
      SlashedPush(p, name);
      assert p == [] ==> Slashed(p + [name]) == ROOT + name;
    }
  }

  lemma RenderNotRoot(p: Path)
    requires Normal(p)
    ensures Render(p) == ROOT <==> p == []
  {
    if p != [] {
      assert p[0] in p;
      assert Render(p)[1] == p[0][0];
    }
  }

  /** On a normal non-root path `trim_end_matches` removes nothing and `rfind` finds the last separator. */
  lemma TrimIsIdle(p: Path)
    requires Normal(p) && p != []
    ensures TrimEnd(Render(p)) == Render(p)
    ensures RFind(Render(p)) == Some(|Slashed(Pop(p))|)
    ensures Render(p)[..|Slashed(Pop(p))|] == Slashed(Pop(p))
  {
    var front, last := Pop(p), p[|p| - 1];
    assert p == front + [last];
    SlashedPush(front, last);
    assert last in p;
    LastSeparator(Slashed(front), last);
    assert Slashed(p) == Slashed(front) + ROOT + last;
  }

  lemma LastSeparator(front: Str, last: Str)
    requires last != [] && SlashFree(last)
    ensures var s := front + ROOT + last;
            TrimEnd(s) == s && RFind(s) == Some(|front|) && s[..|front|] == front
  {
    var s, k := front + ROOT + last, |front|;
    assert last[|last| - 1] in last;
    assert s[|s| - 1] == last[|last| - 1];
    assert s[k] == SLASH;
    forall j | k < j < |s| ensures s[j] != SLASH {
      assert s[j] == last[j - k - 1] && last[j - k - 1] in last;
    }
  }

  // ---------------------------------------------------------------- UTF-8

  /** Splitting a valid string yields valid components, none longer than the string. */
  lemma {:induction false} SplitKeepsUtf8(s: Str)
    requires ValidUtf8(s)
    ensures forall c :: c in SplitSlash(s) ==> ValidUtf8(c) && |c| <= |s|
    decreases |s|
  {
    var i := FirstSlash(s);
    if i < |s| {
      CutAtAscii(s, i);
      SplitKeepsUtf8(s[i + 1..]);
    }
  }

  /** A component of a name that fits a 9P string is itself a name that does. */
  predicate WireName(c: Str) {
    ValidUtf8(c) && |c| < 0x1_0000
  }

  lemma ComponentsOfWireName(s: Str)
    requires WireName(s)
    ensures forall c :: c in Components(s) ==> WireName(c)
  {
    SplitKeepsUtf8(s);
    NonEmptyMembers(SplitSlash(s));
  }
}
