/** Whole parses compared: with different token capacities, in count mode, and with the two
    compile-time variants of bracket closing. */
module JsmnRuns {
  import opened JsmnModel

  lemma {:induction false} RunSane(js: string, st: St, cap: nat, links: bool)
    requires Sane(st)
    ensures Sane(Run(js, st, cap, links).st)
    ensures |st.toks| <= |Run(js, st, cap, links).st.toks| && st.pos <= Run(js, st, cap, links).st.pos
    decreases |js| - st.pos
  {
    if More(js, st.pos) {
      StepMoves(js, st, cap, links);
      var t := Step(js, st, cap, links);
      if t.On? {
        RunSane(js, t.st, cap, links);
      }
    }
  }

  // ---- Resuming with more tokens ----

  lemma {:induction false} StepGrows(js: string, st: St, c1: nat, c2: nat, links: bool)
    requires Sane(st) && More(js, st.pos) && c1 <= c2
    ensures Step(js, st, c1, links) != Halt(NoMem) ==> Step(js, st, c2, links) == Step(js, st, c1, links)
  {
  }

  /** A parse that ran out of tokens and is continued with a larger array ends as if the larger
      array had been there from the start; one that did not run out is not affected by more room. */
  lemma {:induction false} Resume(js: string, st: St, c1: nat, c2: nat, links: bool)
    requires Sane(st) && c1 <= c2
    ensures Sane(Run(js, st, c1, links).st)
    ensures var o := Run(js, st, c1, links);
            Run(js, st, c2, links) == if o.code == NoMem then Run(js, o.st, c2, links) else o
    decreases |js| - st.pos
  {
    RunSane(js, st, c1, links);
    if More(js, st.pos) {
      StepMoves(js, st, c1, links);
      StepGrows(js, st, c1, c2, links);
      var t := Step(js, st, c1, links);
      if t.On? {
        Resume(js, t.st, c1, c2, links);
      }
    }
  }

  predicate Rising(caps: seq<nat>) {
    forall i, j :: 0 <= i < j < |caps| ==> caps[i] <= caps[j]
  }

  /** A caller that grows its array each time the parser reports NOMEM. */
  function Retry(js: string, st: St, caps: seq<nat>, links: bool): Outcome
    requires Sane(st) && caps != []
    decreases |caps|
  {
    var o := Run(js, st, caps[0], links);
    RunSane(js, st, caps[0], links);
    if o.code == NoMem && |caps| > 1 then Retry(js, o.st, caps[1..], links) else o
  }

  /** Any number of retries leaves the tokens and the parser state of one parse with the last array. */
  lemma {:induction false} RetryIsOneParse(js: string, st: St, caps: seq<nat>, links: bool)
    requires Sane(st) && caps != [] && Rising(caps)
    ensures Retry(js, st, caps, links) == Run(js, st, caps[|caps| - 1], links)
    decreases |caps|
  {
    if |caps| > 1 {
      Resume(js, st, caps[0], caps[|caps| - 1], links);
      var o := Run(js, st, caps[0], links);
      if o.code == NoMem {
        RetryIsOneParse(js, o.st, caps[1..], links);
      }
    }
  }

  // ---- How many tokens are enough ----

  lemma {:induction false} CountStepAgrees(js: string, st: St, cap: nat, links: bool)
    requires Sane(st) && More(js, st.pos) && Step(js, st, cap, links).On?
    ensures var st' := Step(js, st, cap, links).st;
            && CountStep(js, st.pos) == Found(st'.pos)
            && |st'.toks| == |st.toks| + if IsCloser(js[st.pos]) || IsBlank(js[st.pos]) then 0 else 1
  {
  }

  /** A count-only pass over a text the parser accepts counts exactly the tokens it stores. */
  lemma {:induction false} CountAgrees(js: string, st: St, cap: nat, links: bool, n: nat)
    requires Sane(st) && n == |st.toks|
    requires Run(js, st, cap, links).code == Fine
    ensures CountRun(js, st.pos, n) == Counted(|Run(js, st, cap, links).st.toks|)
    decreases |js| - st.pos
  {
    if More(js, st.pos) {
      StepMoves(js, st, cap, links);
      CountStepAgrees(js, st, cap, links);
      var t := Step(js, st, cap, links).st;
      CountAgrees(js, t, cap, links, |t.toks|);
    }
  }

  lemma {:induction false} CountNeverFalls(js: string, p: nat, n: nat)
    ensures CountRun(js, p, n).Counted? ==> CountRun(js, p, n).n >= n
    decreases |js| - p
  {
    if More(js, p) && CountStep(js, p).Found? {
      CountStepMoves(js, p);
      CountNeverFalls(js, CountStep(js, p).end, if IsCloser(js[p]) || IsBlank(js[p]) then n else n + 1);
    }
  }

  lemma {:induction false} StepOutOfTokens(js: string, st: St, cap: nat, links: bool)
    requires Sane(st) && More(js, st.pos) && Step(js, st, cap, links) == Halt(NoMem)
    ensures |st.toks| >= cap && CountStep(js, st.pos).Found? && !IsCloser(js[st.pos]) && !IsBlank(js[st.pos])
  {
  }

  /** An array as large as a count-only pass asks for never runs out. */
  lemma {:induction false} CountIsEnough(js: string, st: St, cap: nat, links: bool, n: nat)
    requires Sane(st) && n == |st.toks|
    requires CountRun(js, st.pos, n).Counted? && CountRun(js, st.pos, n).n <= cap
    ensures Run(js, st, cap, links).code != NoMem
    decreases |js| - st.pos
  {
    if More(js, st.pos) {
      StepMoves(js, st, cap, links);
      match Step(js, st, cap, links)
      case On(t) =>
        CountStepAgrees(js, st, cap, links);
        CountIsEnough(js, t, cap, links, |t.toks|);
      case Halt(code) =>
        if code == NoMem {
          StepOutOfTokens(js, st, cap, links);
          CountNeverFalls(js, CountStep(js, st.pos).end, n + 1);
        }
    }
  }

  /** A parse fails for want of tokens exactly when a parse with room to spare stores more than fit. */
  lemma {:induction false} NoMemExactly(js: string, st: St, cap: nat, room: nat, links: bool)
    requires Sane(st) && |st.toks| <= cap && Run(js, st, room, links).code != NoMem
    ensures Run(js, st, cap, links).code == NoMem <==> |Run(js, st, room, links).st.toks| > cap
    ensures |Run(js, st, room, links).st.toks| <= cap ==> Run(js, st, cap, links) == Run(js, st, room, links)
    decreases |js| - st.pos
  {
    if More(js, st.pos) {
      StepMoves(js, st, cap, links);
      StepMoves(js, st, room, links);
      match Step(js, st, room, links)
      case On(t) =>
        StepWithin(js, st, cap, room, links);
        RunSane(js, t, room, links);
        if |t.toks| <= cap {
          NoMemExactly(js, t, cap, room, links);
        }
      case Halt(code) =>
        HaltWithin(js, st, cap, room, links);
    }
  }

  lemma {:induction false} StepWithin(js: string, st: St, cap: nat, room: nat, links: bool)
    requires Sane(st) && More(js, st.pos) && |st.toks| <= cap && Step(js, st, room, links).On?
    ensures Step(js, st, cap, links)
            == if |Step(js, st, room, links).st.toks| <= cap then Step(js, st, room, links) else Halt(NoMem)
  {
  }

  lemma {:induction false} HaltWithin(js: string, st: St, cap: nat, room: nat, links: bool)
    requires Sane(st) && More(js, st.pos) && |st.toks| <= cap
    requires Step(js, st, room, links).Halt? && Step(js, st, room, links) != Halt(NoMem)
    ensures Step(js, st, cap, links) == Step(js, st, room, links)
  {
  }

  // ---- Parent links ----

  function Strip(toks: seq<Tok>): (r: seq<Tok>)
    ensures |r| == |toks|
    ensures forall i :: 0 <= i < |toks| ==> r[i] == toks[i].(parent := -1)
  {
    seq(|toks|, i requires 0 <= i < |toks| => toks[i].(parent := -1))
  }

  predicate ClosedBetween(toks: seq<Tok>, p: int, j: nat)
    requires -1 <= p && j <= |toks|
  {
    forall k :: p < k < j ==> !IsOpen(toks[k])
  }

  /** Between a token and its parent every token is closed, and an open token's parent is open. */
  ghost predicate LinkedAt(toks: seq<Tok>, j: nat)
    requires j < |toks|
  {
    var p := toks[j].parent;
    && -1 <= p < j && ClosedBetween(toks, p, j)
    && (IsOpen(toks[j]) && p >= 0 ==> IsOpen(toks[p]))
  }

  ghost predicate Linked(toks: seq<Tok>) {
    ParentsBelow(toks) && forall j :: 0 <= j < |toks| ==> LinkedAt(toks, j)
  }

  /** The innermost open token is on the parent chain of every later token. */
  lemma {:induction false} ClimbFindsLastOpen(toks: seq<Tok>, i: nat)
    requires Linked(toks) && i < |toks|
    ensures Climb(toks, i) <= i && LastOpen(toks[..i + 1]) == Climb(toks, i)
    decreases i
  {
    var p := toks[i].parent;
    if !IsOpen(toks[i]) && p >= 0 {
      ClimbFindsLastOpen(toks, p);
      var r := Climb(toks, p);
      assert LinkedAt(toks, i);
      assert forall j :: r < j <= p ==> toks[..p + 1][j] == toks[j];
      LastOpenIs(toks[..i + 1], r);
    } else if IsOpen(toks[i]) {
      LastOpenIs(toks[..i + 1], i);
    } else {
      LastOpenIs(toks[..i + 1], -1);
    }
  }

  /** The same parse in the two builds. */
  ghost predicate Same(a: St, b: St) {
    && a.pos == b.pos && a.super == b.super && a.toks == Strip(b.toks)
    && Linked(b.toks) && b.super == LastOpen(b.toks)
  }

  lemma {:induction false} StripOpen(toks: seq<Tok>)
    ensures LastOpen(Strip(toks)) == LastOpen(toks)
  {
    LastOpenIs(Strip(toks), LastOpen(toks));
  }

  lemma {:induction false} BumpSame(toks: seq<Tok>, super: int)
    requires -1 <= super < |toks|
    ensures Bump(Strip(toks), super) == Strip(Bump(toks, super))
    ensures forall j :: 0 <= j < |toks| ==> IsOpen(Bump(toks, super)[j]) == IsOpen(toks[j])
                                            && Bump(toks, super)[j].parent == toks[j].parent
  {
  }

  /** Closing a token, or changing nothing that matters, keeps the links in order. */
  lemma {:induction false} LinkedKept(toks: seq<Tok>, us: seq<Tok>, i: int)
    requires Linked(toks) && |us| == |toks| && -1 <= i && ClosedBetween(toks, i, |toks|)
    requires forall j :: 0 <= j < |toks| ==> us[j].parent == toks[j].parent
    requires forall j :: 0 <= j < |toks| && j != i ==> IsOpen(us[j]) == IsOpen(toks[j])
    requires 0 <= i < |toks| ==> !IsOpen(us[i])
    ensures Linked(us)
  {
    forall j | 0 <= j < |us|
      ensures LinkedAt(us, j)
    {
      assert LinkedAt(toks, j);
    }
  }

  lemma {:induction false} LinkedBump(toks: seq<Tok>, super: int)
    requires Linked(toks) && -1 <= super < |toks|
    ensures Linked(Bump(toks, super)) && LastOpen(Bump(toks, super)) == LastOpen(toks)
  {
    BumpSame(toks, super);
    LinkedKept(toks, Bump(toks, super), |toks|);
    LastOpenIs(Bump(toks, super), LastOpen(toks));
  }

  lemma {:induction false} LinkedMore(toks: seq<Tok>, t: Tok)
    requires Linked(toks) && t.parent == LastOpen(toks)
    ensures Linked(toks + [t])
    ensures LastOpen(toks + [t]) == if IsOpen(t) then |toks| else LastOpen(toks)
  {
    var ts := toks + [t];
    LastOpenIs(ts, if IsOpen(t) then |toks| else LastOpen(toks));
    forall j | 0 <= j < |ts|
      ensures LinkedAt(ts, j)
    {
      assert j < |toks| ==> LinkedAt(toks, j);
    }
  }

  lemma {:induction false} StripMore(toks: seq<Tok>, t: Tok)
    ensures Strip(toks + [t]) == Strip(toks) + [t.(parent := -1)]
  {
  }

  lemma {:induction false} AddSame(a: St, b: St, kind: Kind, start: nat, end: int, pos: nat)
    requires Same(a, b) && Sane(a) && Sane(b)
    ensures var a', b' := AddToken(a, kind, start, end, pos, false), AddToken(b, kind, start, end, pos, true);
            && a'.toks == Strip(b'.toks) && Linked(b'.toks) && a'.super == b'.super == a.super
            && LastOpen(b'.toks) == if end == -1 then |b.toks| else b.super
  {
    var ts, t := Bump(b.toks, b.super), Tok(kind, start, end, 0, b.super);
    BumpSame(b.toks, b.super);
    LinkedBump(b.toks, b.super);
    LinkedMore(ts, t);
    StripMore(ts, t);
  }

  lemma {:induction false} CloseSame(a: St, b: St, i: nat)
    requires Same(a, b) && Sane(a) && Sane(b) && i == b.super
    ensures LastOpen(a.toks[..i]) == b.toks[i].parent
    ensures Same(CloseAt(a, i, LastOpen(a.toks[..i])), CloseAt(b, i, b.toks[i].parent))
  {
    var p, ts := b.toks[i].parent, CloseAt(b, i, b.toks[i].parent).toks;
    assert LinkedAt(b.toks, i);
    LastOpenIs(a.toks[..i], p);
    LastOpenIs(ts, p);
    LinkedKept(b.toks, ts, i);
    StripClose(b.toks, i, a.pos + 1);
  }

  lemma {:induction false} StripClose(toks: seq<Tok>, i: nat, end: int)
    requires i < |toks|
    ensures Strip(toks[i := toks[i].(end := end)]) == Strip(toks)[i := Strip(toks)[i].(end := end)]
  {
  }

  /** An unmatched closing bracket after some token, which only the default build refuses. */
  predicate Stray(js: string, st: St) {
    More(js, st.pos) && IsCloser(js[st.pos]) && st.toks != [] && LastOpen(st.toks) == -1
  }

  lemma {:induction false} CloseStepsSame(c: char, a: St, b: St)
    requires Same(a, b) && Sane(a) && Sane(b) && !(b.toks != [] && LastOpen(a.toks) == -1)
    ensures AlikeTurns(CloseStep(c, a, false), CloseStep(c, b, true))
  {
    StripOpen(b.toks);
    if b.toks != [] {
      ClimbFromLast(b.toks);
      CloseSame(a, b, b.super);
    }
  }

  lemma {:induction false} ClimbFromLast(toks: seq<Tok>)
    requires Linked(toks) && toks != []
    ensures Climb(toks, |toks| - 1) == LastOpen(toks)
  {
    var i := |toks| - 1;
    ClimbFindsLastOpen(toks, i);
    assert toks[..i + 1] == toks;
  }

  ghost predicate AlikeTurns(s: Turn, t: Turn) {
    if s.On? then t.On? && Same(s.st, t.st) else s == t
  }

  ghost predicate AlikeOutcomes(o: Outcome, l: Outcome) {
    o.code == l.code && Same(o.st, l.st)
  }

  lemma {:induction false} OpenStepsSame(c: char, a: St, b: St, cap: nat)
    requires Same(a, b) && Sane(a) && Sane(b)
    ensures AlikeTurns(OpenStep(c, a, cap, false), OpenStep(c, b, cap, true))
  {
    var p1 := a.pos + 1;
    AddSame(a, b, KindOf(c), a.pos, -1, p1);
  }

  lemma {:induction false} StringStepsSame(js: string, a: St, b: St, cap: nat)
    requires Same(a, b) && Sane(a) && Sane(b) && a.pos < |js|
    ensures AlikeTurns(StringStep(js, a, cap, false), StringStep(js, b, cap, true))
  {
    var p := a.pos + 1;
    var e := StringEnd(js, p);
    if e.Found? {
      var q := e.end + 1;
      AddSame(a, b, String, p, e.end, q);
    }
  }

  lemma {:induction false} PrimitiveStepsSame(js: string, a: St, b: St, cap: nat)
    requires Same(a, b) && Sane(a) && Sane(b) && a.pos < |js|
    ensures AlikeTurns(PrimitiveStep(js, a, cap, false), PrimitiveStep(js, b, cap, true))
  {
    var e := PrimitiveEnd(js, a.pos);
    if e.Found? {
      AddSame(a, b, Primitive, a.pos, e.end, e.end);
    }
  }

  lemma {:induction false} StepsSame(js: string, a: St, b: St, cap: nat)
    requires Same(a, b) && Sane(a) && Sane(b) && More(js, a.pos) && !Stray(js, a)
    ensures AlikeTurns(Step(js, a, cap, false), Step(js, b, cap, true))
  {
    var c := js[a.pos];
    if IsOpener(c) {
      OpenStepsSame(c, a, b, cap);
    } else if IsCloser(c) {
      StripOpen(b.toks);
      CloseStepsSame(c, a, b);
    } else if c == QUOTE {
      StringStepsSame(js, a, b, cap);
    } else if !IsBlank(c) {
      PrimitiveStepsSame(js, a, b, cap);
    }
  }

  /** The build with parent links ends with the same code, types, spans, sizes and superior token
      as the default build, except on texts where the default build stops at a stray closing bracket
      after some token, and on those it never does. */
  lemma {:induction false} LinksAgree(js: string, a: St, b: St, cap: nat)
    requires Same(a, b) && Sane(a) && Sane(b)
    ensures AlikeOutcomes(Run(js, a, cap, false), Run(js, b, cap, true)) <==> !Stray(js, Run(js, a, cap, false).st)
    decreases |js| - a.pos
  {
    StripOpen(b.toks);
    if More(js, a.pos) {
      StepMoves(js, a, cap, false);
      StepMoves(js, b, cap, true);
      if Stray(js, a) {
        ClimbFromLast(b.toks);
        RunSane(js, b.(pos := b.pos + 1), cap, true);
      } else {
        StepsSame(js, a, b, cap);
        var s, t := Step(js, a, cap, false), Step(js, b, cap, true);
        if s.On? {
          LinksAgree(js, s.st, t.st, cap);
        }
      }
    }
  }

  /** In particular on every text the default build accepts. */
  lemma {:induction false} LinksAgreeOnAccepted(js: string, cap: nat)
    requires Run(js, FRESH, cap, false).code == Fine
    ensures Run(js, FRESH, cap, true).code == Fine
    ensures Same(Run(js, FRESH, cap, false).st, Run(js, FRESH, cap, true).st)
  {
    LinksAgree(js, FRESH, FRESH, cap);
    AcceptedEnds(js, FRESH, cap, false);
  }

  lemma {:induction false} AcceptedEnds(js: string, st: St, cap: nat, links: bool)
    requires Sane(st) && Run(js, st, cap, links).code == Fine
    ensures !More(js, Run(js, st, cap, links).st.pos) && LastOpen(Run(js, st, cap, links).st.toks) == -1
    decreases |js| - st.pos
  {
    if More(js, st.pos) {
      StepMoves(js, st, cap, links);
      AcceptedEnds(js, Step(js, st, cap, links).st, cap, links);
    }
  }

  lemma {:induction false} OnePrimitive(links: bool)
    ensures Step("1]", FRESH, 1, links) == On(St(1, [Tok(Primitive, 0, 1, 0, -1)], -1))
  {
    assert PrimitiveEnd("1]", 1) == Found(1) && PrimitiveEnd("1]", 0) == Found(1);
  }

  /** The difference is real: `1]` is refused by the default build and accepted with parent links. */
  lemma {:induction false} StrayBracket()
    ensures Run("1]", FRESH, 1, false).code == Inval
    ensures Run("1]", FRESH, 1, true).code == Fine
  {
    var js, t := "1]", Tok(Primitive, 0, 1, 0, -1);
    var st := St(1, [t], -1);
    OnePrimitive(false);
    OnePrimitive(true);
    LastOpenIs([t], -1);
    assert Step(js, st, 1, false) == Halt(Inval);
    assert Step(js, st, 1, true) == On(St(2, [t], -1));
    assert Run(js, St(2, [t], -1), 1, true).code == Fine;
  }
}
