/** Which code a parse of a text ends with, said of the text: where a partial tree lies over what was
    read, and what the text holds behind it. */
module JsmnCodes {
  import opened Jsmn
  import opened JsmnModel
  import opened JsmnChars
  import opened JsmnTree
  import opened JsmnText

  /** The partial tree `p` lies over the text before `pos` and fits an array of `cap` tokens. */
  ghost predicate Reaches(js: string, cap: nat, p: Part, pos: nat) {
    Lies(js, p, 0, pos) && |Tokens(p)| <= cap
  }

  // ---- What comes next ----

  /** The text ends inside an open container or inside a string. */
  ghost predicate IsCut(js: string, p: Part, pos: nat) {
    || (p.Within? && IsEnd(js, pos))
    || (pos < |js| && js[pos] == '\"' && Unfinished(js, pos + 1))
  }

  /** A closing bracket that does not close the innermost container, a string with a misused backslash,
      or a character that no token holds. */
  ghost predicate IsWrong(js: string, p: Part, pos: nat) {
    || (pos < |js| && js[pos] == '}' && (p.Top? || InnerKind(p) != Object))
    || (pos < |js| && js[pos] == ']' && (p.Top? || InnerKind(p) != Array))
    || (pos < |js| && js[pos] == '\"' && Spoilt(js, pos + 1))
    || BadPrimitive(js, pos)
  }

  /** One more token, and none is left. */
  ghost predicate IsTooMany(js: string, cap: nat, p: Part, pos: nat) {
    && |Tokens(p)| == cap
    && (|| (pos < |js| && (js[pos] == '{' || js[pos] == '['))
        || (exists start, end :: start == pos + 1 && IsString(js, start, end))
        || (exists end :: IsPrimitive(js, pos, end)))
  }

  ghost predicate EndsCut(js: string, cap: nat) {
    exists p, pos :: Reaches(js, cap, p, pos) && IsCut(js, p, pos)
  }

  ghost predicate EndsWrong(js: string, cap: nat) {
    exists p, pos :: Reaches(js, cap, p, pos) && IsWrong(js, p, pos)
  }

  ghost predicate EndsFull(js: string, cap: nat) {
    exists p, pos :: Reaches(js, cap, p, pos) && IsTooMany(js, cap, p, pos)
  }

  // ---- A parse passes through every partial tree over its text ----

  /** `p` put into the innermost container of `o`. */
  function Nest(o: Part, p: Part): Part
    decreases p
  {
    match p
    case Top(vals) => PutAll(o, vals)
    case Within(before, kind, start, inner) => Nest(Open(PutAll(o, before), kind, start), inner)
  }

  lemma {:induction false} NestWithin(o: Part, p: Part)
    requires o.Within?
    ensures Nest(o, p) == o.(inner := Nest(o.inner, p))
    decreases p
  {
    match p
    case Top(vals) => PutAllWithin(o, vals);
    case Within(before, kind, start, inner) =>
      PutAllWithin(o, before);
      NestWithin(Open(PutAll(o, before), kind, start), inner);
  }

  lemma {:induction false} NestTop(p: Part)
    ensures Nest(Top([]), p) == p
    decreases p
  {
    match p
    case Top(vals) =>
      PutAllTop([], vals);
      assert [] + vals == vals;
    case Within(before, kind, start, inner) =>
      PutAllTop([], before);
      assert [] + before == before;
      NestWithin(Within(before, kind, start, Top([])), inner);
      NestTop(inner);
  }

  lemma {:induction false} WithinSize(p: Part)
    requires p.Within?
    ensures |Tokens(p)| == |List(p.before)| + 1 + |Tokens(p.inner)|
  {
  }

  lemma {:induction false} NestRoom(o: Part, p: Part, q: Part, cap: nat)
    requires p.Within? && q == PutAll(o, p.before) && |Tokens(o)| + |Tokens(p)| <= cap
    ensures |Tokens(o)| + |List(p.before)| <= cap && |Tokens(q)| < cap
    ensures |Tokens(Open(q, p.kind, p.start))| + |Tokens(p.inner)| <= cap
  {
    WithinSize(p);
    PutAllSize(o, p.before);
    OpenLists(q, p.kind, p.start);
  }

  /** The values before a container and its opening bracket. */
  lemma {:induction false} RunInto(js: string, o: Part, p: Part, lo: nat, next: nat, cap: nat) returns (q: Part)
    requires p.Within? && Opens(js, p.kind, p.start) && Covers(js, p.before, lo, p.start) && next == p.start + 1
    requires |Tokens(o)| + |Tokens(p)| <= cap
    ensures q == Open(PutAll(o, p.before), p.kind, p.start) && |Tokens(q)| + |Tokens(p.inner)| <= cap
    ensures Sane(Flat(lo, o)) && Sane(Flat(next, q))
    ensures Run(js, Flat(lo, o), cap, false) == Run(js, Flat(next, q), cap, false)
  {
    var m := PutAll(o, p.before);
    q := Open(m, p.kind, p.start);
    NestRoom(o, p, m, cap);
    RunCovers(js, p.before, lo, p.start, o, cap);
    RunOpen(js, m, p.kind, p.start, next, q, cap);
  }

  lemma {:induction false} RunLies(js: string, o: Part, p: Part, lo: nat, pos: nat, cap: nat)
    requires Lies(js, p, lo, pos) && |Tokens(o)| + |Tokens(p)| <= cap
    ensures Sane(Flat(lo, o)) && Sane(Flat(pos, Nest(o, p)))
    ensures Run(js, Flat(lo, o), cap, false) == Run(js, Flat(pos, Nest(o, p)), cap, false)
    decreases p
  {
    if p.Top? {
      RunCovers(js, p.vals, lo, pos, o, cap);
    } else {
      var next := p.start + 1;
      var q := RunInto(js, o, p, lo, next, cap);
      RunLies(js, q, p.inner, next, pos, cap);
    }
  }

  lemma {:induction false} RunReaches(js: string, cap: nat, p: Part, pos: nat)
    requires Reaches(js, cap, p, pos)
    ensures Sane(Flat(pos, p)) && Run(js, FRESH, cap, false) == Run(js, Flat(pos, p), cap, false)
  {
    FreshIsEmpty();
    RunLies(js, Top([]), p, 0, pos, cap);
    NestTop(p);
  }

  lemma {:induction false} LiesBounds(js: string, p: Part, lo: nat, pos: nat)
    requires Lies(js, p, lo, pos)
    ensures pos <= |js|
    decreases p
  {
    match p
    case Top(vals) => CoversBounds(js, vals, lo, pos);
    case Within(_, _, start, inner) => LiesBounds(js, inner, start + 1, pos);
  }

  // ---- What comes next decides the code ----

  lemma {:induction false} HaltCode(js: string, cap: nat, p: Part, pos: nat, code: Code)
    requires More(js, pos) && TreeStep(js, pos, p, cap) == TreeHalt(code)
    ensures Sane(Flat(pos, p)) && Run(js, Flat(pos, p), cap, false) == Outcome(code, Flat(pos, p))
  {
    StepRefines(js, pos, p, cap);
  }

  lemma {:induction false} CutCode(js: string, cap: nat, p: Part, pos: nat)
    requires pos <= |js| && IsCut(js, p, pos)
    ensures Sane(Flat(pos, p)) && Run(js, Flat(pos, p), cap, false).code == Partial
  {
    FlatSane(pos, p);
    if p.Within? && IsEnd(js, pos) {
      InnermostIsLastOpen(p);
    } else {
      StringsExactly(js, pos + 1);
      HaltCode(js, cap, p, pos, Partial);
    }
  }

  lemma {:induction false} WrongCode(js: string, cap: nat, p: Part, pos: nat)
    requires pos <= |js| && IsWrong(js, p, pos)
    ensures Sane(Flat(pos, p)) && Run(js, Flat(pos, p), cap, false).code == Inval
  {
    if js[pos] == '\"' {
      StringsExactly(js, pos + 1);
    } else if js[pos] != '}' && js[pos] != ']' {
      PrimitivesExactly(js, pos);
    }
    HaltCode(js, cap, p, pos, Inval);
  }

  lemma {:induction false} FullCode(js: string, cap: nat, p: Part, pos: nat)
    requires pos <= |js| && IsTooMany(js, cap, p, pos)
    ensures Sane(Flat(pos, p)) && Run(js, Flat(pos, p), cap, false).code == NoMem
  {
    if js[pos] == '\"' {
      StringsExactly(js, pos + 1);
    } else if js[pos] != '{' && js[pos] != '[' {
      PrimitivesExactly(js, pos);
    }
    HaltCode(js, cap, p, pos, NoMem);
  }

  lemma {:induction false} ReachedCode(js: string, cap: nat, p: Part, pos: nat)
    requires pos <= |js|
    ensures Sane(Flat(pos, p))
    ensures IsCut(js, p, pos) ==> Run(js, Flat(pos, p), cap, false).code == Partial
    ensures IsWrong(js, p, pos) ==> Run(js, Flat(pos, p), cap, false).code == Inval
    ensures IsTooMany(js, cap, p, pos) ==> Run(js, Flat(pos, p), cap, false).code == NoMem
  {
    FlatSane(pos, p);
    if IsCut(js, p, pos) {
      CutCode(js, cap, p, pos);
    }
    if IsWrong(js, p, pos) {
      WrongCode(js, cap, p, pos);
    }
    if IsTooMany(js, cap, p, pos) {
      FullCode(js, cap, p, pos);
    }
  }

  /** A parse that stops before the end of the text stops at a move that fails. */
  lemma {:induction false} StopsAtHalt(js: string, st: St, cap: nat)
    requires Sane(st)
    ensures var o := Run(js, st, cap, false);
            More(js, o.st.pos) ==> Sane(o.st) && Step(js, o.st, cap, false) == Halt(o.code)
    decreases |js| - st.pos
  {
    if More(js, st.pos) {
      StepMoves(js, st, cap, false);
      var t := Step(js, st, cap, false);
      if t.On? {
        StopsAtHalt(js, t.st, cap);
      }
    }
  }

  lemma {:induction false} HaltReason(js: string, cap: nat, p: Part, pos: nat, code: Code)
    requires More(js, pos) && TreeStep(js, pos, p, cap) == TreeHalt(code) && |Tokens(p)| <= cap
    ensures code == Partial ==> IsCut(js, p, pos)
    ensures code == Inval ==> IsWrong(js, p, pos)
    ensures code == NoMem ==> IsTooMany(js, cap, p, pos)
    ensures code != Fine
  {
    if js[pos] == '\"' {
      StringsExactly(js, pos + 1);
    } else if StartsPrimitive(js[pos]) {
      PrimitivesExactly(js, pos);
    }
  }

  lemma {:induction false} EndReason(js: string, cap: nat, p: Part, pos: nat, o: Outcome)
    requires Reaches(js, cap, p, pos) && !More(js, pos) && o == Run(js, FRESH, cap, false)
    ensures o.code == if p.Within? then Partial else Fine
  {
    RunReaches(js, cap, p, pos);
    InnermostIsLastOpen(p);
  }

  /** Where and why a parse stops. */
  lemma {:induction false} StopReason(js: string, cap: nat) returns (p: Part, pos: nat)
    ensures Reaches(js, cap, p, pos)
    ensures match Run(js, FRESH, cap, false).code
            case Fine => p.Top? && IsEnd(js, pos)
            case Partial => IsCut(js, p, pos)
            case Inval => IsWrong(js, p, pos)
            case NoMem => IsTooMany(js, cap, p, pos)
  {
    FreshIsEmpty();
    var o := Run(js, FRESH, cap, false);
    p := EveryStop(js, 0, Top([]), cap);
    pos := o.st.pos;
    WithinCapacity(js, FRESH, cap);
    if More(js, pos) {
      StopsAtHalt(js, FRESH, cap);
      StepRefines(js, pos, p, cap);
      HaltReason(js, cap, p, pos, o.code);
    } else {
      LiesBounds(js, p, 0, pos);
      EndIsNoMore(js, pos);
      EndReason(js, cap, p, pos, o);
    }
  }

  /** The code of a parse, said of the text. A text is accepted when a forest that fits lies over it
      (`JsmnText.AcceptsExactlyForests`), and otherwise exactly one of these is the case. */
  lemma {:induction false} CodesExactly(js: string, cap: nat)
    ensures var code := Run(js, FRESH, cap, false).code;
            && (code == Partial <==> EndsCut(js, cap))
            && (code == Inval <==> EndsWrong(js, cap))
            && (code == NoMem <==> EndsFull(js, cap))
  {
    var stop, at := StopReason(js, cap);
    forall p, pos: nat | Reaches(js, cap, p, pos)
      ensures pos <= |js| && Sane(Flat(pos, p)) && Run(js, FRESH, cap, false) == Run(js, Flat(pos, p), cap, false)
      ensures IsCut(js, p, pos) ==> Run(js, FRESH, cap, false).code == Partial
      ensures IsWrong(js, p, pos) ==> Run(js, FRESH, cap, false).code == Inval
      ensures IsTooMany(js, cap, p, pos) ==> Run(js, FRESH, cap, false).code == NoMem
    {
      RunReaches(js, cap, p, pos);
      LiesBounds(js, p, 0, pos);
      ReachedCode(js, cap, p, pos);
    }
  }

  // ---- The numbers of the C interface ----

  /** `jsmn_init` and `jsmn_parse` on a text, with the error codes of jsmn.h: -3 for a text that is cut,
      -2 for one that is wrong, -1 for one with more tokens than fit, and otherwise the number of tokens
      of the forest over the text, which fill the array from its start in preorder. */
  method ParseText(js: string, tokens: array<Tok>) returns (r: int)
    requires |js| < MAX_TEXT
    modifies tokens
    ensures r == -3 <==> EndsCut(js, tokens.Length)
    ensures r == -2 <==> EndsWrong(js, tokens.Length)
    ensures r == -1 <==> EndsFull(js, tokens.Length)
    ensures r >= 0 <==> exists vs, n :: IsForest(js, vs, n) && |List(vs)| <= tokens.Length
    ensures forall vs, n :: IsForest(js, vs, n) && |List(vs)| <= tokens.Length
                            ==> r == |List(vs)| && tokens[..r] == List(vs)
    ensures r >= -3
  {
    var p := new Parser();
    assert State(p, tokens) == FRESH;
    r := Parse(p, js, tokens, tokens.Length, false);
    CodesExactly(js, tokens.Length);
    AcceptsExactlyForests(js, tokens.Length);
  }
}
