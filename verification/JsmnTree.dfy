/** The tree behind the flat token array of jsmn (default build). A parse in progress is a partial
    tree: finished values, and possibly one open container with a partial tree inside. The step
    machine, which only ever looks at the flat array, moves exactly as a parser with a stack would;
    so a successful parse lists the preorder of one tree, and the tree lies over the text. */
module JsmnTree {
  import opened JsmnModel

  datatype Val = Atom(kind: Kind, start: nat, end: nat) | Group(kind: Kind, start: nat, end: nat, kids: seq<Val>)

  datatype Part = Top(vals: seq<Val>) | Within(before: seq<Val>, kind: Kind, start: nat, inner: Part)

  // ---- The preorder listing ----

  function Head(v: Val): Tok {
    Tok(v.kind, v.start, v.end, if v.Atom? then 0 else |v.kids|, -1)
  }

  function ListOne(v: Val): (r: seq<Tok>)
    ensures |r| > 0 && r[0] == Head(v)
    decreases v, 1
  {
    [Head(v)] + if v.Atom? then [] else List(v.kids)
  }

  /** Every value's token, then the tokens of its children, left to right. */
  function List(vs: seq<Val>): seq<Tok>
    decreases vs, 0
  {
    if vs == [] then [] else List(vs[..|vs| - 1]) + ListOne(vs[|vs| - 1])
  }

  /** Values and open containers at the outermost level. */
  function Width(p: Part): nat {
    match p
    case Top(vals) => |vals|
    case Within(before, _, _, _) => |before| + 1
  }

  function Opened(kind: Kind, start: nat, size: nat): Tok {
    Tok(kind, start, -1, size, -1)
  }

  function Tokens(p: Part): seq<Tok> {
    match p
    case Top(vals) => List(vals)
    case Within(before, kind, start, inner) => List(before) + [Opened(kind, start, Width(inner))] + Tokens(inner)
  }

  /** Where the innermost open container stands in the listing. */
  function Innermost(p: Part): int {
    match p
    case Top(_) => -1
    case Within(before, _, _, inner) =>
      if inner.Top? then |List(before)| else |List(before)| + 1 + Innermost(inner)
  }

  function Flat(pos: nat, p: Part): St {
    St(pos, Tokens(p), Innermost(p))
  }

  // ---- Moves of a parser with a stack ----

  function Put(p: Part, v: Val): Part {
    match p
    case Top(vals) => Top(vals + [v])
    case Within(before, kind, start, inner) => Within(before, kind, start, Put(inner, v))
  }

  function Open(p: Part, kind: Kind, start: nat): Part {
    match p
    case Top(vals) => Within(vals, kind, start, Top([]))
    case Within(before, k, s, inner) => Within(before, k, s, Open(inner, kind, start))
  }

  function InnerKind(p: Part): Kind
    requires p.Within?
  {
    if p.inner.Top? then p.kind else InnerKind(p.inner)
  }

  function Close(p: Part, end: nat): Part
    requires p.Within?
  {
    if p.inner.Top? then Top(p.before + [Group(p.kind, p.start, end, p.inner.vals)])
    else Within(p.before, p.kind, p.start, Close(p.inner, end))
  }

  // ---- The listing follows each move ----

  lemma {:induction false} ListAppend(a: seq<Val>, b: seq<Val>)
    ensures List(a + b) == List(a) + List(b)
    decreases |b|
  {
    if b == [] {
      assert a + b == a;
    } else {
      assert (a + b)[..|a + b| - 1] == a + b[..|b| - 1];
      ListAppend(a, b[..|b| - 1]);
    }
  }

  lemma {:induction false} ListPut(vs: seq<Val>, v: Val)
    ensures List(vs + [v]) == List(vs) + ListOne(v)
  {
    assert (vs + [v])[..|vs|] == vs;
  }

  predicate NoneOpen(toks: seq<Tok>) {
    forall i :: 0 <= i < |toks| ==> !IsOpen(toks[i])
  }

  lemma {:induction false} ListClosed(vs: seq<Val>)
    ensures NoneOpen(List(vs))
    decreases vs, 0
  {
    if vs != [] {
      var v := vs[|vs| - 1];
      ListClosed(vs[..|vs| - 1]);
      if v.Group? {
        ListClosed(v.kids);
      }
    }
  }

  lemma {:induction false} LastOpenIn(a: seq<Tok>, b: seq<Tok>)
    ensures LastOpen(a + b) == if LastOpen(b) >= 0 then |a| + LastOpen(b) else LastOpen(a)
  {
    var i := if LastOpen(b) >= 0 then |a| + LastOpen(b) else LastOpen(a);
    var ts := a + b;
    LastOpenIs(ts, i);
  }

  /** `toksuper` is the innermost open container. */
  lemma {:induction false} InnermostIsLastOpen(p: Part)
    ensures -1 <= Innermost(p) < |Tokens(p)| && (Innermost(p) == -1 <==> p.Top?)
    ensures LastOpen(Tokens(p)) == Innermost(p)
  {
    match p
    case Top(vals) =>
      ListClosed(vals);
    case Within(before, kind, start, inner) =>
      InnermostIsLastOpen(inner);
      var t := [Opened(kind, start, Width(inner))];
      assert LastOpen(t) == 0;
      LastOpenIn(List(before) + t, Tokens(inner));
      LastOpenIn(List(before), t);
  }

  lemma {:induction false} WidthPut(p: Part, v: Val)
    ensures Width(Put(p, v)) == if p.Top? then Width(p) + 1 else Width(p)
  {
  }

  /** A new value adds its listing at the end and one child to the innermost container. */
  lemma {:induction false} PutLists(p: Part, v: Val)
    ensures -1 <= Innermost(p) < |Tokens(p)| && Innermost(Put(p, v)) == Innermost(p)
    ensures Tokens(Put(p, v)) == Bump(Tokens(p), Innermost(p)) + ListOne(v)
  {
    InnermostIsLastOpen(p);
    match p
    case Top(vals) =>
      ListPut(vals, v);
    case Within(_, _, _, inner) =>
      PutLists(inner, v);
      InnermostIsLastOpen(inner);
      PutDeeper(p, v, Innermost(inner));
  }

  lemma {:induction false} PutDeeper(p: Part, v: Val, i: int)
    requires p.Within? && i == Innermost(p.inner) && -1 <= i < |Tokens(p.inner)| && (i == -1 <==> p.inner.Top?)
    requires Innermost(Put(p.inner, v)) == i
    requires Tokens(Put(p.inner, v)) == Bump(Tokens(p.inner), i) + ListOne(v)
    ensures -1 <= Innermost(p) < |Tokens(p)|
    ensures Innermost(Put(p, v)) == Innermost(p)
    ensures Tokens(Put(p, v)) == Bump(Tokens(p), Innermost(p)) + ListOne(v)
  {
    var a, w, b, q := List(p.before), Width(p.inner), Tokens(p.inner), Put(p.inner, v);
    WidthPut(p.inner, v);
    BumpWithin(p.before, p.kind, p.start, w, b, i);
    Regroup(a, [Opened(p.kind, p.start, Width(q))], Bump(b, i), ListOne(v));
    assert p.inner.Top? <==> q.Top?;
  }

  lemma Regroup(a: seq<Tok>, t: seq<Tok>, b: seq<Tok>, c: seq<Tok>)
    ensures a + t + (b + c) == a + t + b + c
  {
  }

  /** Bumping the innermost of a container and what is inside it. */
  lemma {:induction false} BumpWithin(before: seq<Val>, kind: Kind, start: nat, w: nat, inner: seq<Tok>, i: int)
    requires -1 <= i < |inner|
    ensures i == -1 ==> Bump(List(before) + [Opened(kind, start, w)] + inner, |List(before)|)
                        == List(before) + [Opened(kind, start, w + 1)] + inner
    ensures i >= 0 ==> Bump(List(before) + [Opened(kind, start, w)] + inner, |List(before)| + 1 + i)
                       == List(before) + [Opened(kind, start, w)] + Bump(inner, i)
  {
  }

  lemma {:induction false} OpenLists(p: Part, kind: Kind, start: nat)
    ensures -1 <= Innermost(p) < |Tokens(p)| && Innermost(Open(p, kind, start)) == |Tokens(p)|
    ensures Tokens(Open(p, kind, start)) == Bump(Tokens(p), Innermost(p)) + [Opened(kind, start, 0)]
  {
    InnermostIsLastOpen(p);
    match p
    case Top(vals) =>
      assert List([]) == [];
    case Within(_, _, _, inner) =>
      OpenLists(inner, kind, start);
      InnermostIsLastOpen(inner);
      OpenDeeper(p, kind, start, Innermost(inner));
  }

  lemma {:induction false} OpenDeeper(p: Part, kind: Kind, start: nat, i: int)
    requires p.Within? && i == Innermost(p.inner) && -1 <= i < |Tokens(p.inner)| && (i == -1 <==> p.inner.Top?)
    requires Innermost(Open(p.inner, kind, start)) == |Tokens(p.inner)|
    requires Tokens(Open(p.inner, kind, start)) == Bump(Tokens(p.inner), i) + [Opened(kind, start, 0)]
    ensures -1 <= Innermost(p) < |Tokens(p)| && Innermost(Open(p, kind, start)) == |Tokens(p)|
    ensures Tokens(Open(p, kind, start)) == Bump(Tokens(p), Innermost(p)) + [Opened(kind, start, 0)]
  {
    var a, w, b, q := List(p.before), Width(p.inner), Tokens(p.inner), Open(p.inner, kind, start);
    BumpWithin(p.before, p.kind, p.start, w, b, i);
    Regroup(a, [Opened(p.kind, p.start, Width(q))], Bump(b, i), [Opened(kind, start, 0)]);
    assert q.Within? && Width(q) == if p.inner.Top? then w + 1 else w;
  }

  function EndAt(toks: seq<Tok>, i: nat, end: int): seq<Tok>
    requires i < |toks|
  {
    toks[i := toks[i].(end := end)]
  }

  lemma {:induction false} CloseLists(p: Part, end: nat)
    requires p.Within?
    ensures 0 <= Innermost(p) < |Tokens(p)| && Tokens(p)[Innermost(p)].kind == InnerKind(p)
    ensures Tokens(Close(p, end)) == EndAt(Tokens(p), Innermost(p), end)
    ensures LastOpen(Tokens(p)[..Innermost(p)]) == Innermost(Close(p, end))
  {
    InnermostIsLastOpen(p);
    if p.inner.Top? {
      CloseHere(p.before, p.kind, p.start, p.inner.vals, end);
    } else {
      CloseLists(p.inner, end);
      CloseDeeper(p, end, Innermost(p.inner));
    }
  }

  lemma {:induction false} CloseHere(before: seq<Val>, kind: Kind, start: nat, vals: seq<Val>, end: nat)
    ensures var p := Within(before, kind, start, Top(vals));
            && Tokens(p)[|List(before)|] == Opened(kind, start, |vals|)
            && Tokens(Close(p, end)) == EndAt(Tokens(p), |List(before)|, end)
            && LastOpen(Tokens(p)[..|List(before)|]) == -1
  {
    var p := Within(before, kind, start, Top(vals));
    ListPut(before, Group(kind, start, end, vals));
    assert Tokens(p)[..|List(before)|] == List(before);
    ListClosed(before);
  }

  lemma {:induction false} EndAtTail(a: seq<Tok>, t: Tok, b: seq<Tok>, i: nat, end: int)
    requires i < |b|
    ensures EndAt(a + [t] + b, |a| + 1 + i, end) == a + [t] + EndAt(b, i, end)
    ensures (a + [t] + b)[|a| + 1 + i] == b[i]
    ensures (a + [t] + b)[..|a| + 1 + i] == a + [t] + b[..i]
  {
  }

  lemma {:induction false} LastOpenPast(a: seq<Tok>, t: Tok, b: seq<Tok>)
    requires IsOpen(t)
    ensures LastOpen(a + [t] + b) == if LastOpen(b) >= 0 then |a| + 1 + LastOpen(b) else |a|
  {
    LastOpenIn(a + [t], b);
    LastOpenIs(a + [t], |a|);
  }

  lemma {:induction false} CloseDeeper(p: Part, end: nat, i: int)
    requires p.Within? && p.inner.Within? && i == Innermost(p.inner) && 0 <= i < |Tokens(p.inner)|
    requires Tokens(p.inner)[i].kind == InnerKind(p.inner)
    requires Tokens(Close(p.inner, end)) == EndAt(Tokens(p.inner), i, end)
    requires LastOpen(Tokens(p.inner)[..i]) == Innermost(Close(p.inner, end))
    ensures 0 <= Innermost(p) < |Tokens(p)| && Tokens(p)[Innermost(p)].kind == InnerKind(p)
    ensures Tokens(Close(p, end)) == EndAt(Tokens(p), Innermost(p), end)
    ensures LastOpen(Tokens(p)[..Innermost(p)]) == Innermost(Close(p, end))
  {
    var a, t, b := List(p.before), Opened(p.kind, p.start, Width(p.inner)), Tokens(p.inner);
    EndAtTail(a, t, b, i, end);
    CloseWidth(p.inner, end);
    LastOpenPast(a, t, b[..i]);
    InnermostIsLastOpen(Close(p.inner, end));
  }

  lemma {:induction false} CloseWidth(p: Part, end: nat)
    requires p.Within?
    ensures Width(Close(p, end)) == Width(p)
  {
  }

  // ---- The machine is a parser with a stack ----

  datatype TreeTurn = TreeOn(pos: nat, part: Part) | TreeHalt(code: Code)

  function TreeStep(js: string, pos: nat, p: Part, cap: nat): TreeTurn
    requires More(js, pos)
  {
    var c := js[pos];
    if IsOpener(c) then
      if |Tokens(p)| >= cap then TreeHalt(NoMem) else TreeOn(pos + 1, Open(p, KindOf(c), pos))
    else if IsCloser(c) then
      if p.Top? || InnerKind(p) != KindOf(c) then TreeHalt(Inval) else TreeOn(pos + 1, Close(p, pos + 1))
    else if c == QUOTE then
      match StringEnd(js, pos + 1)
      case Failed(code) => TreeHalt(code)
      case Found(q) =>
        if |Tokens(p)| >= cap then TreeHalt(NoMem) else TreeOn(q + 1, Put(p, Atom(String, pos + 1, q)))
    else if IsBlank(c) then TreeOn(pos + 1, p)
    else
      match PrimitiveEnd(js, pos)
      case Failed(code) => TreeHalt(code)
      case Found(q) =>
        if |Tokens(p)| >= cap then TreeHalt(NoMem) else TreeOn(q, Put(p, Atom(Primitive, pos, q)))
  }

  predicate NoParents(toks: seq<Tok>) {
    forall i :: 0 <= i < |toks| ==> toks[i].parent == -1
  }

  lemma {:induction false} ListNoParents(vs: seq<Val>)
    ensures NoParents(List(vs))
    decreases vs, 0
  {
    if vs != [] {
      var v := vs[|vs| - 1];
      ListNoParents(vs[..|vs| - 1]);
      if v.Group? {
        ListNoParents(v.kids);
      }
    }
  }

  lemma {:induction false} FlatSane(pos: nat, p: Part)
    ensures Sane(Flat(pos, p)) && NoParents(Tokens(p))
  {
    InnermostIsLastOpen(p);
    match p
    case Top(vals) => ListNoParents(vals);
    case Within(before, kind, start, inner) =>
      ListNoParents(before);
      FlatSane(pos, inner);
  }

  /** One turn of the flat machine is one move of the stack parser. */
  lemma {:induction false} StepRefines(js: string, pos: nat, p: Part, cap: nat)
    requires More(js, pos)
    ensures Sane(Flat(pos, p))
    ensures Step(js, Flat(pos, p), cap, false)
            == match TreeStep(js, pos, p, cap)
               case TreeOn(pos', p') => On(Flat(pos', p'))
               case TreeHalt(code) => Halt(code)
  {
    FlatSane(pos, p);
    var c, pos1 := js[pos], pos + 1;
    if IsOpener(c) {
      OpenRefines(p, KindOf(c), pos, pos1);
    } else if IsCloser(c) {
      CloseRefines(p, c, pos, pos1);
    } else if c == QUOTE {
      var e := StringEnd(js, pos1);
      if e.Found? {
        var next := e.end + 1;
        AtomRefines(p, String, pos, pos1, e.end, next);
      }
    } else if !IsBlank(c) {
      var e := PrimitiveEnd(js, pos);
      if e.Found? {
        AtomRefines(p, Primitive, pos, pos, e.end, e.end);
      }
    }
  }

  lemma {:induction false} OpenRefines(p: Part, kind: Kind, pos: nat, pos1: nat)
    requires pos1 == pos + 1
    ensures Sane(Flat(pos, p))
    ensures AddToken(Flat(pos, p), kind, pos, -1, pos1, false).(super := |Tokens(p)|) == Flat(pos1, Open(p, kind, pos))
  {
    FlatSane(pos, p);
    OpenLists(p, kind, pos);
  }

  lemma {:induction false} AtomRefines(p: Part, kind: Kind, pos: nat, start: nat, end: nat, next: nat)
    ensures Sane(Flat(pos, p))
    ensures AddToken(Flat(pos, p), kind, start, end, next, false) == Flat(next, Put(p, Atom(kind, start, end)))
  {
    FlatSane(pos, p);
    PutAtom(p, Atom(kind, start, end));
  }

  lemma {:induction false} CloseRefines(p: Part, c: char, pos: nat, pos1: nat)
    requires pos1 == pos + 1
    ensures Sane(Flat(pos, p))
    ensures CloseStep(c, Flat(pos, p), false)
            == if p.Top? || InnerKind(p) != KindOf(c) then Halt(Inval) else On(Flat(pos1, Close(p, pos1)))
  {
    FlatSane(pos, p);
    InnermostIsLastOpen(p);
    if p.Within? {
      CloseLists(p, pos1);
    }
  }

  lemma {:induction false} PutAtom(p: Part, v: Val)
    requires v.Atom?
    ensures -1 <= Innermost(p) < |Tokens(p)| && Innermost(Put(p, v)) == Innermost(p)
    ensures Tokens(Put(p, v)) == Bump(Tokens(p), Innermost(p)) + [Tok(v.kind, v.start, v.end, 0, -1)]
  {
    PutLists(p, v);
  }
}
