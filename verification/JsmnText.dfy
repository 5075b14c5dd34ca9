/** Which texts the default build accepts, and what it makes of them: exactly the sequences of
    values separated by blanks (colons and commas count as blanks), and their token array is the
    preorder listing of the one tree that lies over the text. */
module JsmnText {
  import opened JsmnChars
  import opened JsmnModel
  import opened JsmnTree

  predicate Blank(js: string, lo: nat, hi: nat) {
    lo <= hi <= |js| && forall k :: lo <= k < hi ==> IsGap(js[k])
  }

  /** First and one-past-last character of a value; a string token leaves its quotes out. */
  function Begin(v: Val): nat {
    if v.kind == String && v.start > 0 then v.start - 1 else v.start
  }

  function Stop(v: Val): nat {
    if v.kind == String then v.end + 1 else v.end
  }

  predicate Opens(js: string, kind: Kind, p: nat) {
    p < |js| && ((kind == Object && js[p] == '{') || (kind == Array && js[p] == '['))
  }

  predicate Closes(js: string, kind: Kind, p: nat) {
    p < |js| && ((kind == Object && js[p] == '}') || (kind == Array && js[p] == ']'))
  }

  /** The value `v` lies over its stretch of the text. */
  predicate IsText(js: string, v: Val)
    decreases v, 1
  {
    match v
    case Atom(kind, start, end) =>
      (kind == String && IsString(js, start, end)) || (kind == Primitive && IsPrimitive(js, start, end))
    case Group(kind, start, end, kids) =>
      start + 2 <= end && Opens(js, kind, start) && Closes(js, kind, end - 1) && Covers(js, kids, start + 1, end - 1)
  }

  /** The text from `lo` to `hi` is the values `vs`, in order, with nothing but blanks around them. */
  predicate Covers(js: string, vs: seq<Val>, lo: nat, hi: nat)
    decreases vs, 0
  {
    if vs == [] then Blank(js, lo, hi) else
      var v := vs[|vs| - 1];
      Covers(js, vs[..|vs| - 1], lo, Begin(v)) && IsText(js, v) && Blank(js, Stop(v), hi)
  }

  /** A whole text, up to its end or its first NUL. */
  predicate IsForest(js: string, vs: seq<Val>, n: nat) {
    Covers(js, vs, 0, n) && IsEnd(js, n)
  }

  // ---- Every accepted text is a forest ----

  /** The partial tree lies over the text read so far. */
  predicate Lies(js: string, p: Part, lo: nat, pos: nat) {
    match p
    case Top(vals) => Covers(js, vals, lo, pos)
    case Within(before, kind, start, inner) =>
      Opens(js, kind, start) && Covers(js, before, lo, start) && Lies(js, inner, start + 1, pos)
  }

  lemma {:induction false} BlankMore(js: string, vs: seq<Val>, lo: nat, hi: nat, more: nat)
    requires Covers(js, vs, lo, hi) && Blank(js, hi, more)
    ensures Covers(js, vs, lo, more)
  {
  }

  lemma {:induction false} CoversMore(js: string, vs: seq<Val>, v: Val, lo: nat, hi: nat)
    requires Covers(js, vs, lo, Begin(v)) && IsText(js, v) && Blank(js, Stop(v), hi)
    ensures Covers(js, vs + [v], lo, hi)
  {
    assert (vs + [v])[..|vs|] == vs;
  }

  lemma {:induction false} LiesBlank(js: string, p: Part, lo: nat, pos: nat, more: nat)
    requires Lies(js, p, lo, pos) && Blank(js, pos, more)
    ensures Lies(js, p, lo, more)
  {
    match p
    case Top(vals) => BlankMore(js, vals, lo, pos, more);
    case Within(_, _, start, inner) => LiesBlank(js, inner, start + 1, pos, more);
  }

  lemma {:induction false} LiesPut(js: string, p: Part, v: Val, lo: nat, stop: nat)
    requires Lies(js, p, lo, Begin(v)) && IsText(js, v) && stop == Stop(v) <= |js|
    ensures Lies(js, Put(p, v), lo, stop)
  {
    match p
    case Top(vals) => CoversMore(js, vals, v, lo, stop);
    case Within(_, _, start, inner) => LiesPut(js, inner, v, start + 1, stop);
  }

  lemma {:induction false} LiesOpen(js: string, p: Part, kind: Kind, lo: nat, pos: nat)
    requires Lies(js, p, lo, pos) && Opens(js, kind, pos)
    ensures Lies(js, Open(p, kind, pos), lo, pos + 1)
  {
    match p
    case Top(vals) =>
    case Within(_, _, start, inner) => LiesOpen(js, inner, kind, start + 1, pos);
  }

  lemma {:induction false} CoversBounds(js: string, vs: seq<Val>, lo: nat, hi: nat)
    requires Covers(js, vs, lo, hi)
    ensures lo <= hi <= |js|
    decreases vs, 0
  {
    if vs != [] {
      var v := vs[|vs| - 1];
      CoversBounds(js, vs[..|vs| - 1], lo, Begin(v));
      TextBounds(js, v);
    }
  }

  lemma {:induction false} TextBounds(js: string, v: Val)
    requires IsText(js, v)
    ensures Begin(v) < Stop(v) <= |js| && v.start <= v.end <= Stop(v) && v.start < Stop(v)
    ensures v.kind == Primitive || v.kind == Object || v.kind == Array ==> v.start < v.end
    ensures v.Group? <==> v.kind == Object || v.kind == Array
    decreases v, 1
  {
  }

  lemma {:induction false} LiesClose(js: string, p: Part, kind: Kind, lo: nat, pos: nat, end: nat)
    requires p.Within? && Lies(js, p, lo, pos) && InnerKind(p) == kind && Closes(js, kind, pos) && end == pos + 1
    ensures Lies(js, Close(p, end), lo, end)
  {
    if p.inner.Top? {
      var v := Group(p.kind, p.start, end, p.inner.vals);
      CoversBounds(js, p.inner.vals, p.start + 1, pos);
      CoversMore(js, p.before, v, lo, end);
    } else {
      LiesClose(js, p.inner, kind, p.start + 1, pos, end);
    }
  }

  lemma {:induction false} TreeStepLies(js: string, pos: nat, p: Part, cap: nat)
    requires More(js, pos) && Lies(js, p, 0, pos) && TreeStep(js, pos, p, cap).TreeOn?
    ensures var t := TreeStep(js, pos, p, cap); Lies(js, t.part, 0, t.pos)
  {
    var c, t := js[pos], TreeStep(js, pos, p, cap);
    if IsOpener(c) {
      LiesOpen(js, p, KindOf(c), 0, pos);
    } else if IsCloser(c) {
      LiesClose(js, p, KindOf(c), 0, pos, pos + 1);
    } else if c == QUOTE {
      var v := Atom(String, pos + 1, StringEnd(js, pos + 1).end);
      StringsExactly(js, pos + 1);
      LiesPut(js, p, v, 0, t.pos);
    } else if IsBlank(c) {
      LiesBlank(js, p, 0, pos, pos + 1);
    } else {
      var v := Atom(Primitive, pos, PrimitiveEnd(js, pos).end);
      PrimitivesExactly(js, pos);
      LiesPut(js, p, v, 0, t.pos);
    }
  }

  /** Wherever a parse stops, its tokens and its superior token are those of a partial tree over the
      text read so far; it is complete exactly when the parse succeeds at the end of the text. */
  lemma {:induction false} EveryStop(js: string, pos: nat, p: Part, cap: nat) returns (p': Part)
    requires Lies(js, p, 0, pos)
    ensures Sane(Flat(pos, p))
    ensures var o := Run(js, Flat(pos, p), cap, false);
            && o.st == Flat(o.st.pos, p') && Lies(js, p', 0, o.st.pos)
            && (o.code == Fine <==> p'.Top? && !More(js, o.st.pos))
            && (o.code == Partial && !More(js, o.st.pos) ==> p'.Within?)
    decreases |js| - pos
  {
    FlatSane(pos, p);
    InnermostIsLastOpen(p);
    p' := p;
    if More(js, pos) {
      StepRefines(js, pos, p, cap);
      StepMoves(js, Flat(pos, p), cap, false);
      var t := TreeStep(js, pos, p, cap);
      if t.TreeOn? {
        TreeStepLies(js, pos, p, cap);
        p' := EveryStop(js, t.pos, t.part, cap);
      }
    }
  }

  // ---- Every forest is accepted ----

  function PutAll(p: Part, vs: seq<Val>): Part
    decreases |vs|
  {
    if vs == [] then p else Put(PutAll(p, vs[..|vs| - 1]), vs[|vs| - 1])
  }

  lemma {:induction false} PutAllTop(a: seq<Val>, vs: seq<Val>)
    ensures PutAll(Top(a), vs) == Top(a + vs)
    decreases |vs|
  {
    if vs == [] {
      assert a + vs == a;
    } else {
      PutAllTop(a, vs[..|vs| - 1]);
      assert a + vs[..|vs| - 1] + [vs[|vs| - 1]] == a + vs;
    }
  }

  lemma {:induction false} PutAllWithin(p: Part, vs: seq<Val>)
    requires p.Within?
    ensures PutAll(p, vs) == p.(inner := PutAll(p.inner, vs))
    decreases |vs|
  {
    if vs != [] {
      PutAllWithin(p, vs[..|vs| - 1]);
    }
  }

  /** Opening a container, adding values and closing it adds one group. */
  lemma {:induction false} OpenPutClose(p: Part, kind: Kind, start: nat, vs: seq<Val>, end: nat)
    ensures var q := PutAll(Open(p, kind, start), vs);
            q.Within? && InnerKind(q) == kind && Close(q, end) == Put(p, Group(kind, start, end, vs))
  {
    PutAllWithin(Open(p, kind, start), vs);
    match p
    case Top(vals) =>
      PutAllTop([], vs);
      assert [] + vs == vs;
    case Within(_, _, _, inner) =>
      OpenPutClose(inner, kind, start, vs, end);
  }

  lemma {:induction false} PutAllSize(p: Part, vs: seq<Val>)
    ensures |Tokens(PutAll(p, vs))| == |Tokens(p)| + |List(vs)|
    decreases |vs|
  {
    if vs != [] {
      PutAllSize(p, vs[..|vs| - 1]);
      PutLists(PutAll(p, vs[..|vs| - 1]), vs[|vs| - 1]);
    }
  }

  /** One move of the stack parser is one turn of the flat machine's run. */
  lemma {:induction false} RunStep(js: string, pos: nat, p: Part, cap: nat, pos': nat, p': Part)
    requires More(js, pos) && TreeStep(js, pos, p, cap) == TreeOn(pos', p')
    ensures Sane(Flat(pos, p)) && Sane(Flat(pos', p'))
    ensures Run(js, Flat(pos, p), cap, false) == Run(js, Flat(pos', p'), cap, false)
  {
    FlatSane(pos, p);
    FlatSane(pos', p');
    StepRefines(js, pos, p, cap);
  }

  lemma {:induction false} RunBlank(js: string, lo: nat, hi: nat, p: Part, cap: nat)
    requires Blank(js, lo, hi)
    ensures Sane(Flat(lo, p)) && Sane(Flat(hi, p))
    ensures Run(js, Flat(lo, p), cap, false) == Run(js, Flat(hi, p), cap, false)
    decreases hi - lo
  {
    FlatSane(lo, p);
    if lo < hi {
      RunStep(js, lo, p, cap, lo + 1, p);
      RunBlank(js, lo + 1, hi, p, cap);
    }
  }

  lemma {:induction false} RunString(js: string, start: nat, end: nat, p: Part, cap: nat, lo: nat, hi: nat)
    requires IsString(js, start, end) && |Tokens(p)| < cap && start == lo + 1 && hi == end + 1
    ensures Sane(Flat(lo, p)) && Sane(Flat(hi, Put(p, Atom(String, start, end))))
    ensures Run(js, Flat(lo, p), cap, false) == Run(js, Flat(hi, Put(p, Atom(String, start, end))), cap, false)
  {
    StringsExactly(js, start);
    RunStep(js, lo, p, cap, hi, Put(p, Atom(String, start, end)));
  }

  lemma {:induction false} RunPrimitive(js: string, start: nat, end: nat, p: Part, cap: nat)
    requires IsPrimitive(js, start, end) && |Tokens(p)| < cap
    ensures Sane(Flat(start, p)) && Sane(Flat(end, Put(p, Atom(Primitive, start, end))))
    ensures Run(js, Flat(start, p), cap, false) == Run(js, Flat(end, Put(p, Atom(Primitive, start, end))), cap, false)
  {
    PrimitivesExactly(js, start);
    RunStep(js, start, p, cap, end, Put(p, Atom(Primitive, start, end)));
  }

  lemma {:induction false} RunOne(js: string, v: Val, p: Part, cap: nat)
    requires IsText(js, v) && |Tokens(p)| + |ListOne(v)| <= cap
    ensures Sane(Flat(Begin(v), p)) && Sane(Flat(Stop(v), Put(p, v)))
    ensures Run(js, Flat(Begin(v), p), cap, false) == Run(js, Flat(Stop(v), Put(p, v)), cap, false)
    decreases v, 1
  {
    match v
    case Atom(kind, start, end) =>
      if kind == String {
        RunString(js, start, end, p, cap, Begin(v), Stop(v));
      } else {
        RunPrimitive(js, start, end, p, cap);
      }
    case Group(_, _, _, _) =>
      RunGroup(js, v, p, cap);
  }

  lemma {:induction false} OpenRoom(p: Part, v: Val, q: Part, cap: nat)
    requires v.Group? && q == Open(p, v.kind, v.start) && |Tokens(p)| + |ListOne(v)| <= cap
    ensures |Tokens(p)| < cap && |Tokens(q)| + |List(v.kids)| <= cap
  {
    OpenLists(p, v.kind, v.start);
  }

  lemma {:induction false} RunGroup(js: string, v: Val, p: Part, cap: nat)
    requires IsText(js, v) && v.Group? && |Tokens(p)| + |ListOne(v)| <= cap
    ensures Sane(Flat(v.start, p)) && Sane(Flat(v.end, Put(p, v)))
    ensures Run(js, Flat(v.start, p), cap, false) == Run(js, Flat(v.end, Put(p, v)), cap, false)
    decreases v, 0
  {
    var lo, last := v.start + 1, v.end - 1;
    var q := Open(p, v.kind, v.start);
    OpenRoom(p, v, q, cap);
    RunOpen(js, p, v.kind, v.start, lo, q, cap);
    RunCovers(js, v.kids, lo, last, q, cap);
    OpenPutClose(p, v.kind, v.start, v.kids, v.end);
    RunClose(js, PutAll(q, v.kids), v.kind, last, v.end, cap);
  }

  lemma {:induction false} RunOpen(js: string, p: Part, kind: Kind, start: nat, lo: nat, q: Part, cap: nat)
    requires Opens(js, kind, start) && lo == start + 1 && q == Open(p, kind, start) && |Tokens(p)| < cap
    ensures Sane(Flat(start, p)) && Sane(Flat(lo, q))
    ensures Run(js, Flat(start, p), cap, false) == Run(js, Flat(lo, q), cap, false)
  {
    RunStep(js, start, p, cap, lo, q);
  }

  lemma {:induction false} RunClose(js: string, q: Part, kind: Kind, last: nat, end: nat, cap: nat)
    requires q.Within? && InnerKind(q) == kind && Closes(js, kind, last) && end == last + 1
    ensures Sane(Flat(last, q)) && Sane(Flat(end, Close(q, end)))
    ensures Run(js, Flat(last, q), cap, false) == Run(js, Flat(end, Close(q, end)), cap, false)
  {
    RunStep(js, last, q, cap, end, Close(q, end));
  }

  lemma {:induction false} RunCovers(js: string, vs: seq<Val>, lo: nat, hi: nat, p: Part, cap: nat)
    requires Covers(js, vs, lo, hi) && |Tokens(p)| + |List(vs)| <= cap
    ensures Sane(Flat(lo, p)) && Sane(Flat(hi, PutAll(p, vs)))
    ensures Run(js, Flat(lo, p), cap, false) == Run(js, Flat(hi, PutAll(p, vs)), cap, false)
    decreases vs, 0
  {
    if vs == [] {
      RunBlank(js, lo, hi, p, cap);
    } else {
      var v, init := vs[|vs| - 1], vs[..|vs| - 1];
      RunCovers(js, init, lo, Begin(v), p, cap);
      PutAllSize(p, init);
      RunOne(js, v, PutAll(p, init), cap);
      RunBlank(js, Stop(v), hi, PutAll(p, vs), cap);
    }
  }

  lemma {:induction false} FreshIsEmpty()
    ensures FRESH == Flat(0, Top([]))
  {
    assert List([]) == [];
  }

  /** With enough tokens, every forest is accepted and listed in preorder. */
  lemma {:induction false} ForestAccepted(js: string, vs: seq<Val>, n: nat, cap: nat)
    requires IsForest(js, vs, n) && |List(vs)| <= cap
    ensures Run(js, FRESH, cap, false) == Outcome(Fine, St(n, List(vs), -1))
  {
    FreshIsEmpty();
    RunCovers(js, vs, 0, n, Top([]), cap);
    PutAllTop([], vs);
    assert [] + vs == vs;
    InnermostIsLastOpen(Top(vs));
    FlatSane(n, Top(vs));
  }

  /** The tokenizer accepts a text exactly when a forest that fits the array lies over it, and then
      the tokens are that forest's preorder listing. */
  lemma {:induction false} AcceptsExactlyForests(js: string, cap: nat)
    ensures Run(js, FRESH, cap, false).code == Fine
            <==> exists vs, n :: IsForest(js, vs, n) && |List(vs)| <= cap
    ensures forall vs, n :: IsForest(js, vs, n) && |List(vs)| <= cap
                            ==> Run(js, FRESH, cap, false) == Outcome(Fine, St(n, List(vs), -1))
  {
    forall vs, n | IsForest(js, vs, n) && |List(vs)| <= cap
      ensures Run(js, FRESH, cap, false) == Outcome(Fine, St(n, List(vs), -1))
    {
      ForestAccepted(js, vs, n, cap);
    }
    var o := Run(js, FRESH, cap, false);
    if o.code == Fine {
      FreshIsEmpty();
      var p := EveryStop(js, 0, Top([]), cap);
      WithinCapacity(js, FRESH, cap);
      assert IsForest(js, p.vals, o.st.pos) && |List(p.vals)| <= cap;
    }
  }

  lemma {:induction false} WithinCapacity(js: string, st: St, cap: nat)
    requires Sane(st) && |st.toks| <= cap
    ensures |Run(js, st, cap, false).st.toks| <= cap
    decreases |js| - st.pos
  {
    if More(js, st.pos) {
      StepMoves(js, st, cap, false);
      var t := Step(js, st, cap, false);
      if t.On? {
        WithinCapacity(js, t.st, cap);
      }
    }
  }

  // ---- The forest is unique ----

  predicate Marked(vs: seq<Val>)
    decreases vs, 0
  {
    forall i :: 0 <= i < |vs| ==> MarkedOne(vs[i])
  }

  /** Groups are objects and arrays, and nothing else is. */
  predicate MarkedOne(v: Val)
    decreases v, 1
  {
    (v.Group? <==> v.kind == Object || v.kind == Array) && (v.Group? ==> Marked(v.kids))
  }

  lemma {:induction false} ForestMarked(js: string, vs: seq<Val>, lo: nat, hi: nat)
    requires Covers(js, vs, lo, hi)
    ensures Marked(vs)
    decreases vs, 0
  {
    if vs != [] {
      var v, init := vs[|vs| - 1], vs[..|vs| - 1];
      ForestMarked(js, init, lo, Begin(v));
      assert forall i :: 0 <= i < |init| ==> vs[i] == init[i];
      TextBounds(js, v);
      if v.Group? {
        ForestMarked(js, v.kids, v.start + 1, v.end - 1);
      }
    }
  }

  lemma {:induction false} ListFirst(vs: seq<Val>)
    requires vs != []
    ensures List(vs) == ListOne(vs[0]) + List(vs[1..])
  {
    assert vs == [vs[0]] + vs[1..];
    ListAppend([vs[0]], vs[1..]);
    assert [vs[0]][..0] == [] && List([]) == [];
  }

  function Weight(vs: seq<Val>): nat
    decreases vs, 0
  {
    if vs == [] then 0 else WeightOne(vs[0]) + Weight(vs[1..])
  }

  function WeightOne(v: Val): (n: nat)
    ensures n > 0
    decreases v, 1
  {
    if v.Atom? then 1 else 1 + Weight(v.kids)
  }

  /** Two lists of equally many values whose listings begin the same token array are equal. */
  lemma {:induction false} SameWidthDetermines(vs: seq<Val>, ws: seq<Val>, a: seq<Tok>, b: seq<Tok>)
    requires Marked(vs) && Marked(ws) && |vs| == |ws| && List(vs) + a == List(ws) + b
    ensures vs == ws && a == b
    decreases Weight(vs), 2
  {
    if vs == [] {
      assert List([]) == [] && [] + a == a && [] + b == b;
    } else {
      var ra, rb := List(vs[1..]) + a, List(ws[1..]) + b;
      ListFirstOf(vs, a);
      ListFirstOf(ws, b);
      WeightFirst(vs);
      FirstDetermined(vs[0], ws[0], ra, rb);
      SameWidthDetermines(vs[1..], ws[1..], a, b);
      assert vs == [vs[0]] + vs[1..] && ws == [ws[0]] + ws[1..];
    }
  }

  lemma {:induction false} FirstDetermined(v: Val, w: Val, a: seq<Tok>, b: seq<Tok>)
    requires MarkedOne(v) && MarkedOne(w) && ListOne(v) + a == ListOne(w) + b
    ensures v == w && a == b
    decreases WeightOne(v), 1
  {
    assert (ListOne(v) + a)[0] == Head(v) && (ListOne(w) + b)[0] == Head(w);
    ListTail(v, a);
    ListTail(w, b);
    if v.Group? {
      SameWidthDetermines(v.kids, w.kids, a, b);
    }
  }

  lemma WeightFirst(vs: seq<Val>)
    requires vs != []
    ensures Weight(vs) >= WeightOne(vs[0]) && Weight(vs) > Weight(vs[1..])
  {
  }

  lemma {:induction false} ListFirstOf(vs: seq<Val>, a: seq<Tok>)
    requires vs != []
    ensures List(vs) + a == ListOne(vs[0]) + (List(vs[1..]) + a)
  {
    ListFirst(vs);
  }

  /** Types, spans and child counts in preorder determine the forest. */
  lemma {:induction false} ListDetermines(vs: seq<Val>, ws: seq<Val>)
    requires Marked(vs) && Marked(ws) && List(vs) == List(ws)
    ensures vs == ws
    decreases |vs|
  {
    assert List([]) == [];
    if vs != [] {
      ListFirst(vs);
      if ws != [] {
        ListFirst(ws);
        FirstDetermined(vs[0], ws[0], List(vs[1..]), List(ws[1..]));
        ListDetermines(vs[1..], ws[1..]);
        assert vs == [vs[0]] + vs[1..] && ws == [ws[0]] + ws[1..];
      }
    } else if ws != [] {
      ListFirst(ws);
      assert false;
    }
  }

  lemma {:induction false} ListTail(v: Val, rest: seq<Tok>)
    ensures (ListOne(v) + rest)[1..] == (if v.Atom? then [] else List(v.kids)) + rest
    ensures v.Atom? ==> (ListOne(v) + rest)[1..] == rest
  {
  }

  /** At most one forest lies over a text. */
  lemma {:induction false} ForestUnique(js: string, vs: seq<Val>, ws: seq<Val>, n: nat, m: nat)
    requires IsForest(js, vs, n) && IsForest(js, ws, m)
    ensures n == m && vs == ws
  {
    var cap := |List(vs)| + |List(ws)|;
    ForestAccepted(js, vs, n, cap);
    ForestAccepted(js, ws, m, cap);
    ForestMarked(js, vs, 0, n);
    ForestMarked(js, ws, 0, m);
    ListDetermines(vs, ws);
  }
}
