/** What the token array of an accepted text looks like without the tree: starts strictly increase,
    spans are nested or disjoint, and each token's `size` counts the tokens directly inside it. */
module JsmnSpans {
  import opened JsmnModel
  import opened JsmnTree
  import opened JsmnText

  predicate SpansIn(toks: seq<Tok>, lo: nat, hi: nat) {
    forall i :: 0 <= i < |toks| ==> lo <= toks[i].start <= toks[i].end <= hi && toks[i].start < hi
  }

  predicate Apart(s: Tok, t: Tok) {
    s.start < t.start && (t.end <= s.end || s.end <= t.start)
  }

  /** Each later token starts later, and lies inside or behind each earlier one. */
  predicate Ordered(toks: seq<Tok>) {
    forall i, j :: 0 <= i < j < |toks| ==> Apart(toks[i], toks[j])
  }

  /** The spans after `i` and before `j` all end before token `j` starts. */
  predicate Between(toks: seq<Tok>, i: int, j: nat)
    requires -1 <= i && j < |toks|
  {
    forall k :: i < k < j ==> toks[k].end <= toks[j].start
  }

  /** Token `i`, or the text itself when `i` is -1, is the innermost span around token `j`. */
  predicate IsParent(toks: seq<Tok>, i: int, j: nat)
    requires -1 <= i < |toks| && j < |toks|
  {
    i < j && (i >= 0 ==> toks[i].end > toks[j].start) && Between(toks, i, j)
  }

  /** How many of the first `n` tokens have `i` for a parent. */
  function Children(toks: seq<Tok>, i: int, n: nat): nat
    requires -1 <= i < |toks| && n <= |toks|
  {
    if n == 0 then 0 else Children(toks, i, n - 1) + if IsParent(toks, i, n - 1) then 1 else 0
  }

  predicate Sized(toks: seq<Tok>) {
    forall i :: 0 <= i < |toks| ==> toks[i].size == Children(toks, i, |toks|)
  }

  /** A stretch of a token array: ordered, sized, and `width` tokens not inside any other. */
  predicate Stretch(toks: seq<Tok>, lo: nat, hi: nat, width: nat) {
    SpansIn(toks, lo, hi) && Ordered(toks) && Sized(toks) && Children(toks, -1, |toks|) == width
  }

  // ---- Two stretches side by side ----

  lemma {:induction false} ParentLeft(a: seq<Tok>, b: seq<Tok>, i: int, j: nat)
    requires -1 <= i < |a| && j < |a|
    ensures IsParent(a + b, i, j) <==> IsParent(a, i, j)
  {
    var ts := a + b;
    if IsParent(a, i, j) {
      assert forall k :: i < k < j ==> ts[k] == a[k];
    }
    if IsParent(ts, i, j) {
      assert forall k :: i < k < j ==> a[k] == ts[k];
    }
  }

  lemma {:induction false} ChildrenOfPrefix(a: seq<Tok>, b: seq<Tok>, i: int, n: nat)
    requires -1 <= i < |a| && n <= |a|
    ensures Children(a + b, i, n) == Children(a, i, n)
  {
    if n > 0 {
      ChildrenOfPrefix(a, b, i, n - 1);
      ParentLeft(a, b, i, n - 1);
    }
  }

  /** No token of the right stretch is inside a token of the left one. */
  lemma {:induction false} ChildrenAcross(a: seq<Tok>, b: seq<Tok>, lo: nat, mid: nat, hi: nat, i: nat, n: nat)
    requires SpansIn(a, lo, mid) && SpansIn(b, mid, hi) && i < |a| && n <= |b|
    ensures Children(a + b, i, |a| + n) == Children(a, i, |a|)
  {
    if n == 0 {
      ChildrenOfPrefix(a, b, i, |a|);
    } else {
      ChildrenAcross(a, b, lo, mid, hi, i, n - 1);
    }
  }

  lemma {:induction false} ParentRight(a: seq<Tok>, b: seq<Tok>, lo: nat, mid: nat, hi: nat, i: nat, j: nat)
    requires SpansIn(a, lo, mid) && SpansIn(b, mid, hi) && i < |b| && j < |b|
    ensures IsParent(a + b, |a| + i, |a| + j) <==> IsParent(b, i, j)
    ensures IsParent(a + b, -1, |a| + j) <==> IsParent(b, -1, j)
  {
    var ts := a + b;
    assert ts[|a| + j] == b[j] && ts[|a| + i] == b[i];
    assert forall k :: 0 <= k < |b| ==> ts[|a| + k] == b[k];
    if IsParent(b, i, j) {
      assert forall k :: |a| + i < k < |a| + j ==> ts[k] == b[k - |a|];
    }
    if IsParent(b, -1, j) {
      assert forall k :: 0 <= k < |a| + j ==> ts[k] == if k < |a| then a[k] else b[k - |a|];
    }
  }

  lemma {:induction false} ChildrenRight(a: seq<Tok>, b: seq<Tok>, lo: nat, mid: nat, hi: nat, i: nat, n: nat)
    requires SpansIn(a, lo, mid) && SpansIn(b, mid, hi) && i < |b| && n <= |b|
    ensures Children(a + b, |a| + i, |a| + n) == Children(b, i, n)
  {
    if n > 0 {
      ChildrenRight(a, b, lo, mid, hi, i, n - 1);
      ParentRight(a, b, lo, mid, hi, i, n - 1);
    } else {
      NoneBefore(a + b, |a| + i, |a|);
    }
  }

  lemma {:induction false} NoneBefore(toks: seq<Tok>, i: nat, n: nat)
    requires n <= i < |toks|
    ensures Children(toks, i, n) == 0
  {
    if n > 0 {
      NoneBefore(toks, i, n - 1);
    }
  }

  lemma {:induction false} RootsAdd(a: seq<Tok>, b: seq<Tok>, lo: nat, mid: nat, hi: nat, n: nat)
    requires SpansIn(a, lo, mid) && SpansIn(b, mid, hi) && n <= |b|
    ensures Children(a + b, -1, |a| + n) == Children(a, -1, |a|) + Children(b, -1, n)
  {
    if n == 0 {
      ChildrenOfPrefix(a, b, -1, |a|);
    } else {
      RootsAdd(a, b, lo, mid, hi, n - 1);
      ParentRight(a, b, lo, mid, hi, n - 1, n - 1);
    }
  }

  lemma {:induction false} OrderedBeside(a: seq<Tok>, b: seq<Tok>, lo: nat, mid: nat, hi: nat)
    requires SpansIn(a, lo, mid) && SpansIn(b, mid, hi) && lo <= mid <= hi && Ordered(a) && Ordered(b)
    ensures SpansIn(a + b, lo, hi) && Ordered(a + b)
  {
    var ts := a + b;
    forall i, j | 0 <= i < j < |ts|
      ensures Apart(ts[i], ts[j])
    {
      if j < |a| {
        assert Apart(a[i], a[j]);
      } else if i >= |a| {
        assert Apart(b[i - |a|], b[j - |a|]);
      }
    }
  }

  lemma {:induction false} SizedBeside(a: seq<Tok>, b: seq<Tok>, lo: nat, mid: nat, hi: nat)
    requires SpansIn(a, lo, mid) && SpansIn(b, mid, hi) && Sized(a) && Sized(b)
    ensures Sized(a + b)
  {
    var ts := a + b;
    forall i | 0 <= i < |ts|
      ensures ts[i].size == Children(ts, i, |ts|)
    {
      if i < |a| {
        ChildrenAcross(a, b, lo, mid, hi, i, |b|);
      } else {
        ChildrenRight(a, b, lo, mid, hi, i - |a|, |b|);
      }
    }
  }

  lemma {:induction false} RootsBeside(a: seq<Tok>, b: seq<Tok>, lo: nat, mid: nat, hi: nat, w: nat, x: nat, wx: nat)
    requires SpansIn(a, lo, mid) && SpansIn(b, mid, hi) && wx == w + x
    requires Children(a, -1, |a|) == w && Children(b, -1, |b|) == x
    ensures Children(a + b, -1, |a + b|) == wx
  {
    RootsAdd(a, b, lo, mid, hi, |b|);
  }

  lemma {:induction false} Beside(a: seq<Tok>, b: seq<Tok>, lo: nat, mid: nat, hi: nat, w: nat, x: nat, wx: nat)
    requires Stretch(a, lo, mid, w) && Stretch(b, mid, hi, x) && lo <= mid <= hi && wx == w + x
    ensures Stretch(a + b, lo, hi, wx)
  {
    OrderedBeside(a, b, lo, mid, hi);
    SizedBeside(a, b, lo, mid, hi);
    RootsBeside(a, b, lo, mid, hi, w, x, wx);
  }

  // ---- A token around a stretch ----

  lemma {:induction false} ParentUnder(t: Tok, b: seq<Tok>, lo: nat, hi: nat, i: nat, j: nat)
    requires SpansIn(b, lo, hi) && t.end > hi && i < |b| && j < |b|
    ensures IsParent([t] + b, 1 + i, 1 + j) <==> IsParent(b, i, j)
  {
    var ts := [t] + b;
    assert forall k :: 0 <= k < |b| ==> ts[1 + k] == b[k];
    if IsParent(b, i, j) {
      assert forall k :: 1 + i < k < 1 + j ==> ts[k] == b[k - 1];
    }
  }

  lemma {:induction false} ParentRoot(t: Tok, b: seq<Tok>, lo: nat, hi: nat, j: nat)
    requires SpansIn(b, lo, hi) && t.end > hi && j < |b|
    ensures IsParent([t] + b, 0, 1 + j) <==> IsParent(b, -1, j)
    ensures !IsParent([t] + b, -1, 1 + j)
  {
    var ts := [t] + b;
    assert forall k :: 0 <= k < |b| ==> ts[1 + k] == b[k];
    assert ts[0].end > ts[1 + j].start;
    if IsParent(b, -1, j) {
      assert forall k :: 0 < k < 1 + j ==> ts[k] == b[k - 1];
    }
  }

  lemma {:induction false} ChildrenUnder(t: Tok, b: seq<Tok>, lo: nat, hi: nat, i: int, n: nat)
    requires SpansIn(b, lo, hi) && t.end > hi && -1 <= i < |b| && n <= |b|
    ensures Children([t] + b, 1 + i, 1 + n) == Children(b, i, n)
    ensures Children([t] + b, -1, 1 + n) == 1
  {
    if n > 0 {
      ChildrenUnder(t, b, lo, hi, i, n - 1);
      ParentRoot(t, b, lo, hi, n - 1);
      if i >= 0 {
        ParentUnder(t, b, lo, hi, i, n - 1);
      }
    } else {
      assert Children([t] + b, 1 + i, 0) == 0 && Children([t] + b, -1, 0) == 0;
    }
  }

  lemma {:induction false} SizedUnder(t: Tok, b: seq<Tok>, lo: nat, hi: nat)
    requires SpansIn(b, lo, hi) && t.end > hi && Sized(b) && t.size == Children(b, -1, |b|)
    ensures Sized([t] + b)
  {
    var ts := [t] + b;
    forall i | 0 <= i < |ts|
      ensures ts[i].size == Children(ts, i, |ts|)
    {
      ChildrenUnder(t, b, lo, hi, i - 1, |b|);
    }
  }

  lemma {:induction false} OrderedUnder(t: Tok, b: seq<Tok>, lo: nat, hi: nat)
    requires SpansIn(b, lo, hi) && Ordered(b) && 0 <= t.start < lo <= hi < t.end
    ensures Ordered([t] + b)
  {
    var ts := [t] + b;
    forall i, j | 0 <= i < j < |ts|
      ensures Apart(ts[i], ts[j])
    {
      if i > 0 {
        assert Apart(b[i - 1], b[j - 1]);
      }
    }
  }

  lemma {:induction false} SpansUnder(t: Tok, b: seq<Tok>, lo: nat, hi: nat, start: nat, end: nat)
    requires SpansIn(b, lo, hi) && start == t.start < lo <= hi < t.end == end
    ensures SpansIn([t] + b, start, end)
  {
  }

  lemma {:induction false} Under(t: Tok, b: seq<Tok>, lo: nat, hi: nat, w: nat)
    requires Stretch(b, lo, hi, w) && 0 <= t.start < lo <= hi < t.end && t.size == w
    ensures Stretch([t] + b, t.start, t.end, 1)
  {
    ChildrenUnder(t, b, lo, hi, -1, |b|);
    SizedUnder(t, b, lo, hi);
    OrderedUnder(t, b, lo, hi);
    SpansUnder(t, b, lo, hi, t.start, t.end);
  }

  lemma {:induction false} Alone(t: Tok, lo: nat, hi: nat)
    requires lo <= t.start <= t.end <= hi && t.start < hi && t.size == 0
    ensures Stretch([t], lo, hi, 1)
  {
    assert Children([t], 0, 1) == Children([t], 0, 0) + 0;
    assert Children([t], -1, 1) == Children([t], -1, 0) + 1;
  }

  lemma {:induction false} Wider(toks: seq<Tok>, lo: nat, hi: nat, lo': nat, hi': nat, w: nat)
    requires Stretch(toks, lo, hi, w) && lo' <= lo && hi <= hi'
    ensures Stretch(toks, lo', hi', w)
  {
  }

  // ---- Forests ----

  lemma {:induction false} OneStretch(js: string, v: Val)
    requires IsText(js, v)
    ensures Stretch(ListOne(v), Begin(v), Stop(v), 1)
    decreases v, 1
  {
    TextBounds(js, v);
    if v.Atom? {
      Alone(Head(v), Begin(v), Stop(v));
    } else {
      var lo, hi := v.start + 1, v.end - 1;
      CoversBounds(js, v.kids, lo, hi);
      ForestStretch(js, v.kids, lo, hi);
      Under(Head(v), List(v.kids), lo, hi, |v.kids|);
    }
  }

  lemma {:induction false} ForestStretch(js: string, vs: seq<Val>, lo: nat, hi: nat)
    requires Covers(js, vs, lo, hi)
    ensures Stretch(List(vs), lo, hi, |vs|)
    decreases vs, 0
  {
    if vs != [] {
      var v, init := vs[|vs| - 1], vs[..|vs| - 1];
      var mid, stop := Begin(v), Stop(v);
      ForestStretch(js, init, lo, mid);
      OneStretch(js, v);
      CoversBounds(js, init, lo, mid);
      TextBounds(js, v);
      Beside(List(init), ListOne(v), lo, mid, stop, |init|, 1, |vs|);
      Wider(List(vs), lo, stop, lo, hi, |vs|);
    }
  }

  /** The token array of every accepted text. */
  lemma {:induction false} AcceptedTokens(js: string, cap: nat)
    requires Run(js, FRESH, cap, false).code == Fine
    ensures var o := Run(js, FRESH, cap, false);
            Ordered(o.st.toks) && Sized(o.st.toks) && SpansIn(o.st.toks, 0, o.st.pos) && o.st.super == -1
  {
    FreshIsEmpty();
    var p := EveryStop(js, 0, Top([]), cap);
    ForestStretch(js, p.vals, 0, Run(js, FRESH, cap, false).st.pos);
  }
}
