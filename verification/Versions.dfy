/** Copy-on-write as btree.h:18-24 promises it: over the append-only allocator every root ever
    returned goes on denoting the map it denoted when it was returned. */
module Versions {
  import opened Words
  import opened StoreModel
  import opened PageModel
  import opened StoreSteps
  import opened BTreeModel
  import opened Placement
  import opened BTreeAdd
  import opened Forest
  import BTreeApi

  /** The map after a list of additions. */
  function MapAfter(m: map<word, word>, es: seq<Entry>): map<word, word> {
    if es == [] then m else
      var last := es[|es| - 1];
      Put(MapAfter(m, es[..|es| - 1]), last.0, last.1)
  }

  /** Keys below 2^63, all new to the tree and to one another. */
  predicate NewKeys(m: map<word, word>, es: seq<Entry>) {
    Distinct(es) && forall i :: 0 <= i < |es| ==> es[i].0 < TWO63 && es[i].0 !in m
  }

  lemma {:induction false} StillNew(m: map<word, word>, es: seq<Entry>, i: nat, j: nat)
    requires NewKeys(m, es) && j <= i < |es|
    ensures es[i].0 !in MapAfter(m, es[..j])
  {
    if j > 0 {
      StillNew(m, es, i, j - 1);
      assert es[..j][..j - 1] == es[..j - 1];
    }
  }

  lemma {:induction false} MapNext(m: map<word, word>, es: seq<Entry>, j: nat, j1: nat)
    requires j < |es| && j1 == j + 1
    ensures MapAfter(m, es[..j1]) == Put(MapAfter(m, es[..j]), es[j].0, es[j].1)
  {
    assert es[..j1][..j] == es[..j];
  }

  /** Every version is stored whole on pages that are live or retired. */
  ghost predicate Kept(a: Snap, unit: nat, vs: seq<Live>) {
    && AllStanding(a.mem, unit, vs)
    && forall i :: 0 <= i < |vs| ==> Pages(vs[i].loc) <= a.owned + a.retired
  }

  lemma {:induction false} PagesStay(a: Snap, b: Snap, unit: nat)
    requires unit > 0 && Balanced(a, unit, false) && Balanced(b, unit, false) && b.free == []
    requires PagesGrow(a.end, b.end, unit)
    ensures a.owned + a.retired <= b.owned + b.retired
  {
  }

  lemma {:induction false} KeptOn(a: Snap, b: Snap, unit: nat, vs: seq<Live>, gone: set<nat>, taken: set<nat>,
                                  written: set<nat>)
    requires unit > 0 && Balanced(a, unit, false) && Balanced(b, unit, false) && b.free == []
    requires Kept(a, unit, vs) && Step(a, b, unit, false, gone, taken, written)
    ensures Kept(b, unit, vs)
  {
    PagesStay(a, b, unit);
    forall i | 0 <= i < |vs|
      ensures Standing(b.mem, unit, vs[i])
    {
      BTreeApi.AppendOnlyKeepsOldRoots(a, b, unit, vs[i].node, vs[i].loc, gone, taken, written);
    }
  }

  ghost predicate Latest(s: Store, root: word, t: Live)
    reads s
  {
    Rooted(s, t.node, t.loc, true) && Standing(s.mem, s.unit, t) && root == t.loc.addr
  }

  /** One addition on top of kept versions. */
  method AddVersion(s: Store, root: word, key: word, val: word, ghost vs: seq<Live>, ghost t: Live, ghost h: nat,
                    ghost h1: nat)
    returns (root': word, ghost t': Live)
    requires Latest(s, root, t) && s.unit == DEF_PAGE_SIZE && !s.reuse && t.height <= h && h1 == h + 1
    requires Kept(s.Now(), s.unit, vs) && key < TWO63 && key !in Model(t.node)
    requires s.end + Room(s.unit, h) + s.unit < TWO64
    modifies s
    ensures Latest(s, root', t') && t'.height <= h1 && Model(t'.node) == Put(Model(t.node), key, val)
    ensures Kept(s.Now(), s.unit, vs)
    ensures s.end <= old(s.end) + Room(s.unit, h) + s.unit
  {
    ghost var s0, n, k, l, written := s.Now(), t.node, t.height, t.loc, {};
    RoomGrows(s.unit, k, h);
    AddCorrect(n, s.unit, k, key, val);
    root', l, written := BTreeApi.Add(s, root, key, val, n, l, k);
    t' := Live(BTreeModel.Add(n, s.unit, key, val), l, if Grow(n, s.unit, key, val).One? then k else k + 1);
    KeptOn(s0, s.Now(), s.unit, vs, Pages(t.loc), Pages(l), written);
  }

  ghost predicate Denote(vs: seq<Live>, m: map<word, word>, es: seq<Entry>)
    requires AllShaped(vs) && |vs| <= |es| + 1
  {
    forall j :: 0 <= j < |vs| ==> Model(vs[j].node) == MapAfter(m, es[..j])
  }

  lemma {:induction false} DenoteNext(vs: seq<Live>, m: map<word, word>, es: seq<Entry>, t: Live)
    requires AllShaped(vs) && |vs| <= |es| && Denote(vs, m, es)
    requires Shaped(t.node) && Model(t.node) == MapAfter(m, es[..|vs|])
    ensures AllShaped(vs + [t]) && Denote(vs + [t], m, es)
  {
  }

  /** What is known of the versions so far. */
  ghost predicate Chronicle(a: Snap, unit: nat, roots: seq<word>, vs: seq<Live>, m: map<word, word>, es: seq<Entry>) {
    && 0 < |vs| <= |es| + 1 && Tracks(roots, vs) && Kept(a, unit, vs) && AllShaped(vs) && Denote(vs, m, es)
  }

  lemma {:induction false} FirstVersion(s: Store, root: word, t: Live, es: seq<Entry>)
    requires Latest(s, root, t)
    ensures Chronicle(s.Now(), s.unit, [root], [t], Model(t.node), es)
    ensures MapAfter(Model(t.node), es[..0]) == Model(t.node)
  {
    assert es[..0] == [];
  }

  lemma {:induction false} NextVersion(s: Store, root: word, t: Live, roots: seq<word>, vs: seq<Live>,
                                       m: map<word, word>, es: seq<Entry>)
    requires 0 < |vs| <= |es| && Tracks(roots, vs) && Kept(s.Now(), s.unit, vs) && AllShaped(vs) && Denote(vs, m, es)
    requires Latest(s, root, t) && Model(t.node) == MapAfter(m, es[..|vs|])
    ensures Chronicle(s.Now(), s.unit, roots + [root], vs + [t], m, es)
  {
    DenoteNext(vs, m, es, t);
  }

  lemma {:induction false} NeedNext(unit: nat, h: nat, n: nat, h1: nat, n1: nat)
    requires h1 == h + 1 && n == n1 + 1
    ensures Need(unit, h, n) == Room(unit, h) + unit + Need(unit, h1, n1)
  {
  }

  /** A run of additions that keeps every root: at its end each of them denotes its own map. */
  method History(s: Store, root: word, es: seq<Entry>, ghost t0: Live)
    returns (roots: seq<word>, ghost vs: seq<Live>)
    requires Latest(s, root, t0) && s.unit == DEF_PAGE_SIZE && !s.reuse && NewKeys(Model(t0.node), es)
    requires s.end + Need(s.unit, t0.height, |es|) < TWO64
    modifies s
    ensures s.Paged() && |vs| == |es| + 1 && vs[0] == t0 && Chronicle(s.Now(), s.unit, roots, vs, Model(t0.node), es)
  {
    ghost var m, h, t, left := Model(t0.node), t0.height, t0, |es|;
    var last, j := root, 0;
    roots, vs := [root], [t0];
    FirstVersion(s, root, t0, es);
    while j < |es|
      invariant j <= |es| && |vs| == j + 1 && vs[0] == t0 && left == |es| - j
      invariant Latest(s, last, t) && t.height <= h && Model(t.node) == MapAfter(m, es[..j])
      invariant Chronicle(s.Now(), s.unit, roots, vs, m, es)
      invariant s.end + Need(s.unit, h, left) < TWO64
    {
      ghost var j1, h1, left1 := j + 1, h + 1, left - 1;
      StillNew(m, es, j, j);
      MapNext(m, es, j, j1);
      NeedNext(s.unit, h, left, h1, left1);
      last, t := AddVersion(s, last, es[j].0, es[j].1, vs, t, h, h1);
      NextVersion(s, last, t, roots, vs, m, es);
      roots, vs := roots + [last], vs + [t];
      j, h, left := j + 1, h1, left1;
    }
  }
}
