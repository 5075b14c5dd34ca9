/** Where a tree lies in the store: `Loc` mirrors `Node` with the address of every page. */
module Placement {
  import opened Words
  import opened StoreModel
  import opened PageModel
  import opened BTreeModel
  import opened BTree

  datatype Loc = Loc(addr: word, subs: seq<Loc>)

  // ---- The pages of a tree ----

  ghost function Pages(l: Loc): set<nat>
    decreases l, 1
  {
    {l.addr} + PagesOf(l.subs)
  }

  ghost function PagesOf(ls: seq<Loc>): set<nat>
    decreases ls, 0
  {
    if ls == [] then {} else Pages(ls[0]) + PagesOf(ls[1..])
  }

  /** No page is reached twice. */
  ghost predicate Separate(l: Loc)
    decreases l, 1
  {
    l.addr !in PagesOf(l.subs) && SeparateAll(l.subs)
  }

  ghost predicate SeparateAll(ls: seq<Loc>)
    decreases ls, 0
  {
    ls == [] || (Separate(ls[0]) && SeparateAll(ls[1..]) && Pages(ls[0]) !! PagesOf(ls[1..]))
  }

  function Addrs(ls: seq<Loc>): (ps: seq<word>)
    ensures |ps| == |ls|
    ensures forall i :: 0 <= i < |ls| ==> ps[i] == ls[i].addr
  {
    seq(|ls|, i requires 0 <= i < |ls| => ls[i].addr)
  }

  lemma {:induction false} PagesAppend(a: seq<Loc>, b: seq<Loc>)
    ensures PagesOf(a + b) == PagesOf(a) + PagesOf(b)
  {
    if a == [] {
      assert a + b == b;
    } else {
      assert (a + b)[1..] == a[1..] + b;
      PagesAppend(a[1..], b);
    }
  }

  lemma {:induction false} SeparateAppend(a: seq<Loc>, b: seq<Loc>)
    ensures SeparateAll(a + b) <==> SeparateAll(a) && SeparateAll(b) && PagesOf(a) !! PagesOf(b)
  {
    if a == [] {
      assert a + b == b;
    } else {
      assert (a + b)[1..] == a[1..] + b;
      SeparateAppend(a[1..], b);
      PagesAppend(a[1..], b);
    }
  }

  lemma {:induction false} PagesOne(l: Loc)
    ensures PagesOf([l]) == Pages(l) && (SeparateAll([l]) <==> Separate(l))
  {
    assert [l][1..] == [];
  }

  /** A list of subtrees with the one at `i` replaced by several. */
  function Replace<T>(a: seq<T>, i: nat, parts: seq<T>): seq<T>
    requires i < |a|
  {
    a[..i] + parts + a[i + 1..]
  }

  lemma {:induction false} PagesReplace(subs: seq<Loc>, i: nat, ls: seq<Loc>)
    requires i < |subs|
    ensures PagesOf(Replace(subs, i, ls)) == PagesOf(subs[..i]) + PagesOf(ls) + PagesOf(subs[i + 1..])
    ensures SeparateAll(Replace(subs, i, ls)) <==>
              && SeparateAll(subs[..i]) && SeparateAll(ls) && SeparateAll(subs[i + 1..])
              && PagesOf(subs[..i]) !! PagesOf(ls) && PagesOf(subs[..i]) !! PagesOf(subs[i + 1..])
              && PagesOf(ls) !! PagesOf(subs[i + 1..])
  {
    PagesAppend(subs[..i] + ls, subs[i + 1..]);
    PagesAppend(subs[..i], ls);
    SeparateAppend(subs[..i] + ls, subs[i + 1..]);
    SeparateAppend(subs[..i], ls);
  }

  lemma {:induction false} PagesSplit(subs: seq<Loc>, i: nat)
    requires i < |subs|
    ensures PagesOf(subs) == PagesOf(subs[..i]) + Pages(subs[i]) + PagesOf(subs[i + 1..])
    ensures SeparateAll(subs) <==>
              && SeparateAll(subs[..i]) && Separate(subs[i]) && SeparateAll(subs[i + 1..])
              && PagesOf(subs[..i]) !! Pages(subs[i]) && PagesOf(subs[..i]) !! PagesOf(subs[i + 1..])
              && Pages(subs[i]) !! PagesOf(subs[i + 1..])
  {
    assert subs == Replace(subs, i, [subs[i]]);
    PagesReplace(subs, i, [subs[i]]);
    PagesOne(subs[i]);
  }

  lemma {:induction false} PagesInside(subs: seq<Loc>, i: nat)
    requires i < |subs|
    ensures Pages(subs[i]) <= PagesOf(subs)
  {
    PagesSplit(subs, i);
  }

  /** Different subtrees share no page. */
  lemma {:induction false} Apart(ls: seq<Loc>, i: nat, j: nat)
    requires SeparateAll(ls) && i < |ls| && j < |ls| && i != j
    ensures Pages(ls[i]) !! Pages(ls[j]) && Pages(ls[j]) <= PagesOf(ls)
  {
    PagesInside(ls, j);
    PagesSplit(ls, i);
    if j < i {
      PagesInside(ls[..i], j);
    } else {
      PagesInside(ls[i + 1..], j - i - 1);
    }
  }

  // ---- A tree on pages ----

  function FlagsOf(n: Node, top: bool): nat {
    (if n.Leaf? then LEAF else 0) + (if top then ROOT else 0)
  }

  /** The pages of `l` hold the tree `n`; only the top page of a whole tree carries the root flag. */
  ghost predicate Stored(mem: seq<byte>, unit: nat, n: Node, l: Loc, top: bool)
    decreases n
  {
    match n
    case Leaf(keys, vals) =>
      && l.subs == [] && |keys| == |vals|
      && Held(mem, unit, l.addr, FlagsOf(n, top), keys, vals)
    case Branch(keys, kids) =>
      && |kids| == |l.subs| == |keys| + 1
      && Held(mem, unit, l.addr, FlagsOf(n, top), Addrs(l.subs), keys)
      && forall i :: 0 <= i < |kids| ==> Stored(mem, unit, kids[i], l.subs[i], false)
  }

  ghost predicate StoredAll(mem: seq<byte>, unit: nat, ns: seq<Node>, ls: seq<Loc>) {
    |ns| == |ls| && forall i :: 0 <= i < |ns| ==> Stored(mem, unit, ns[i], ls[i], false)
  }

  ghost predicate AllPages(ps: set<nat>, end: nat, unit: nat)
    requires unit > 0
  {
    forall p :: p in ps ==> IsPage(p, end, unit)
  }

  /** A tree none of whose pages is written stays stored. */
  lemma {:induction false} StoredKept(m0: seq<byte>, m1: seq<byte>, unit: nat, end: nat, written: set<nat>,
                                      n: Node, l: Loc, top: bool)
    requires unit > 0 && Stored(m0, unit, n, l, top) && Untouched(m0, m1, unit, end, written)
    requires AllPages(Pages(l), end, unit) && Pages(l) !! written
    ensures Stored(m1, unit, n, l, top)
    decreases n
  {
    assert l.addr in Pages(l);
    match n
    case Leaf(keys, vals) =>
      HeldKept(m0, m1, unit, end, written, l.addr, FlagsOf(n, top), keys, vals);
    case Branch(keys, kids) =>
      HeldKept(m0, m1, unit, end, written, l.addr, FlagsOf(n, top), Addrs(l.subs), keys);
      forall i | 0 <= i < |kids|
        ensures Stored(m1, unit, kids[i], l.subs[i], false)
      {
        PagesInside(l.subs, i);
        StoredKept(m0, m1, unit, end, written, kids[i], l.subs[i], false);
      }
  }
}
