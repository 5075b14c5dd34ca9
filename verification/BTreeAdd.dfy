/** `btree_add` on the store: the recursion of btree.c, proved to put on pages exactly the tree
    `BTreeModel.Grow` builds, and to give up and take exactly the pages it says. */
module BTreeAdd {
  import opened Words
  import opened StoreModel
  import opened PageModel
  import opened PageOps
  import opened StoreSteps
  import opened BTreeModel
  import opened BTree
  import opened Placement

  /** The one or two pages that replace a page, as the two `page_p` out-parameters report them. */
  ghost predicate Placed(mem: seq<byte>, unit: nat, g: Grown, ls: seq<Loc>, top: bool,
                         mid: word, orig: nat, split: nat) {
    && SeparateAll(ls)
    && match g
       case One(n) =>
         && |ls| == 1 && orig == ls[0].addr && split == 0
         && Stored(mem, unit, n, ls[0], top)
       case Two(l, m, r) =>
         && |ls| == 2 && orig == ls[0].addr && split == ls[1].addr && split != 0 && mid == m
         && Stored(mem, unit, l, ls[0], false) && Stored(mem, unit, r, ls[1], false)
  }

  lemma {:induction false} PagesTwo(a: word, b: word)
    requires a != b
    ensures PagesOf([Loc(a, []), Loc(b, [])]) == {a, b} && SeparateAll([Loc(a, []), Loc(b, [])])
  {
    var ls := [Loc(a, []), Loc(b, [])];
    assert ls[1..] == [Loc(b, [])];
    PagesOne(Loc(b, []));
    LeafPages(a);
    LeafPages(b);
  }

  lemma LeafPages(a: word)
    ensures Pages(Loc(a, [])) == {a} && Separate(Loc(a, []))
    ensures PagesOf([Loc(a, [])]) == {a} && SeparateAll([Loc(a, [])])
  {
    PagesOne(Loc(a, []));
  }

  lemma RootCleared(n: Node, top: bool)
    ensures ClearRoot(FlagsOf(n, top)) == FlagsOf(n, false)
  {
  }

  lemma {:induction false} LeafStored(mem: seq<byte>, unit: nat, addr: word, keys: seq<word>, vals: seq<word>,
                                      top: bool)
    requires |keys| == |vals| && Held(mem, unit, addr, FlagsOf(Leaf(keys, vals), top), keys, vals)
    ensures Stored(mem, unit, Leaf(keys, vals), Loc(addr, []), top)
  {
  }

  lemma {:induction false} LeafPlacedOne(mem: seq<byte>, n: Node, unit: nat, key: word, val: word, top: bool,
                                         mid: word, copy: word)
    requires n.Leaf? && |n.keys| == |n.vals| && |n.keys| < LeafCap(unit) && unit >= 64
    requires var i := LeafIndex(n.keys, key);
             Held(mem, unit, copy, FlagsOf(n, top), Insert(n.keys, i, key), Insert(n.vals, i, val))
    ensures Placed(mem, unit, AddToLeaf(n, unit, key, val), [Loc(copy, [])], top, mid, copy, 0)
  {
    var i := LeafIndex(n.keys, key);
    LeafStored(mem, unit, copy, Insert(n.keys, i, key), Insert(n.vals, i, val), top);
    LeafPages(copy);
  }

  lemma {:induction false} HalvesMatch(keys: seq<word>, vals: seq<word>, i: nat, key: word, val: word)
    requires |keys| == |vals| >= 3 && i <= |keys|
    ensures |LeafLeft(keys, i, key)| == |LeafLeft(vals, i, val)|
    ensures |LeafRight(keys, i, key)| == |LeafRight(vals, i, val)|
  {
    var c := Median(|keys|, i);
    CopyInLength(keys, 0, c, i, key);
    CopyInLength(vals, 0, c, i, val);
    CopyInLength(keys, c, |keys|, i, key);
    CopyInLength(vals, c, |keys|, i, val);
  }

  lemma {:induction false} LeafPlacedTwo(mem: seq<byte>, n: Node, unit: nat, key: word, val: word, top: bool,
                                         orig: word, split: word)
    requires n.Leaf? && |n.keys| == |n.vals| && |n.keys| >= LeafCap(unit) && unit >= 64
    requires orig != split && split != 0
    requires var i := LeafIndex(n.keys, key);
             && Held(mem, unit, orig, FlagsOf(n, false), LeafLeft(n.keys, i, key), LeafLeft(n.vals, i, val))
             && Held(mem, unit, split, FlagsOf(n, false), LeafRight(n.keys, i, key), LeafRight(n.vals, i, val))
    ensures Placed(mem, unit, AddToLeaf(n, unit, key, val), [Loc(orig, []), Loc(split, [])], top,
                   n.keys[Median(|n.keys|, LeafIndex(n.keys, key))], orig, split)
  {
    var i := LeafIndex(n.keys, key);
    HalvesMatch(n.keys, n.vals, i, key, val);
    LeafStored(mem, unit, orig, LeafLeft(n.keys, i, key), LeafLeft(n.vals, i, val), false);
    LeafStored(mem, unit, split, LeafRight(n.keys, i, key), LeafRight(n.vals, i, val), false);
    PagesTwo(orig, split);
  }

  /** `btree_recur_add` at a leaf. */
  method RecurAddLeaf(s: Store, page: nat, key: word, val: word, ghost n: Node, ghost l: Loc, ghost top: bool)
    returns (mid: word, orig: nat, split: nat, ghost ls: seq<Loc>, ghost written: set<nat>)
    requires s.Paged() && page in s.owned && page == l.addr && 64 <= s.unit < MAX16
    requires n.Leaf? && Stored(s.mem, s.unit, n, l, top) && |n.keys| <= LeafCap(s.unit)
    requires key !in n.keys && key < TWO63 && forall k :: 0 <= k < |n.keys| ==> n.keys[k] < TWO63
    requires s.end + 2 * s.unit < TWO64
    modifies s
    ensures s.Paged()
    ensures Placed(s.mem, s.unit, AddToLeaf(n, s.unit, key, val), ls, top, mid, orig, split)
    ensures Step(old(s.Now()), s.Now(), s.unit, s.reuse, Pages(l), PagesOf(ls), written)
    ensures s.end <= old(s.end) + 2 * s.unit && |s.freeList| <= Max1(|old(s.freeList)|)
  {
    s.OwnedPage(page);
    LeafPages(l.addr);
    ghost var flags, i := FlagsOf(n, top), LeafIndex(n.keys, key);
    orig, split, mid := 0, 0, key;
    orig := LeafAdd(s, page, key, val, flags, n.keys, n.vals);
    if orig != 0 {
      ls, written := [Loc(orig, [])], {orig};
      LeafPages(orig);
      LeafPlacedOne(s.mem, n, s.unit, key, val, top, mid, orig);
      return;
    }
    KeyGetSmall(key);
    mid, orig, split := LeafSplit(s, page, key, val, flags, n.keys, n.vals);
    ls, written := [Loc(orig, []), Loc(split, [])], {orig, split};
    PagesTwo(orig, split);
    RootCleared(n, top);
    LeafPlacedTwo(s.mem, n, s.unit, key, val, top, orig, split);
  }

  // ---- At a branch, once the child has grown ----

  function Parts(g: Grown): seq<Node> {
    match g
    case One(n) => [n]
    case Two(l, _, r) => [l, r]
  }

  lemma {:induction false} StoredAllKept(m0: seq<byte>, m1: seq<byte>, unit: nat, end: nat, written: set<nat>,
                                         ns: seq<Node>, ls: seq<Loc>)
    requires unit > 0 && StoredAll(m0, unit, ns, ls) && Untouched(m0, m1, unit, end, written)
    requires AllPages(PagesOf(ls), end, unit) && PagesOf(ls) !! written
    ensures StoredAll(m1, unit, ns, ls)
  {
    forall i | 0 <= i < |ns|
      ensures Stored(m1, unit, ns[i], ls[i], false)
    {
      PagesInside(ls, i);
      StoredKept(m0, m1, unit, end, written, ns[i], ls[i], false);
    }
  }

  /** The addresses of the new children are the columns `BranchAdd` writes. */
  lemma {:induction false} AddrsPut(subs: seq<Loc>, i: nat, ls: seq<Loc>, orig: word, split: word)
    requires i < |subs|
    requires (split == 0 && |ls| == 1 && ls[0].addr == orig)
          || (split != 0 && |ls| == 2 && ls[0].addr == orig && ls[1].addr == split)
    ensures Addrs(Replace(subs, i, ls)) == PutPtrs(Addrs(subs), i, orig, split)
  {
    var l := Replace(subs, i, ls);
    var a := Addrs(l);
    var b := PutPtrs(Addrs(subs), i, orig, split);
    forall j | 0 <= j < |a|
      ensures a[j] == b[j]
    {
      assert a[j] == l[j].addr;
    }
  }

  lemma {:induction false} ReplaceOne<T>(a: seq<T>, i: nat, x: T)
    requires i < |a|
    ensures Replace(a, i, [x]) == a[i := x]
  {
  }

  lemma {:induction false} BranchStored(mem: seq<byte>, unit: nat, addr: word, keys: seq<word>, kids: seq<Node>,
                                        subs: seq<Loc>, top: bool)
    requires |kids| == |keys| + 1 && StoredAll(mem, unit, kids, subs)
    requires Held(mem, unit, addr, FlagsOf(Branch(keys, kids), top), Addrs(subs), keys)
    ensures Stored(mem, unit, Branch(keys, kids), Loc(addr, subs), top)
  {
  }

  lemma {:induction false} BranchPages(addr: word, subs: seq<Loc>)
    requires SeparateAll(subs) && addr !in PagesOf(subs)
    ensures PagesOf([Loc(addr, subs)]) == {addr} + PagesOf(subs) && SeparateAll([Loc(addr, subs)])
  {
    PagesOne(Loc(addr, subs));
  }

  lemma {:induction false} AddToBranchFits(n: Node, unit: nat, i: nat, g: Grown, mid: word, split: word)
    requires n.Branch? && |n.kids| == |n.keys| + 1 && i < |n.kids| && unit >= 64
    requires if g.One? then split == 0 else split != 0 && mid == g.mid && |n.keys| < BranchCap(unit)
    ensures AddToBranch(n, unit, i, g) == One(Branch(PutKeys(n.keys, i, mid, split), Replace(n.kids, i, Parts(g))))
  {
    if g.One? {
      ReplaceOne(n.kids, i, g.node);
    } else {
      assert Replace(n.kids, i, Parts(g)) == Spread(n.kids, i, g.left, g.right);
    }
  }

  lemma {:induction false} BranchPlacedOne(mem: seq<byte>, unit: nat, flags: nat, keys: seq<word>, kids: seq<Node>,
                                           subs: seq<Loc>, i: nat, kidLocs: seq<Loc>, top: bool,
                                           mid: word, orig: word, split: word, copy: word)
    requires i < |subs| && flags == FlagsOf(Branch(keys, kids), top) && |kids| == |keys| + 1
    requires (split == 0 && |kidLocs| == 1 && kidLocs[0].addr == orig)
          || (split != 0 && |kidLocs| == 2 && kidLocs[0].addr == orig && kidLocs[1].addr == split)
    requires var ls := Replace(subs, i, kidLocs);
             StoredAll(mem, unit, kids, ls) && SeparateAll(ls) && copy !in PagesOf(ls)
    requires |PutPtrs(Addrs(subs), i, orig, split)| == |keys| + 1
    requires Held(mem, unit, copy, flags, PutPtrs(Addrs(subs), i, orig, split), keys)
    ensures Placed(mem, unit, One(Branch(keys, kids)), [Loc(copy, Replace(subs, i, kidLocs))], top, mid, copy, 0)
  {
    var ls := Replace(subs, i, kidLocs);
    AddrsPut(subs, i, kidLocs, orig, split);
    BranchStored(mem, unit, copy, keys, kids, ls, top);
    BranchPages(copy, ls);
  }

  lemma {:induction false} LocsOf(mem: seq<byte>, unit: nat, g: Grown, ls: seq<Loc>, mid: word, orig: nat, split: nat)
    requires Placed(mem, unit, g, ls, false, mid, orig, split)
    ensures (split == 0 && |ls| == 1 && ls[0].addr == orig)
         || (split != 0 && |ls| == 2 && ls[0].addr == orig && ls[1].addr == split)
    ensures if g.One? then split == 0 else split != 0 && mid == g.mid
    ensures StoredAll(mem, unit, Parts(g), ls) && SeparateAll(ls)
  {
  }

  // ---- A split branch ----

  lemma {:induction false} AddrsCopyUp(subs: seq<Loc>, si: nat, ei: nat, i: nat, a: Loc, b: Loc)
    requires si <= ei < |subs| && i < |subs| && (CopiesUp(si, ei, i) ==> i <= ei)
    ensures Addrs(CopyUpKids(subs, si, ei, i, a, b)) == CopyUpKids(Addrs(subs), si, ei, i, a.addr, b.addr)
  {
    if CopiesUp(si, ei, i) {
      AddrsJoin(subs[si..i], [a, b], subs[i + 1..ei + 1]);
      AddrsSlice(subs, si, i);
      AddrsSlice(subs, i + 1, ei + 1);
      assert Addrs([a, b]) == [a.addr, b.addr];
    } else {
      AddrsSlice(subs, si, ei + 1);
    }
  }

  lemma {:induction false} AddrsJoin(a: seq<Loc>, m: seq<Loc>, b: seq<Loc>)
    ensures Addrs(a + m + b) == Addrs(a) + Addrs(m) + Addrs(b)
  {
  }

  lemma {:induction false} AddrsSlice(a: seq<Loc>, i: nat, j: nat)
    requires i <= j <= |a|
    ensures Addrs(a[i..j]) == Addrs(a)[i..j]
  {
  }

  lemma {:induction false} StoredSlice(mem: seq<byte>, unit: nat, ns: seq<Node>, ls: seq<Loc>, s: nat, e: nat)
    requires StoredAll(mem, unit, ns, ls) && s <= e <= |ns|
    ensures StoredAll(mem, unit, ns[s..e], ls[s..e])
  {
  }

  lemma {:induction false} SeparateCut(ls: seq<Loc>, p: nat)
    requires SeparateAll(ls) && p <= |ls|
    ensures SeparateAll(ls[0..p]) && SeparateAll(ls[p..|ls|]) && PagesOf(ls[0..p]) !! PagesOf(ls[p..|ls|])
    ensures PagesOf(ls) == PagesOf(ls[0..p]) + PagesOf(ls[p..|ls|])
  {
    assert ls == ls[0..p] + ls[p..|ls|];
    PagesAppend(ls[0..p], ls[p..|ls|]);
    SeparateAppend(ls[0..p], ls[p..|ls|]);
  }

  /** The two halves of a list of subtrees, with their nodes. */
  lemma {:induction false} HalvesStored(mem: seq<byte>, unit: nat, kids: seq<Node>, subs: seq<Loc>, i: nat,
                                        l: Node, r: Node, a: Loc, b: Loc, m: nat, m1: nat, k: nat)
    requires |kids| == |subs| >= 4 && i < |kids| && k == |kids| - 1 && m == Median(k, i) && m1 == m + 1
    requires StoredAll(mem, unit, Spread(kids, i, l, r), Spread(subs, i, a, b)) && SeparateAll(Spread(subs, i, a, b))
    ensures StoredAll(mem, unit, CopyUpKids(kids, 0, m, i, l, r), CopyUpKids(subs, 0, m, i, a, b))
    ensures StoredAll(mem, unit, CopyUpKids(kids, m1, k, i, l, r), CopyUpKids(subs, m1, k, i, a, b))
  {
    var p := CutPoint(k, i) + 1;
    CutKids(kids, i, l, r, m, m1, k, p);
    CutKids(subs, i, a, b, m, m1, k, p);
    var ns, ls := Spread(kids, i, l, r), Spread(subs, i, a, b);
    StoredSlice(mem, unit, ns, ls, 0, p);
    StoredSlice(mem, unit, ns, ls, p, |ns|);
  }

  lemma {:induction false} HalvesSeparate(subs: seq<Loc>, i: nat, a: Loc, b: Loc, m: nat, m1: nat, k: nat)
    requires |subs| >= 4 && i < |subs| && k == |subs| - 1 && m == Median(k, i) && m1 == m + 1
    requires SeparateAll(Spread(subs, i, a, b))
    ensures var sl, sr := CopyUpKids(subs, 0, m, i, a, b), CopyUpKids(subs, m1, k, i, a, b);
            && SeparateAll(sl) && SeparateAll(sr) && PagesOf(sl) !! PagesOf(sr)
            && PagesOf(Spread(subs, i, a, b)) == PagesOf(sl) + PagesOf(sr)
  {
    var p := CutPoint(k, i) + 1;
    CutKids(subs, i, a, b, m, m1, k, p);
    SeparateCut(Spread(subs, i, a, b), p);
  }

  lemma {:induction false} AddToBranchSplits(n: Node, unit: nat, i: nat, g: Grown, mid: word, m: nat, m1: nat, k: nat)
    requires n.Branch? && |n.kids| == |n.keys| + 1 && i < |n.kids| && unit >= 64
    requires g.Two? && mid == g.mid && |n.keys| >= BranchCap(unit)
    requires k == |n.keys| && m == Median(k, i) && m1 == m + 1
    ensures m < k
    ensures AddToBranch(n, unit, i, g)
            == Two(Branch(CopyUpKeys(n.keys, 0, m, i, mid), CopyUpKids(n.kids, 0, m, i, g.left, g.right)), n.keys[m],
                   Branch(CopyUpKeys(n.keys, m1, k, i, mid), CopyUpKids(n.kids, m1, k, i, g.left, g.right)))
  {
  }

  lemma {:induction false} PagesTwoBranches(left: word, sl: seq<Loc>, right: word, sr: seq<Loc>)
    requires SeparateAll(sl) && SeparateAll(sr) && PagesOf(sl) !! PagesOf(sr) && left != right
    requires left !in PagesOf(sl) + PagesOf(sr) && right !in PagesOf(sl) + PagesOf(sr)
    ensures SeparateAll([Loc(left, sl), Loc(right, sr)])
    ensures PagesOf([Loc(left, sl), Loc(right, sr)]) == {left, right} + (PagesOf(sl) + PagesOf(sr))
  {
    var a, b := Loc(left, sl), Loc(right, sr);
    assert [a, b] == [a] + [b];
    PagesOne(a);
    PagesOne(b);
    PagesAppend([a], [b]);
    SeparateAppend([a], [b]);
  }

  lemma {:induction false} BranchPlacedTwo(mem: seq<byte>, unit: nat, top: bool, up: word,
                                           left: word, lk: seq<word>, ln: seq<Node>, sl: seq<Loc>,
                                           right: word, rk: seq<word>, rn: seq<Node>, sr: seq<Loc>)
    requires |ln| == |lk| + 1 && |rn| == |rk| + 1 && left != right && right != 0
    requires StoredAll(mem, unit, ln, sl) && StoredAll(mem, unit, rn, sr)
    requires SeparateAll(sl) && SeparateAll(sr) && PagesOf(sl) !! PagesOf(sr)
    requires left !in PagesOf(sl) + PagesOf(sr) && right !in PagesOf(sl) + PagesOf(sr)
    requires Held(mem, unit, left, 0, Addrs(sl), lk) && Held(mem, unit, right, 0, Addrs(sr), rk)
    ensures Placed(mem, unit, Two(Branch(lk, ln), up, Branch(rk, rn)), [Loc(left, sl), Loc(right, sr)], top, up, left,
                   right)
  {
    PagesTwoBranches(left, sl, right, sr);
    BranchStored(mem, unit, left, lk, ln, sl, false);
    BranchStored(mem, unit, right, rk, rn, sr, false);
  }

  /** A branch with room: one page takes its place. */
  lemma {:induction false} BranchFits(mem: seq<byte>, unit: nat, n: Node, subs: seq<Loc>, i: nat, g: Grown,
                                      kidLocs: seq<Loc>,
                                      top: bool, mid: word, orig: word, split: word, copy: word)
    requires n.Branch? && |n.kids| == |n.keys| + 1 == |subs| && i < |n.kids| && unit >= 64
    requires if g.One? then split == 0 else split != 0 && mid == g.mid && |n.keys| < BranchCap(unit)
    requires (split == 0 && |kidLocs| == 1 && kidLocs[0].addr == orig)
          || (split != 0 && |kidLocs| == 2 && kidLocs[0].addr == orig && kidLocs[1].addr == split)
    requires var ls := Replace(subs, i, kidLocs);
             StoredAll(mem, unit, Replace(n.kids, i, Parts(g)), ls) && SeparateAll(ls) && copy !in PagesOf(ls)
    requires |PutPtrs(Addrs(subs), i, orig, split)| == |PutKeys(n.keys, i, mid, split)| + 1
    requires Held(mem, unit, copy, FlagsOf(n, top), PutPtrs(Addrs(subs), i, orig, split),
                  PutKeys(n.keys, i, mid, split))
    ensures var ls := [Loc(copy, Replace(subs, i, kidLocs))];
            Placed(mem, unit, AddToBranch(n, unit, i, g), ls, top, mid, copy, 0)
            && PagesOf(ls) == {copy} + PagesOf(Replace(subs, i, kidLocs))
  {
    var keys, kids := PutKeys(n.keys, i, mid, split), Replace(n.kids, i, Parts(g));
    AddToBranchFits(n, unit, i, g, mid, split);
    BranchPlacedOne(mem, unit, FlagsOf(n, top), keys, kids, subs, i, kidLocs, top, mid, orig, split, copy);
    BranchPages(copy, Replace(subs, i, kidLocs));
  }

  /** The branch page is as it was, and its children are stored with the one at `i` replaced by what it
      grew into. */
  ghost predicate Ripe(b: Snap, unit: nat, n: Node, l: Loc, top: bool, i: nat, g: Grown, kidLocs: seq<Loc>,
                       mid: word, orig: nat, split: nat)
    requires unit > 0 && n.Branch? && i < |n.kids| == |l.subs|
  {
    && l.addr in b.owned && IsPage(l.addr, b.end, unit)
    && Held(b.mem, unit, l.addr, FlagsOf(n, top), Addrs(l.subs), n.keys)
    && Placed(b.mem, unit, g, kidLocs, false, mid, orig, split)
    && var ls := Replace(l.subs, i, kidLocs);
    && StoredAll(b.mem, unit, Replace(n.kids, i, Parts(g)), ls)
    && SeparateAll(ls) && PagesOf(ls) <= b.owned - {l.addr}
  }

  /** The end of `btree_recur_add` at a branch: put the grown child back, splitting when there is no room. */
  method RecurAddBranch(s: Store, page: nat, index: nat, childMid: word, childOrig: word, childSplit: word,
                        ghost n: Node, ghost l: Loc, ghost top: bool, ghost i: nat, ghost g: Grown,
                        ghost kidLocs: seq<Loc>)
    returns (mid: word, orig: nat, split: nat, ghost ls: seq<Loc>, ghost tops: set<nat>)
    requires s.Paged() && page == l.addr && 64 <= s.unit < MAX16
    requires n.Branch? && |n.kids| == |n.keys| + 1 == |l.subs| && |n.keys| <= BranchCap(s.unit)
    requires i < |n.kids| && index == LeafOffset(i)
    requires Ripe(s.Now(), s.unit, n, l, top, i, g, kidLocs, childMid, childOrig, childSplit)
    requires s.end + 2 * s.unit < TWO64
    modifies s
    ensures s.Paged()
    ensures Placed(s.mem, s.unit, AddToBranch(n, s.unit, i, g), ls, top, mid, orig, split)
    ensures Step(old(s.Now()), s.Now(), s.unit, s.reuse, {page}, tops, tops)
    ensures PagesOf(ls) == tops + PagesOf(Replace(l.subs, i, kidLocs))
    ensures s.end <= old(s.end) + 2 * s.unit && |s.freeList| <= Max1(|old(s.freeList)|)
  {
    ghost var s0, flags := s.Now(), FlagsOf(n, top);
    ghost var ns, locs := Replace(n.kids, i, Parts(g)), Replace(l.subs, i, kidLocs);
    LocsOf(s.mem, s.unit, g, kidLocs, childMid, childOrig, childSplit);
    var copy := BranchAdd(s, page, index, childMid, childOrig, childSplit, flags, Addrs(l.subs), n.keys, i);
    if copy != 0 {
      mid, orig, split := childMid, copy, 0;
      ls, tops := [Loc(copy, locs)], {copy};
      KidsKept(s0, s.Now(), s.unit, s.reuse, page, {copy}, ns, locs);
      BranchFits(s.mem, s.unit, n, l.subs, i, g, kidLocs, top, mid, childOrig, childSplit, copy);
      return;
    }
    mid, orig, split, ls, tops := RecurSplitBranch(s, page, index, childMid, childOrig, childSplit, n, l, top, i, g,
                                                   kidLocs);
  }

  /** Stored subtrees that nobody gives up survive a step. */
  lemma {:induction false} KidsKept(a: Snap, b: Snap, unit: nat, reuse: bool, page: nat, tops: set<nat>,
                                    ns: seq<Node>, ls: seq<Loc>)
    requires unit > 0 && Balanced(a, unit, reuse) && Step(a, b, unit, reuse, {page}, tops, tops)
    requires StoredAll(a.mem, unit, ns, ls) && PagesOf(ls) <= a.owned - {page}
    ensures StoredAll(b.mem, unit, ns, ls) && PagesOf(ls) !! tops
  {
    assert AllPages(PagesOf(ls), a.end, unit);
    StoredAllKept(a.mem, b.mem, unit, a.end, tops, ns, ls);
  }

  method RecurSplitBranch(s: Store, page: nat, index: nat, childMid: word, childOrig: word, childSplit: word,
                          ghost n: Node, ghost l: Loc, ghost top: bool, ghost i: nat, ghost g: Grown,
                          ghost kidLocs: seq<Loc>)
    returns (mid: word, orig: nat, split: nat, ghost ls: seq<Loc>, ghost tops: set<nat>)
    requires s.Paged() && page == l.addr && 64 <= s.unit < MAX16
    requires n.Branch? && |n.kids| == |n.keys| + 1 == |l.subs| && |n.keys| == BranchCap(s.unit) && g.Two?
    requires i < |n.kids| && index == LeafOffset(i)
    requires Ripe(s.Now(), s.unit, n, l, top, i, g, kidLocs, childMid, childOrig, childSplit)
    requires s.end + 2 * s.unit < TWO64
    modifies s
    ensures s.Paged()
    ensures Placed(s.mem, s.unit, AddToBranch(n, s.unit, i, g), ls, top, mid, orig, split)
    ensures Step(old(s.Now()), s.Now(), s.unit, s.reuse, {page}, tops, tops)
    ensures PagesOf(ls) == tops + PagesOf(Replace(l.subs, i, kidLocs))
    ensures s.end <= old(s.end) + 2 * s.unit && |s.freeList| <= Max1(|old(s.freeList)|)
  {
    ghost var s0 := s.Now();
    ghost var ns, locs := Replace(n.kids, i, Parts(g)), Replace(l.subs, i, kidLocs);
    ghost var k, m := |n.keys|, Median(|n.keys|, i);
    ghost var m1 := m + 1;
    ghost var flags := FlagsOf(n, top);
    mid, orig, split := BranchSplit(s, page, index, childMid, childOrig, childSplit, flags, Addrs(l.subs), n.keys, i,
                                    m1);
    ghost var a, b := kidLocs[0], kidLocs[1];
    ghost var sl, sr := CopyUpKids(l.subs, 0, m, i, a, b), CopyUpKids(l.subs, m1, k, i, a, b);
    tops, ls := {orig, split}, [Loc(orig, sl), Loc(split, sr)];
    KidsKept(s0, s.Now(), s.unit, s.reuse, page, tops, ns, locs);
    RootCleared(n, top);
    SpreadTwo(l.subs, i, kidLocs);
    SpreadTwo(n.kids, i, Parts(g));
    SplitPlaced(s.mem, s.unit, n, i, g.left, g.right, l.subs, a, b, top, childMid, orig, split, m, m1, k);
  }

  lemma {:induction false} SplitPlaced(mem: seq<byte>, unit: nat, n: Node, i: nat, l: Node, r: Node, subs: seq<Loc>,
                                       a: Loc, b: Loc, top: bool, mid: word, orig: word, split: word, m: nat, m1: nat,
                                       k: nat)
    requires n.Branch? && |n.kids| == |n.keys| + 1 == |subs| && |n.keys| >= BranchCap(unit) && i < |subs| && unit >= 64
    requires k == |n.keys| && m == Median(k, i) && m1 == m + 1 && m < k
    requires StoredAll(mem, unit, Spread(n.kids, i, l, r), Spread(subs, i, a, b)) && SeparateAll(Spread(subs, i, a, b))
    requires orig != split && split != 0
    requires orig !in PagesOf(Spread(subs, i, a, b)) && split !in PagesOf(Spread(subs, i, a, b))
    requires Held(mem, unit, orig, 0, CopyUpKids(Addrs(subs), 0, m, i, a.addr, b.addr),
                  CopyUpKeys(n.keys, 0, m, i, mid))
    requires Held(mem, unit, split, 0, CopyUpKids(Addrs(subs), m1, k, i, a.addr, b.addr),
                  CopyUpKeys(n.keys, m1, k, i, mid))
    ensures var ls := [Loc(orig, CopyUpKids(subs, 0, m, i, a, b)), Loc(split, CopyUpKids(subs, m1, k, i, a, b))];
            && Placed(mem, unit, AddToBranch(n, unit, i, Two(l, mid, r)), ls, top, n.keys[m], orig, split)
            && PagesOf(ls) == {orig, split} + PagesOf(Spread(subs, i, a, b))
  {
    var sl, sr := CopyUpKids(subs, 0, m, i, a, b), CopyUpKids(subs, m1, k, i, a, b);
    HalvesStored(mem, unit, n.kids, subs, i, l, r, a, b, m, m1, k);
    HalvesSeparate(subs, i, a, b, m, m1, k);
    AddrsCopyUp(subs, 0, m, i, a, b);
    AddrsCopyUp(subs, m1, k, i, a, b);
    CopyUpLengths(n.keys, n.kids, 0, m, i, mid, l, r);
    CopyUpLengths(n.keys, n.kids, m1, k, i, mid, l, r);
    AddToBranchSplits(n, unit, i, Two(l, mid, r), mid, m, m1, k);
    PagesTwoBranches(orig, sl, split, sr);
    BranchPlacedTwo(mem, unit, top, n.keys[m],
                    orig, CopyUpKeys(n.keys, 0, m, i, mid), CopyUpKids(n.kids, 0, m, i, l, r), sl,
                    split, CopyUpKeys(n.keys, m1, k, i, mid), CopyUpKids(n.kids, m1, k, i, l, r), sr);
  }

  lemma SpreadTwo<T>(s: seq<T>, i: nat, parts: seq<T>)
    requires i < |s| && |parts| == 2
    ensures Replace(s, i, parts) == Spread(s, i, parts[0], parts[1])
  {
    assert parts == [parts[0], parts[1]];
  }

  // ---- Around the recursive call ----

  /** The pages around a child's are not its own, and stay owned while it is replaced. */
  lemma {:induction false} AroundChild(a: Snap, b: Snap, unit: nat, reuse: bool, l: Loc, i: nat, kidLocs: seq<Loc>,
                                       written: set<nat>)
    requires unit > 0 && Separate(l) && Pages(l) <= a.owned && i < |l.subs| && SeparateAll(kidLocs)
    requires Step(a, b, unit, reuse, Pages(l.subs[i]), PagesOf(kidLocs), written)
    ensures var before, after := PagesOf(l.subs[..i]), PagesOf(l.subs[i + 1..]);
            && before <= a.owned - Pages(l.subs[i]) && after <= a.owned - Pages(l.subs[i])
            && l.addr in a.owned - Pages(l.subs[i]) && l.addr in b.owned
            && SeparateAll(Replace(l.subs, i, kidLocs))
            && PagesOf(Replace(l.subs, i, kidLocs)) == before + PagesOf(kidLocs) + after
            && PagesOf(Replace(l.subs, i, kidLocs)) <= b.owned - {l.addr}
  {
    PagesSplit(l.subs, i);
    PagesReplace(l.subs, i, kidLocs);
  }

  lemma {:induction false} SiblingKept(a: Snap, b: Snap, unit: nat, reuse: bool, n: Node, l: Loc, top: bool, i: nat,
                                       taken: set<nat>, written: set<nat>, j: nat)
    requires unit > 0 && Balanced(a, unit, reuse) && n.Branch? && Stored(a.mem, unit, n, l, top)
    requires Separate(l) && Pages(l) <= a.owned && i < |l.subs| && j < |l.subs| && j != i
    requires Step(a, b, unit, reuse, Pages(l.subs[i]), taken, written)
    ensures Stored(b.mem, unit, n.kids[j], l.subs[j], false)
  {
    Apart(l.subs, i, j);
    StoredKept(a.mem, b.mem, unit, a.end, written, n.kids[j], l.subs[j], false);
  }

  lemma {:induction false} KidsReplaced(a: Snap, b: Snap, unit: nat, reuse: bool, n: Node, l: Loc, top: bool, i: nat,
                                        g: Grown, kidLocs: seq<Loc>, written: set<nat>)
    requires unit > 0 && Balanced(a, unit, reuse) && n.Branch? && Stored(a.mem, unit, n, l, top)
    requires Separate(l) && Pages(l) <= a.owned && i < |l.subs|
    requires Step(a, b, unit, reuse, Pages(l.subs[i]), PagesOf(kidLocs), written)
    requires StoredAll(b.mem, unit, Parts(g), kidLocs)
    ensures StoredAll(b.mem, unit, Replace(n.kids, i, Parts(g)), Replace(l.subs, i, kidLocs))
  {
    forall j: nat | j < |l.subs| && j != i
      ensures Stored(b.mem, unit, n.kids[j], l.subs[j], false)
    {
      SiblingKept(a, b, unit, reuse, n, l, top, i, PagesOf(kidLocs), written, j);
    }
    StoredReplaced(b.mem, unit, n.kids, l.subs, i, Parts(g), kidLocs);
  }

  /** Trees stored around index `i`, and the ones that replace the tree there. */
  lemma {:induction false} StoredReplaced(mem: seq<byte>, unit: nat, ns: seq<Node>, ls: seq<Loc>, i: nat,
                                          parts: seq<Node>, locs: seq<Loc>)
    requires |ns| == |ls| && i < |ns| && StoredAll(mem, unit, parts, locs)
    requires forall j: nat :: j < |ns| && j != i ==> Stored(mem, unit, ns[j], ls[j], false)
    ensures StoredAll(mem, unit, Replace(ns, i, parts), Replace(ls, i, locs))
  {
    var all, at := Replace(ns, i, parts), Replace(ls, i, locs);
    forall j | 0 <= j < |all|
      ensures Stored(mem, unit, all[j], at[j], false)
    {
      ReplaceAt(ns, i, parts, j);
      ReplaceAt(ls, i, locs, j);
    }
  }

  lemma {:induction false} ReplaceAt<T>(a: seq<T>, i: nat, parts: seq<T>, j: nat)
    requires i < |a| && j < |Replace(a, i, parts)|
    ensures Replace(a, i, parts)[j]
            == if j < i then a[j] else if j < i + |parts| then parts[j - i] else a[j - |parts| + 1]
  {
  }

  lemma {:induction false} BranchPageKept(a: Snap, b: Snap, unit: nat, reuse: bool, n: Node, l: Loc, top: bool, i: nat,
                                          taken: set<nat>, written: set<nat>)
    requires unit > 0 && Balanced(a, unit, reuse) && n.Branch? && Stored(a.mem, unit, n, l, top)
    requires i < |l.subs| && l.addr in a.owned - Pages(l.subs[i])
    requires Step(a, b, unit, reuse, Pages(l.subs[i]), taken, written)
    ensures IsPage(l.addr, b.end, unit) && Held(b.mem, unit, l.addr, FlagsOf(n, top), Addrs(l.subs), n.keys)
  {
    HeldKept(a.mem, b.mem, unit, a.end, written, l.addr, FlagsOf(n, top), Addrs(l.subs), n.keys);
  }

  /** The child's edit and the branch's make one edit of the whole subtree. */
  lemma {:induction false} StepBranch(a: Snap, b: Snap, c: Snap, unit: nat, reuse: bool, l: Loc, i: nat,
                                      kidLocs: seq<Loc>,
                                      written: set<nat>, tops: set<nat>, ls: seq<Loc>)
    requires unit > 0 && Separate(l) && Pages(l) <= a.owned && i < |l.subs| && SeparateAll(kidLocs)
    requires Step(a, b, unit, reuse, Pages(l.subs[i]), PagesOf(kidLocs), written)
    requires Step(b, c, unit, reuse, {l.addr}, tops, tops)
    requires PagesOf(ls) == tops + PagesOf(Replace(l.subs, i, kidLocs))
    ensures Step(a, c, unit, reuse, Pages(l), PagesOf(ls), written + tops)
  {
    AroundChild(a, b, unit, reuse, l, i, kidLocs, written);
    PagesSplit(l.subs, i);
    var before, kid, after := PagesOf(l.subs[..i]), Pages(l.subs[i]), PagesOf(l.subs[i + 1..]);
    StepOverBranch(a, b, c, unit, reuse, l.addr, before, kid, after, PagesOf(kidLocs), written, tops, Pages(l),
                   PagesOf(ls));
  }

  lemma {:induction false} StepOverBranch(a: Snap, b: Snap, c: Snap, unit: nat, reuse: bool, page: nat,
                                          before: set<nat>,
                                          kid: set<nat>, after: set<nat>, taken: set<nat>, written: set<nat>,
                                          tops: set<nat>, gone: set<nat>, all: set<nat>)
    requires unit > 0 && page in a.owned && before <= a.owned && kid <= a.owned && after <= a.owned
    requires page !in before + kid + after && before !! kid && before !! after && kid !! after
    requires Step(a, b, unit, reuse, kid, taken, written) && Step(b, c, unit, reuse, {page}, tops, tops)
    requires gone == {page} + before + kid + after && all == tops + before + taken + after
    ensures Step(a, c, unit, reuse, gone, all, written + tops)
  {
    BranchSets(a.owned, page, before, kid, after, taken, tops);
    StepJoin(a, b, c, unit, reuse, kid, taken, written, {page}, tops, tops, gone, all);
  }

  lemma {:induction false} BranchSets(owned: set<nat>, page: nat, before: set<nat>, kid: set<nat>, after: set<nat>,
                                      taken: set<nat>, tops: set<nat>)
    requires page in owned && before <= owned && kid <= owned && after <= owned
    requires page !in before + kid + after && before !! kid && before !! after && kid !! after
    requires taken !! (owned - kid) && tops !! (owned - kid + taken - {page})
    ensures owned - kid + taken - {page} + tops
            == owned - ({page} + before + kid + after) + (tops + before + taken + after)
    ensures (tops + before + taken + after) !! (owned - ({page} + before + kid + after))
  {
  }

  // ---- The recursion ----

  /** Enough for the at most two allocations on each level. */
  ghost function Room(unit: nat, h: nat): nat {
    if h == 0 then 2 * unit else Room(unit, h - 1) + 2 * unit
  }

  /** A whole subtree lies on the owned pages `l` of the store. */
  ghost predicate Rooted(s: Store, n: Node, l: Loc, top: bool)
    reads s
  {
    && s.Paged() && 64 <= s.unit < MAX16
    && Stored(s.mem, s.unit, n, l, top) && Separate(l) && Pages(l) <= s.owned
  }

  /** The leaf test of btree.c: bit 1 of the header's flags. */
  method IsLeafPage(s: Store, page: nat, ghost n: Node, ghost l: Loc, ghost top: bool) returns (leaf: bool)
    requires Rooted(s, n, l, top) && page == l.addr
    ensures leaf == n.Leaf?
  {
    TopPage(s, n, l, top);
    s.PageInside(page);
    var hdr := ReadUi64(s, page, 0);
    TopHeader(s.mem, s.unit, n, l, top);
    FlagBits(n, top);
    leaf := IsLeaf(PgFlags(hdr));
  }

  lemma TopPage(s: Store, n: Node, l: Loc, top: bool)
    requires Rooted(s, n, l, top)
    ensures l.addr in s.owned && IsPage(l.addr, s.end, s.unit)
  {
    assert l.addr in Pages(l);
    s.OwnedPage(l.addr);
  }

  lemma {:induction false} TopHeader(mem: seq<byte>, unit: nat, n: Node, l: Loc, top: bool)
    requires Stored(mem, unit, n, l, top)
    ensures |Slot(mem, l.addr, unit)| >= WORD
    ensures PgFlags(Decode(Slot(mem, l.addr, unit), 0)) == FlagsOf(n, top)
  {
    var bs, flags := Slot(mem, l.addr, unit), FlagsOf(n, top);
    if n.Leaf? {
      HeldHeader(bs, flags, Weave(n.keys, n.vals));
    } else {
      HeldHeader(bs, flags, Weave(Addrs(l.subs), n.keys));
    }
  }

  /** Every page of a stored tree has a header that tells the truth: its kind, the page size, its true
      key count and used bytes; the root flag is on the top page of a whole tree and nowhere else. */
  ghost predicate TrueHeaders(mem: seq<byte>, unit: nat, n: Node, l: Loc, top: bool)
    decreases n
  {
    && |Slot(mem, l.addr, unit)| >= WORD
    && var hdr := Decode(Slot(mem, l.addr, unit), 0);
    && IsRoot(PgFlags(hdr)) == top && IsLeaf(PgFlags(hdr)) == n.Leaf?
    && PgSize(hdr) == unit && PgNKeys(hdr) == |n.keys|
    && PgUsed(hdr) == (if n.Leaf? then LeafOffset(|n.keys|) else KeyOffset(|n.keys|)) <= unit
    && HeaderIs(Slot(mem, l.addr, unit), n, top)
    && (n.Branch? ==>
          && |n.kids| == |l.subs|
          && forall i :: 0 <= i < |n.kids| ==> TrueHeaders(mem, unit, n.kids[i], l.subs[i], false))
  }

  /** The header in bytes: bit 1 for a leaf, bit 0 for the top; the item size 16; page size, key count
      and used bytes in two bytes each. A leaf of `k` keys uses 8 + 16k bytes, a branch 16 + 16k. */
  ghost predicate HeaderIs(bs: seq<byte>, n: Node, top: bool) {
    && |bs| >= 8
    && var size, k, used := |bs|, |n.keys|, (if n.Leaf? then 8 else 16) + 16 * |n.keys|;
    bs[..8] == [(if n.Leaf? then 2 else 0) + (if top then 1 else 0), 16,
                size / 256, size % 256, k / 256, k % 256, used / 256, used % 256]
  }

  lemma {:induction false} HeaderHolds(bs: seq<byte>, n: Node, top: bool, used: nat)
    requires 8 <= |bs| < MAX16 && |n.keys| < MAX16 && used < MAX16
    requires Decode(bs, 0) == PackHeader(FlagsOf(n, top), |bs|, |n.keys|, used)
    requires used == if n.Leaf? then LeafOffset(|n.keys|) else KeyOffset(|n.keys|)
    ensures HeaderIs(bs, n, top)
  {
    EncodeOfDecode(bs[0..8]);
    HeaderBytes(FlagsOf(n, top), |bs|, |n.keys|, used);
    assert bs[..8] == bs[0..8];
  }

  lemma {:induction false} StoredHeaders(mem: seq<byte>, unit: nat, n: Node, l: Loc, top: bool)
    requires Stored(mem, unit, n, l, top)
    ensures TrueHeaders(mem, unit, n, l, top)
    decreases n
  {
    var bs, flags := Slot(mem, l.addr, unit), FlagsOf(n, top);
    FlagBits(n, top);
    if n.Leaf? {
      LeafHeader(bs, flags, n.keys, n.vals);
      HeaderHolds(bs, n, top, LeafOffset(|n.keys|));
    } else {
      BranchHeader(bs, flags, Addrs(l.subs), n.keys);
      HeaderHolds(bs, n, top, KeyOffset(|n.keys|));
      forall i | 0 <= i < |n.kids|
        ensures TrueHeaders(mem, unit, n.kids[i], l.subs[i], false)
      {
        StoredHeaders(mem, unit, n.kids[i], l.subs[i], false);
      }
    }
  }

  lemma FlagBits(n: Node, top: bool)
    ensures IsLeaf(FlagsOf(n, top)) == n.Leaf? && IsRoot(FlagsOf(n, top)) == top
  {
  }

  lemma {:induction false} ChildRooted(s: Store, n: Node, l: Loc, top: bool, i: nat)
    requires Rooted(s, n, l, top) && n.Branch? && i < |l.subs|
    ensures i < |n.kids| && Rooted(s, n.kids[i], l.subs[i], false)
  {
    PagesSplit(l.subs, i);
  }

  /** Where the search of a branch goes: the child at the found offset. */
  method FindChild(s: Store, page: nat, key: word, ghost n: Node, ghost l: Loc, ghost top: bool, ghost i: nat)
    returns (index: nat, sub: word)
    requires Rooted(s, n, l, top) && page == l.addr && n.Branch? && i == BranchIndex(n.keys, key)
    ensures i < |l.subs| && index == LeafOffset(i) && sub == l.subs[i].addr
  {
    TopPage(s, n, l, top);
    s.PageInside(page);
    index := BranchFind(s, page, key, FlagsOf(n, top), Addrs(l.subs), n.keys);
    FirstColumn(Slot(s.mem, page, s.unit), FlagsOf(n, top), Addrs(l.subs), n.keys, i, index);
    sub := ReadUi64(s, page, index);
  }

  /** `btree_recur_add` */
  method RecurAdd(s: Store, page: nat, key: word, val: word,
                  ghost n: Node, ghost l: Loc, ghost top: bool, ghost h: nat, ghost lo: int, ghost hi: int)
    returns (mid: word, orig: nat, split: nat, ghost ls: seq<Loc>, ghost written: set<nat>)
    requires Rooted(s, n, l, top) && page == l.addr
    requires Shaped(n) && Tree(n, s.unit, h, lo, hi) && 0 <= lo <= key < hi <= TWO63 && key !in Model(n)
    requires s.end + Room(s.unit, h) < TWO64
    modifies s
    ensures s.Paged()
    ensures Placed(s.mem, s.unit, Grow(n, s.unit, key, val), ls, top, mid, orig, split)
    ensures Step(old(s.Now()), s.Now(), s.unit, s.reuse, Pages(l), PagesOf(ls), written)
    ensures s.end <= old(s.end) + Room(s.unit, h) && |s.freeList| <= Max1(|old(s.freeList)|)
    decreases h, 1
  {
    TopPage(s, n, l, top);
    var leaf := IsLeafPage(s, page, n, l, top);
    if leaf {
      AbsentFromLeaf(n, key);
      mid, orig, split, ls, written := RecurAddLeaf(s, page, key, val, n, l, top);
    } else {
      mid, orig, split, ls, written := RecurAddInside(s, page, key, val, n, l, top, h, lo, hi);
    }
  }

  lemma RoomNext(unit: nat, h: nat, h': nat)
    requires h == h' + 1
    ensures Room(unit, h) == Room(unit, h') + 2 * unit
  {
  }

  /** The branch case of `btree_recur_add`. */
  method RecurAddInside(s: Store, page: nat, key: word, val: word,
                        ghost n: Node, ghost l: Loc, ghost top: bool, ghost h: nat, ghost lo: int, ghost hi: int)
    returns (mid: word, orig: nat, split: nat, ghost ls: seq<Loc>, ghost written: set<nat>)
    requires Rooted(s, n, l, top) && page == l.addr && n.Branch?
    requires Shaped(n) && Tree(n, s.unit, h, lo, hi) && 0 <= lo <= key < hi <= TWO63 && key !in Model(n)
    requires s.end + Room(s.unit, h) < TWO64
    modifies s
    ensures s.Paged()
    ensures Placed(s.mem, s.unit, Grow(n, s.unit, key, val), ls, top, mid, orig, split)
    ensures Step(old(s.Now()), s.Now(), s.unit, s.reuse, Pages(l), PagesOf(ls), written)
    ensures s.end <= old(s.end) + Room(s.unit, h) && |s.freeList| <= Max1(|old(s.freeList)|)
    decreases h, 0
  {
    var index, sub, childMid, childOrig, childSplit;
    ghost var i, h', lo', hi' := DescendInto(n, s.unit, h, lo, hi, key);
    index, sub := FindChild(s, page, key, n, l, top, i);
    ChildRooted(s, n, l, top, i);
    ghost var s0, g, kidLocs, w1 := s.Now(), Grow(n.kids[i], s.unit, key, val), [], {};
    GrowInside(n, s.unit, key, val, i, g);
    RoomNext(s.unit, h, h');
    childMid, childOrig, childSplit, kidLocs, w1 := RecurAdd(s, sub, key, val, n.kids[i], l.subs[i], false, h', lo',
                                                             hi');
    mid, orig, split, ls, written := RecurAfterChild(s, page, index, childMid, childOrig, childSplit,
                                                     n, l, top, i, g, kidLocs, s0, w1);
  }

  /** After the recursive call the branch page is as it was and the children around the new ones too. */
  lemma {:induction false} ChildDone(a: Snap, b: Snap, unit: nat, reuse: bool, n: Node, l: Loc, top: bool, i: nat,
                                     g: Grown, kidLocs: seq<Loc>, written: set<nat>, mid: word, orig: nat, split: nat)
    requires unit > 0 && Balanced(a, unit, reuse) && n.Branch? && Stored(a.mem, unit, n, l, top)
    requires Separate(l) && Pages(l) <= a.owned && i < |l.subs|
    requires Step(a, b, unit, reuse, Pages(l.subs[i]), PagesOf(kidLocs), written)
    requires Placed(b.mem, unit, g, kidLocs, false, mid, orig, split)
    ensures Ripe(b, unit, n, l, top, i, g, kidLocs, mid, orig, split)
  {
    LocsOf(b.mem, unit, g, kidLocs, mid, orig, split);
    AroundChild(a, b, unit, reuse, l, i, kidLocs, written);
    KidsReplaced(a, b, unit, reuse, n, l, top, i, g, kidLocs, written);
    BranchPageKept(a, b, unit, reuse, n, l, top, i, PagesOf(kidLocs), written);
  }

  /** What is left of `btree_recur_add` at a branch after the recursive call. */
  method RecurAfterChild(s: Store, page: nat, index: nat, childMid: word, childOrig: nat, childSplit: nat,
                         ghost n: Node, ghost l: Loc, ghost top: bool, ghost i: nat, ghost g: Grown,
                         ghost kidLocs: seq<Loc>,
                         ghost s0: Snap, ghost w1: set<nat>)
    returns (mid: word, orig: nat, split: nat, ghost ls: seq<Loc>, ghost written: set<nat>)
    requires s.Paged() && 64 <= s.unit < MAX16 && page == l.addr
    requires Balanced(s0, s.unit, s.reuse) && Stored(s0.mem, s.unit, n, l, top) && Separate(l) && Pages(l) <= s0.owned
    requires n.Branch? && |n.keys| <= BranchCap(s.unit) && i < |l.subs| && index == LeafOffset(i)
    requires Step(s0, s.Now(), s.unit, s.reuse, Pages(l.subs[i]), PagesOf(kidLocs), w1)
    requires Placed(s.mem, s.unit, g, kidLocs, false, childMid, childOrig, childSplit)
    requires s.end + 2 * s.unit < TWO64
    modifies s
    ensures s.Paged()
    ensures Placed(s.mem, s.unit, AddToBranch(n, s.unit, i, g), ls, top, mid, orig, split)
    ensures Step(s0, s.Now(), s.unit, s.reuse, Pages(l), PagesOf(ls), written)
    ensures s.end <= old(s.end) + 2 * s.unit && |s.freeList| <= Max1(|old(s.freeList)|)
  {
    ghost var s1, tops := s.Now(), {};
    ChildDone(s0, s1, s.unit, s.reuse, n, l, top, i, g, kidLocs, w1, childMid, childOrig, childSplit);
    mid, orig, split, ls, tops := RecurAddBranch(s, page, index, childMid, childOrig, childSplit, n, l, top, i, g,
                                                 kidLocs);
    written := w1 + tops;
    StepBranch(s0, s1, s.Now(), s.unit, s.reuse, l, i, kidLocs, w1, tops, ls);
  }
}
