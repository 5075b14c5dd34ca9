/** The external interface of btree.c: create, add, find, destroy. */
module BTreeApi {
  import opened Words
  import opened StoreModel
  import opened PageModel
  import opened PageOps
  import opened StoreSteps
  import opened BTreeModel
  import opened BTree
  import opened Placement
  import opened BTreeAdd

  /** The one allocation of a page that replaces nothing. */
  method AllocNew(s: Store) returns (root: nat)
    requires s.Paged() && s.unit == DEF_PAGE_SIZE && s.end + s.unit < TWO64
    modifies s
    ensures s.Paged() && 0 < root < TWO64 && IsPage(root, s.end, s.unit) && root in s.owned
    ensures Step(old(s.Now()), s.Now(), s.unit, s.reuse, {}, {root}, {root})
    ensures s.end <= old(s.end) + s.unit && |s.freeList| <= |old(s.freeList)|
  {
    ghost var s0 := s.Now();
    root := s.AllocPage(DEF_PAGE_SIZE);
    StepStart(s0, s.unit, s.reuse);
    StepAlloc(s0, s0, s.Now(), s.unit, s.reuse, {}, {}, {}, root);
    s.OwnedPage(root);
    s.PageInside(root);
    assert {} + {root} == {root};
  }

  /** `btree_root_create`: a root with one key between the two halves of the old one. */
  method RootCreate(s: Store, mid: word, orig: word, split: word) returns (root: nat)
    requires s.Paged() && s.unit == DEF_PAGE_SIZE && s.end + s.unit < TWO64
    modifies s
    ensures s.Paged() && 0 < root < TWO64 && IsPage(root, s.end, s.unit) && root in s.owned
    ensures Held(s.mem, s.unit, root, ROOT, [orig, split], [mid])
    ensures Step(old(s.Now()), s.Now(), s.unit, s.reuse, {}, {root}, {root})
    ensures s.end <= old(s.end) + s.unit && |s.freeList| <= |old(s.freeList)|
  {
    ghost var s0 := s.Now();
    root := AllocNew(s);
    ghost var s1 := s.Now();
    FillRoot(s, root, mid, orig, split);
    StepFill(s0, s1, s.Now(), s.unit, s.reuse, {}, {root}, {root}, root);
  }

  method FillRoot(s: Store, root: nat, mid: word, orig: word, split: word)
    requires s.Ready() && s.unit == DEF_PAGE_SIZE && IsPage(root, s.end, s.unit)
    modifies s`mem
    ensures s.Ready() && Held(s.mem, s.unit, root, ROOT, [orig, split], [mid])
    ensures Untouched(old(s.mem), s.mem, s.unit, s.end, {root})
  {
    ghost var m0 := s.mem;
    ghost var h := Encode(PackHeader(ROOT, DEF_PAGE_SIZE, 1, HDR + WORD + ITEM));
    FillStart(s, root);
    HdrWrite(s, root, ROOT, DEF_PAGE_SIZE, 1, HDR + WORD + ITEM, m0, []);
    WriteUi64(s, root, HDR, orig, m0, h, []);
    WriteUi64(s, root, HDR + WORD, mid, m0, h, [] + Encode(orig));
    WriteUi64(s, root, HDR + ITEM, split, m0, h, [] + Encode(orig) + Encode(mid));
    RootBytes(orig, mid, split);
    FilledHolds(m0, s.mem, s.end, s.unit, root, ROOT, Weave([orig, split], [mid]), 1, HDR + WORD + ITEM);
  }

  lemma RootBytes(orig: word, mid: word, split: word)
    ensures Bytes(Weave([orig, split], [mid])) == [] + Encode(orig) + Encode(mid) + Encode(split)
    ensures |Weave([orig, split], [mid])| == 3
  {
    ThreeBytes([], [], orig, mid, split, [], []);
    assert [] + [orig, split] + [] == [orig, split] && [] + [mid] + [] == [mid];
    assert Bytes(Weave([], [])) == [];
    var b := Encode(orig) + Encode(mid) + Encode(split);
    assert [] + Encode(orig) + Encode(mid) + Encode(split) == b && b + [] == b;
  }

  /** `btree_create` */
  method Create(s: Store) returns (root: nat, ghost l: Loc)
    requires s.Paged() && s.unit == DEF_PAGE_SIZE && s.end + s.unit < TWO64
    modifies s
    ensures Rooted(s, EMPTY_TREE, l, true) && root == l.addr && Pages(l) == {root}
    ensures |Slot(s.mem, root, s.unit)| >= 8 && Slot(s.mem, root, s.unit)[..8] == [3, 16, 0, 64, 0, 0, 0, 8]
    ensures Step(old(s.Now()), s.Now(), s.unit, s.reuse, {}, {root}, {root})
    ensures s.end <= old(s.end) + s.unit && |s.freeList| <= |old(s.freeList)|
  {
    ghost var s0 := s.Now();
    root := AllocNew(s);
    ghost var s1 := s.Now();
    FillEmpty(s, root);
    StepFill(s0, s1, s.Now(), s.unit, s.reuse, {}, {root}, {root}, root);
    l := Loc(root, []);
    LeafPages(root);
    EmptyStored(s.mem, s.unit, root, l);
  }

  lemma {:induction false} EmptyStored(mem: seq<byte>, unit: nat, root: word, l: Loc)
    requires unit == DEF_PAGE_SIZE && l == Loc(root, []) && Held(mem, unit, root, FlagsOf(EMPTY_TREE, true), [], [])
    ensures Stored(mem, unit, EMPTY_TREE, l, true)
    ensures |Slot(mem, root, unit)| >= 8 && Slot(mem, root, unit)[..8] == [3, 16, 0, 64, 0, 0, 0, 8]
  {
    LeafStored(mem, unit, root, [], [], true);
    StoredHeaders(mem, unit, EMPTY_TREE, l, true);
  }

  method FillEmpty(s: Store, root: nat)
    requires s.Ready() && s.unit == DEF_PAGE_SIZE && IsPage(root, s.end, s.unit)
    modifies s`mem
    ensures s.Ready() && Held(s.mem, s.unit, root, FlagsOf(EMPTY_TREE, true), [], [])
    ensures Untouched(old(s.mem), s.mem, s.unit, s.end, {root})
  {
    ghost var m0 := s.mem;
    FillStart(s, root);
    HdrWrite(s, root, LEAF + ROOT, DEF_PAGE_SIZE, 0, HDR, m0, []);
    assert Weave([], []) == [] && Bytes([]) == [];
    FilledHolds(m0, s.mem, s.end, s.unit, root, LEAF + ROOT, [], 0, HDR);
  }

  lemma {:induction false} RootPlaced(mem: seq<byte>, unit: nat, l: Node, mid: word, r: Node, ls: seq<Loc>, root: word)
    requires StoredAll(mem, unit, [l, r], ls) && |ls| == 2 && SeparateAll(ls) && root !in PagesOf(ls)
    requires Held(mem, unit, root, ROOT, [ls[0].addr, ls[1].addr], [mid])
    ensures Stored(mem, unit, Branch([mid], [l, r]), Loc(root, ls), true) && Separate(Loc(root, ls))
    ensures Pages(Loc(root, ls)) == {root} + PagesOf(ls)
  {
    assert Addrs(ls) == [ls[0].addr, ls[1].addr];
    BranchStored(mem, unit, root, [mid], [l, r], ls, true);
  }

  /** A new page above the halves completes the edit. */
  lemma {:induction false} StepRoot(a: Snap, b: Snap, c: Snap, unit: nat, reuse: bool, gone: set<nat>, ls: seq<Loc>,
                                    written: set<nat>, root: nat)
    requires unit > 0 && Step(a, b, unit, reuse, gone, PagesOf(ls), written)
    requires Step(b, c, unit, reuse, {}, {root}, {root})
    ensures Step(a, c, unit, reuse, gone, {root} + PagesOf(ls), written + {root})
    ensures PagesOf(ls) !! {root}
  {
    assert c.owned == a.owned - gone + ({root} + PagesOf(ls));
    assert PagesOf(ls) <= b.owned;
    StepJoin(a, b, c, unit, reuse, gone, PagesOf(ls), written, {}, {root}, {root}, gone, {root} + PagesOf(ls));
  }

  /** `btree_add`. The new tree is `BTreeModel.Add` of the old one on pages of its own; the old
      tree's pages are given up, every other owned page keeps its bytes, and nothing is written but
      pages handed out by this call. */
  method Add(s: Store, root: nat, key: word, val: word, ghost n: Node, ghost l: Loc, ghost h: nat)
    returns (root': nat, ghost l': Loc, ghost written: set<nat>)
    requires Rooted(s, n, l, true) && root == l.addr && s.unit == DEF_PAGE_SIZE
    requires Shaped(n) && Whole(n, s.unit, h) && key < TWO63 && key !in Model(n)
    requires s.end + Room(s.unit, h) + s.unit < TWO64
    modifies s
    ensures Shaped(BTreeModel.Add(n, s.unit, key, val))
    ensures Rooted(s, BTreeModel.Add(n, s.unit, key, val), l', true) && root' == l'.addr
    ensures Step(old(s.Now()), s.Now(), s.unit, s.reuse, Pages(l), Pages(l'), written)
    ensures s.end <= old(s.end) + Room(s.unit, h) + s.unit && |s.freeList| <= Max1(|old(s.freeList)|)
  {
    ghost var s0, g := s.Now(), Grow(n, s.unit, key, val);
    var mid, orig, split;
    ghost var ls;
    AddCorrect(n, s.unit, h, key, val);
    mid, orig, split, ls, written := RecurAdd(s, root, key, val, n, l, true, h, 0, TWO63);
    if split == 0 {
      root', l' := orig, ls[0];
      OnePlaced(s, g, ls, mid, orig, split);
      return;
    }
    TwoPlaced(s, g, ls, mid, orig, split);
    ghost var s1 := s.Now();
    root' := RootCreate(s, mid, orig, split);
    StepRoot(s0, s1, s.Now(), s.unit, s.reuse, Pages(l), ls, written, root');
    ChildrenKept(s1, s.Now(), s.unit, s.reuse, [g.left, g.right], ls, root');
    RootPlaced(s.mem, s.unit, g.left, g.mid, g.right, ls, root');
    l', written := Loc(root', ls), written + {root'};
  }

  lemma {:induction false} OnePlaced(s: Store, g: Grown, ls: seq<Loc>, mid: word, orig: nat, split: nat)
    requires Placed(s.mem, s.unit, g, ls, true, mid, orig, split) && split == 0
    ensures g.One? && |ls| == 1 && orig == ls[0].addr && Stored(s.mem, s.unit, g.node, ls[0], true)
    ensures PagesOf(ls) == Pages(ls[0]) && Separate(ls[0])
  {
    assert ls == [ls[0]];
    PagesOne(ls[0]);
  }

  lemma {:induction false} TwoPlaced(s: Store, g: Grown, ls: seq<Loc>, mid: word, orig: nat, split: nat)
    requires Placed(s.mem, s.unit, g, ls, true, mid, orig, split) && split != 0
    ensures g.Two? && mid == g.mid && |ls| == 2 && orig == ls[0].addr && split == ls[1].addr && SeparateAll(ls)
    ensures StoredAll(s.mem, s.unit, [g.left, g.right], ls)
  {
  }

  lemma {:induction false} ChildrenKept(a: Snap, b: Snap, unit: nat, reuse: bool, ns: seq<Node>, ls: seq<Loc>,
                                        root: nat)
    requires unit > 0 && Balanced(a, unit, reuse) && Step(a, b, unit, reuse, {}, {root}, {root})
    requires StoredAll(a.mem, unit, ns, ls) && PagesOf(ls) <= a.owned
    ensures StoredAll(b.mem, unit, ns, ls)
  {
    StoredAllKept(a.mem, b.mem, unit, a.end, {root}, ns, ls);
  }

  // ---- Copy-on-write ----

  /** A tree none of whose pages was handed out during an edit is still stored, bit for bit. */
  lemma {:induction false} OldRootSurvives(a: Snap, b: Snap, unit: nat, reuse: bool, n: Node, l: Loc,
                                           gone: set<nat>, taken: set<nat>, written: set<nat>)
    requires unit > 0 && Balanced(a, unit, reuse) && Step(a, b, unit, reuse, gone, taken, written)
    requires Stored(a.mem, unit, n, l, true) && Pages(l) <= a.owned && Pages(l) !! written
    ensures Stored(b.mem, unit, n, l, true)
  {
    StoredKept(a.mem, b.mem, unit, a.end, written, n, l, true);
  }

  /** Under the append-only allocator that is every tree there was, the edited one included. */
  lemma {:induction false} AppendOnlyKeepsOldRoots(a: Snap, b: Snap, unit: nat, n: Node, l: Loc,
                                                   gone: set<nat>, taken: set<nat>, written: set<nat>)
    requires unit > 0 && Balanced(a, unit, false) && Step(a, b, unit, false, gone, taken, written)
    requires Stored(a.mem, unit, n, l, true) && Pages(l) <= a.owned + a.retired
    ensures Stored(b.mem, unit, n, l, true)
  {
    forall p | p in Pages(l)
      ensures p !in written && IsPage(p, a.end, unit)
    {
      PagesDisjoint(p, p, a.end, unit);
    }
    StoredKept(a.mem, b.mem, unit, a.end, written, n, l, true);
  }

  // ---- Lookup ----

  datatype Cursor = Cursor(page: nat, index: nat)

  /** Slot `k` parts the first `n` slots of a page: those before it have smaller keys, the others none. */
  ghost predicate Parts(bs: seq<byte>, n: nat, key: word, k: nat) {
    && k <= n && LeafOffset(n) <= |bs|
    && (forall i: nat :: i < k ==> Decode(bs, LeafOffset(i)) < key)
    && (forall i: nat :: k <= i < n ==> key <= Decode(bs, LeafOffset(i)))
  }

  /** What `btree_find` promises of its cursor: it stands, on a leaf page, on the slot that parts the
      smaller keys from the others, which is the slot of the key, with its value, when the key is
      present, and the end of the page only when every key of the page is smaller. */
  ghost predicate Lands(mem: seq<byte>, unit: nat, m: map<word, word>, key: word, c: Cursor) {
    && var bs := Slot(mem, c.page, unit);
    && |bs| >= WORD
    && var hdr := Decode(bs, 0);
    && IsLeaf(PgFlags(hdr)) && PgEnd(hdr) == LeafOffset(PgNKeys(hdr)) <= |bs|
    && (exists k :: c.index == LeafOffset(k) && Parts(bs, PgNKeys(hdr), key, k))
    && (key in m <==> c.index < PgEnd(hdr) && Decode(bs, c.index) == key)
    && (key in m ==> Decode(bs, c.index + WORD) == m[key])
  }

  lemma {:induction false} LeafParts(bs: seq<byte>, flags: nat, keys: seq<word>, vals: seq<word>, key: word)
    requires |keys| == |vals| && Holds(bs, flags, Weave(keys, vals)) && Ascending(keys)
    ensures Parts(bs, |keys|, key, LeafIndex(keys, key))
  {
    LeafHeader(bs, flags, keys, vals);
    forall i: nat | i < |keys|
      ensures LeafOffset(i) + WORD <= |bs| && Decode(bs, LeafOffset(i)) == keys[i]
    {
      FirstColumn(bs, flags, keys, vals, i, LeafOffset(i));
    }
  }

  lemma {:induction false} LeafMember(n: Node, key: word)
    requires n.Leaf? && |n.keys| == |n.vals| && Ascending(n.keys)
    ensures var i := LeafIndex(n.keys, key); key in n.keys <==> i < |n.keys| && n.keys[i] == key
  {
  }

  lemma {:induction false} LeafValue(n: Node, i: nat)
    requires n.Leaf? && |n.keys| == |n.vals| && Ascending(n.keys) && i < |n.keys|
    ensures n.keys[i] in Model(n) && Model(n)[n.keys[i]] == n.vals[i]
  {
    var es := Entries(n);
    assert es == es[..i] + ([es[i]] + es[i + 1..]);
    MapOfAppend(es[..i], [es[i]] + es[i + 1..]);
    MapOfKeys(es[..i]);
    assert ([es[i]] + es[i + 1..])[1..] == es[i + 1..];
  }

  /** The slot the search ends on, and the entry of the leaf there. */
  lemma {:induction false} LeafSlot(bs: seq<byte>, flags: nat, n: Node, key: word, i: nat, p: nat, end: nat)
    requires n.Leaf? && |n.keys| == |n.vals| && Ascending(n.keys) && Holds(bs, flags, Weave(n.keys, n.vals))
    requires i == LeafIndex(n.keys, key) && p == LeafOffset(i) && end == LeafOffset(|n.keys|) <= |bs|
    ensures p < end ==> p + ITEM <= |bs|
    ensures key in Model(n) <==> p < end && Decode(bs, p) == key
    ensures key in Model(n) ==> Decode(bs, p + WORD) == Model(n)[key]
  {
    AbsentFromLeaf(n, key);
    LeafMember(n, key);
    if i < |n.keys| {
      FirstColumn(bs, flags, n.keys, n.vals, i, p);
      SecondColumn(bs, flags, n.keys, n.vals, i, p + WORD);
      LeafValue(n, i);
    }
  }

  lemma {:induction false} LeafLands(mem: seq<byte>, unit: nat, n: Node, l: Loc, top: bool, lo: int, hi: int, key: word)
    requires n.Leaf? && Stored(mem, unit, n, l, top) && Tree(n, unit, 0, lo, hi)
    ensures Lands(mem, unit, Model(n), key, Cursor(l.addr, LeafOffset(LeafIndex(n.keys, key))))
  {
    var i, bs, flags := LeafIndex(n.keys, key), Slot(mem, l.addr, unit), FlagsOf(n, top);
    LeafHeader(bs, flags, n.keys, n.vals);
    FlagBits(n, top);
    LeafParts(bs, flags, n.keys, n.vals, key);
    LeafSlot(bs, flags, n, key, i, LeafOffset(i), LeafOffset(|n.keys|));
  }

  lemma LandsSame(mem: seq<byte>, unit: nat, m: map<word, word>, m': map<word, word>, key: word, c: Cursor)
    requires Lands(mem, unit, m, key, c)
    requires (key in m' <==> key in m) && (key in m' ==> m'[key] == m[key])
    ensures Lands(mem, unit, m', key, c)
  {
  }

  /** The key is not below the separator before child `i` and below the one behind it. */
  predicate InRange(keys: seq<word>, i: nat, key: word) {
    i <= |keys| && (i > 0 ==> keys[i - 1] <= key) && (i < |keys| ==> key < keys[i])
  }

  /** The cursor is on the leaf in whose range the key lies, and `k` entries of the tree are before it. */
  ghost predicate Stands(n: Node, l: Loc, key: word, c: Cursor, k: nat)
    requires Shaped(n)
    decreases n
  {
    match n
    case Leaf(_, _) => c == Cursor(l.addr, LeafOffset(k))
    case Branch(keys, kids) => |l.subs| == |kids| && exists i :: StandsBelow(n, l, key, c, k, i)
  }

  ghost predicate StandsBelow(n: Node, l: Loc, key: word, c: Cursor, k: nat, i: nat)
    requires Shaped(n) && n.Branch? && |l.subs| == |n.kids|
    decreases n, 0
  {
    && InRange(n.keys, i, key)
    && var before := |EntriesOf(n.kids[..i])|;
    && before <= k && Stands(n.kids[i], l.subs[i], key, c, k - before)
  }

  lemma {:induction false} LeafDivides(n: Node, key: word)
    requires n.Leaf? && |n.keys| == |n.vals| && Ascending(n.keys)
    ensures Divides(Entries(n), key, LeafIndex(n.keys, key))
  {
    assert forall j :: 0 <= j < |n.keys| ==> Entries(n)[j].0 == n.keys[j];
  }

  /** Everything `btree_find` promises of its cursor. */
  ghost predicate Finds(mem: seq<byte>, unit: nat, n: Node, l: Loc, key: word, c: Cursor, k: nat)
    requires Shaped(n)
  {
    && c.page in Pages(l) && Lands(mem, unit, Model(n), key, c)
    && Stands(n, l, key, c, k) && Divides(Entries(n), key, k)
  }

  lemma {:induction false} LeafFinds(mem: seq<byte>, unit: nat, n: Node, l: Loc, top: bool, h: nat, lo: int, hi: int,
                                     key: word)
    requires n.Leaf? && Stored(mem, unit, n, l, top) && Tree(n, unit, h, lo, hi) && Shaped(n)
    ensures var k := LeafIndex(n.keys, key); Finds(mem, unit, n, l, key, Cursor(l.addr, LeafOffset(k)), k)
  {
    LeafLands(mem, unit, n, l, top, lo, hi, key);
    LeafDivides(n, key);
  }

  lemma {:induction false} BranchFinds(mem: seq<byte>, unit: nat, n: Node, l: Loc, h: nat, lo: int, hi: int, key: word,
                                       c: Cursor, k: nat, i: nat, k': nat)
    requires n.Branch? && Tree(n, unit, h, lo, hi) && lo <= key < hi && Shaped(n)
    requires |l.subs| == |n.kids| && i == BranchIndex(n.keys, key) && k' == |EntriesOf(n.kids[..i])| + k
    requires Finds(mem, unit, n.kids[i], l.subs[i], key, c, k)
    ensures Finds(mem, unit, n, l, key, c, k')
  {
    ModelDescends(n, unit, h, lo, hi, key);
    PagesInside(l.subs, i);
    LandsSame(mem, unit, Model(n.kids[i]), Model(n), key, c);
    DividesUp(n, unit, h, lo, hi, i, key, k);
    assert StandsBelow(n, l, key, c, k', i);
  }

  /** `btree_find`, for any key: of the entries of the tree, in key order, exactly those with smaller
      keys are before the cursor. */
  method Find(s: Store, root: nat, key: word, ghost n: Node, ghost l: Loc, ghost h: nat)
    returns (c: Cursor, ghost k: nat)
    requires Rooted(s, n, l, true) && root == l.addr && Shaped(n) && Whole(n, s.unit, h)
    ensures c.page in Pages(l) && Lands(s.mem, s.unit, Model(n), key, c)
    ensures Stands(n, l, key, c, k) && Divides(Entries(n), key, k)
  {
    TreeWidens(n, s.unit, h, 0, TWO63, TWO64);
    c, k := FindBelow(s, root, key, n, l, true, h, 0, TWO64);
  }

  method FindInLeaf(s: Store, root: nat, key: word, ghost n: Node, ghost l: Loc, ghost top: bool, ghost h: nat,
                    ghost lo: int, ghost hi: int)
    returns (c: Cursor, ghost k: nat)
    requires Rooted(s, n, l, top) && root == l.addr && n.Leaf?
    requires Shaped(n) && Tree(n, s.unit, h, lo, hi)
    ensures Finds(s.mem, s.unit, n, l, key, c, k)
  {
    TopPage(s, n, l, top);
    var index := LeafFind(s, root, key, FlagsOf(n, top), n.keys, n.vals);
    LeafFinds(s.mem, s.unit, n, l, top, h, lo, hi, key);
    c, k := Cursor(root, index), LeafIndex(n.keys, key);
  }

  /** `btree_find` from the top of any subtree. */
  method FindBelow(s: Store, root: nat, key: word, ghost n: Node, ghost l: Loc, ghost top: bool, ghost h: nat,
                   ghost lo: int, ghost hi: int)
    returns (c: Cursor, ghost k: nat)
    requires Rooted(s, n, l, top) && root == l.addr
    requires Shaped(n) && Tree(n, s.unit, h, lo, hi) && lo <= key < hi
    ensures Finds(s.mem, s.unit, n, l, key, c, k)
    decreases h
  {
    var leaf := IsLeafPage(s, root, n, l, top);
    if !leaf {
      var index, sub;
      ghost var i, h', lo', hi' := DescendInto(n, s.unit, h, lo, hi, key);
      index, sub := FindChild(s, root, key, n, l, top, i);
      ChildRooted(s, n, l, top, i);
      ghost var below;
      c, below := FindBelow(s, sub, key, n.kids[i], l.subs[i], false, h', lo', hi');
      k := |EntriesOf(n.kids[..i])| + below;
      BranchFinds(s.mem, s.unit, n, l, h, lo, hi, key, c, below, i, k);
    } else {
      c, k := FindInLeaf(s, root, key, n, l, top, h, lo, hi);
    }
  }

  // ---- Destroying a tree ----

  /** The pages of a tree in the order in which they will be handed out again: a page before its children,
      the last child before the first, for they are freed the other way round. */
  ghost function Freed(l: Loc): seq<nat>
    decreases l, 1
  {
    [l.addr] + FreedAll(l.subs)
  }

  ghost function FreedAll(ls: seq<Loc>): seq<nat>
    decreases ls, 0
  {
    if ls == [] then [] else Freed(ls[|ls| - 1]) + FreedAll(ls[..|ls| - 1])
  }

  /** The free list with these pages in front; the append-only allocator has none. */
  ghost function Listed(reuse: bool, pages: seq<nat>, free: seq<nat>): seq<nat> {
    if reuse then pages + free else []
  }

  /** `btree_destroy`: gives up every page of the tree, once, and writes nothing. */
  method Destroy(s: Store, page: nat, ghost n: Node, ghost l: Loc, ghost top: bool)
    requires Rooted(s, n, l, top) && page == l.addr
    modifies s
    ensures s.Paged() && s.mem == old(s.mem) && s.end == old(s.end) && s.handed == old(s.handed)
    ensures s.owned == old(s.owned) - Pages(l) && s.freeList == Listed(s.reuse, Freed(l), old(s.freeList))
    decreases n, 3
  {
    TopPage(s, n, l, top);
    FreedLast(l, s.reuse, s.freeList);
    DestroyBelow(s, page, n, l, top);
    s.Free(page);
  }

  /** Everything but the page itself. */
  method DestroyBelow(s: Store, page: nat, ghost n: Node, ghost l: Loc, ghost top: bool)
    requires Rooted(s, n, l, top) && page == l.addr
    modifies s
    ensures s.Paged() && s.mem == old(s.mem) && s.end == old(s.end) && s.handed == old(s.handed)
    ensures s.owned == old(s.owned) - PagesOf(l.subs)
    ensures s.freeList == Listed(s.reuse, FreedAll(l.subs), old(s.freeList))
    decreases n, 2
  {
    var leaf := IsLeafPage(s, page, n, l, top);
    if !leaf {
      DestroyChildren(s, page, n, l, top);
    } else {
      assert l.subs == [] && [] + s.freeList == s.freeList;
    }
  }

  lemma {:induction false} FreedLast(l: Loc, reuse: bool, free: seq<nat>)
    ensures Listed(reuse, Freed(l), free) == Listed(reuse, [l.addr], Listed(reuse, FreedAll(l.subs), free))
  {
    ListedTwice(reuse, [l.addr], FreedAll(l.subs), free);
  }

  /** The first `i` children of a stored branch have been destroyed. */
  ghost predicate Felled(s: Store, n: Node, l: Loc, top: bool, i: nat, owned: set<nat>)
    reads s
  {
    && s.Paged() && 64 <= s.unit < MAX16 && n.Branch? && i <= |l.subs|
    && Stored(s.mem, s.unit, n, l, top) && Separate(l) && Pages(l) <= owned
    && s.owned == owned - PagesOf(l.subs[..i])
  }

  lemma {:induction false} FelledChild(s: Store, n: Node, l: Loc, top: bool, i: nat, owned: set<nat>)
    requires Felled(s, n, l, top, i, owned) && i < |l.subs|
    ensures |n.kids| == |l.subs| && Rooted(s, n.kids[i], l.subs[i], false)
    ensures l.addr in s.owned
  {
    PagesSplit(l.subs, i);
  }

  lemma {:induction false} PagesNext(subs: seq<Loc>, i: nat, i1: nat)
    requires i < |subs| && i1 == i + 1
    ensures PagesOf(subs[..i1]) == PagesOf(subs[..i]) + Pages(subs[i])
  {
    assert subs[..i1] == subs[..i] + [subs[i]];
    PagesAppend(subs[..i], [subs[i]]);
    PagesOne(subs[i]);
  }

  lemma {:induction false} ListedTwice(reuse: bool, a: seq<nat>, b: seq<nat>, free: seq<nat>)
    ensures Listed(reuse, a, Listed(reuse, b, free)) == Listed(reuse, a + b, free)
  {
    assert a + (b + free) == a + b + free;
  }

  lemma {:induction false} ListedNext(reuse: bool, subs: seq<Loc>, i: nat, i1: nat, free: seq<nat>)
    requires i < |subs| && i1 == i + 1
    ensures Listed(reuse, FreedAll(subs[..i1]), free)
            == Listed(reuse, Freed(subs[i]), Listed(reuse, FreedAll(subs[..i]), free))
  {
    assert subs[..i1][..i] == subs[..i];
    ListedTwice(reuse, Freed(subs[i]), FreedAll(subs[..i]), free);
  }

  /** The first `i` children are gone and the store has the bytes it had. */
  ghost predicate Walked(s: Store, n: Node, l: Loc, top: bool, i: nat, was: Snap)
    reads s
  {
    && Felled(s, n, l, top, i, was.owned) && s.mem == was.mem && s.end == was.end && s.handed == was.handed
    && s.freeList == Listed(s.reuse, FreedAll(l.subs[..i]), was.free)
  }

  /** The address of the child at byte `at`. */
  method ReadChild(s: Store, page: nat, at: nat, ghost n: Node, ghost l: Loc, ghost top: bool, ghost i: nat,
                   ghost was: Snap)
    returns (sub: word)
    requires Walked(s, n, l, top, i, was) && page == l.addr && i < |l.subs| && at == LeafOffset(i)
    ensures sub == l.subs[i].addr && i < |n.kids| && Rooted(s, n.kids[i], l.subs[i], false)
  {
    FelledChild(s, n, l, top, i, was.owned);
    s.OwnedPage(page);
    s.PageInside(page);
    FirstColumn(Slot(s.mem, page, s.unit), FlagsOf(n, top), Addrs(l.subs), n.keys, i, at);
    sub := ReadUi64(s, page, at);
  }

  /** Reads the address of the child at byte `at` and destroys it. */
  method DestroyChild(s: Store, page: nat, at: nat, ghost n: Node, ghost l: Loc, ghost top: bool,
                      ghost i: nat, ghost i1: nat, ghost was: Snap)
    requires Walked(s, n, l, top, i, was) && page == l.addr && i < |l.subs| && at == LeafOffset(i) && i1 == i + 1
    modifies s
    ensures Walked(s, n, l, top, i1, was)
    decreases n, 0
  {
    var sub := ReadChild(s, page, at, n, l, top, i, was);
    Destroy(s, sub, n.kids[i], l.subs[i], false);
    PagesNext(l.subs, i, i1);
    ListedNext(s.reuse, l.subs, i, i1, was.free);
  }

  lemma {:induction false} BranchEnd(mem: seq<byte>, unit: nat, n: Node, l: Loc, top: bool)
    requires n.Branch? && Stored(mem, unit, n, l, top)
    ensures |Slot(mem, l.addr, unit)| >= WORD
    ensures PgEnd(Decode(Slot(mem, l.addr, unit), 0)) == KeyOffset(|n.keys|)
  {
    BranchHeader(Slot(mem, l.addr, unit), FlagsOf(n, top), Addrs(l.subs), n.keys);
  }

  lemma {:induction false} WalkStarts(s: Store, n: Node, l: Loc, top: bool)
    requires Rooted(s, n, l, top) && n.Branch?
    ensures Walked(s, n, l, top, 0, s.Now()) && |l.subs| == |n.keys| + 1
  {
    assert l.subs[..0] == [];
  }

  lemma {:induction false} WalkEnds(s: Store, n: Node, l: Loc, top: bool, i: nat, was: Snap)
    requires Walked(s, n, l, top, i, was) && i == |l.subs|
    ensures s.Paged() && s.owned == was.owned - PagesOf(l.subs)
    ensures s.mem == was.mem && s.end == was.end && s.handed == was.handed
    ensures s.freeList == Listed(s.reuse, FreedAll(l.subs), was.free)
  {
    assert l.subs[..i] == l.subs;
  }

  /** Where the walk over a branch ends: behind its last child. */
  method ReadEnd(s: Store, page: nat, ghost n: Node, ghost l: Loc, ghost top: bool) returns (end: nat)
    requires Rooted(s, n, l, top) && page == l.addr && n.Branch?
    ensures end == KeyOffset(|n.keys|)
  {
    TopPage(s, n, l, top);
    s.PageInside(page);
    BranchEnd(s.mem, s.unit, n, l, top);
    var hdr := ReadUi64(s, page, 0);
    end := PgEnd(hdr);
  }

  method DestroyChildren(s: Store, page: nat, ghost n: Node, ghost l: Loc, ghost top: bool)
    requires Rooted(s, n, l, top) && page == l.addr && n.Branch?
    modifies s
    ensures s.Paged() && s.mem == old(s.mem) && s.end == old(s.end) && s.handed == old(s.handed)
    ensures s.owned == old(s.owned) - PagesOf(l.subs)
    ensures s.freeList == Listed(s.reuse, FreedAll(l.subs), old(s.freeList))
    decreases n, 1
  {
    ghost var was, i, i1 := s.Now(), 0, 1;
    WalkStarts(s, n, l, top);
    var end := ReadEnd(s, page, n, l, top);
    var item := HDR;
    DestroyChild(s, page, item, n, l, top, i, i1, was);
    item := item + WORD;
    while item < end
      invariant i1 == i + 1 && i1 <= |l.subs| && item == KeyOffset(i) && Walked(s, n, l, top, i1, was)
      decreases end - item
    {
      NextOffset(item, end, i, i1, |n.keys|);
      i, i1 := i1, i1 + 1;
      var at := item + WORD;
      DestroyChild(s, page, at, n, l, top, i, i1, was);
      item := item + ITEM;
    }
    WalkDone(item, end, i, |n.keys|);
    WalkEnds(s, n, l, top, i1, was);
  }

  lemma NextOffset(item: nat, end: nat, i: nat, i1: nat, keys: nat)
    requires i1 == i + 1 && item == KeyOffset(i) && end == KeyOffset(keys) && item < end
    ensures i < keys && item + WORD == LeafOffset(i1) && item + ITEM == KeyOffset(i1)
  {
  }

  lemma WalkDone(item: nat, end: nat, i: nat, keys: nat)
    requires item == KeyOffset(i) && end == KeyOffset(keys) && item >= end && i <= keys
    ensures i == keys
  {
  }
}
