/** Whole runs of the B-tree on one store: any number of trees, created, added to and destroyed in
    any order. `Run` performs such a run with the byte-level operations and ends in exactly the maps
    the run describes, with every page of the store accounted for. */
module Forest {
  import opened Sequences
  import opened Words
  import opened StoreModel
  import opened PageModel
  import opened StoreSteps
  import opened BTreeModel
  import opened Placement
  import opened BTreeAdd
  import BTreeApi

  /** One live tree: its contents, its pages and its height. */
  datatype Live = Live(node: Node, loc: Loc, height: nat)

  ghost predicate Standing(mem: seq<byte>, unit: nat, t: Live) {
    Stored(mem, unit, t.node, t.loc, true) && Shaped(t.node) && Whole(t.node, unit, t.height)
  }

  function Locs(ts: seq<Live>): (ls: seq<Loc>)
    ensures |ls| == |ts|
    ensures forall i :: 0 <= i < |ts| ==> ls[i] == ts[i].loc
  {
    seq(|ts|, i requires 0 <= i < |ts| => ts[i].loc)
  }

  ghost predicate AllStanding(mem: seq<byte>, unit: nat, ts: seq<Live>) {
    forall i :: 0 <= i < |ts| ==> Standing(mem, unit, ts[i])
  }

  /** The trees share no page, and own between them every page that is owned. */
  ghost predicate Planted(a: Snap, unit: nat, ts: seq<Live>) {
    SeparateAll(Locs(ts)) && a.owned == PagesOf(Locs(ts)) && AllStanding(a.mem, unit, ts)
  }

  ghost function MapsOf(ts: seq<Live>): (ms: seq<map<word, word>>)
    requires AllShaped(ts)
    ensures |ms| == |ts|
    ensures forall i :: 0 <= i < |ts| ==> ms[i] == Model(ts[i].node)
  {
    seq(|ts|, i requires 0 <= i < |ts| => Model(ts[i].node))
  }

  // ---- One edit among other trees ----

  lemma {:induction false} OtherStands(a: Snap, b: Snap, unit: nat, reuse: bool, ts: seq<Live>, t: Live,
                                       gone: set<nat>, taken: set<nat>, written: set<nat>)
    requires unit > 0 && Balanced(a, unit, reuse) && Step(a, b, unit, reuse, gone, taken, written)
    requires Standing(a.mem, unit, t) && Pages(t.loc) <= a.owned && Pages(t.loc) !! gone
    ensures Standing(b.mem, unit, t)
  {
    StoredKept(a.mem, b.mem, unit, a.end, written, t.node, t.loc, true);
  }

  lemma {:induction false} LocsAppend(ts: seq<Live>, us: seq<Live>)
    ensures Locs(ts + us) == Locs(ts) + Locs(us)
  {
  }

  lemma {:induction false} PlantedLast(a: Snap, b: Snap, unit: nat, reuse: bool, ts: seq<Live>, t: Live,
                                       written: set<nat>)
    requires unit > 0 && Balanced(a, unit, reuse) && Planted(a, unit, ts)
    requires Step(a, b, unit, reuse, {}, Pages(t.loc), written)
    requires Standing(b.mem, unit, t) && Separate(t.loc)
    ensures Planted(b, unit, ts + [t])
  {
    var us := ts + [t];
    LocsAppend(ts, [t]);
    assert Locs([t]) == [t.loc];
    PagesOne(t.loc);
    PagesAppend(Locs(ts), [t.loc]);
    SeparateAppend(Locs(ts), [t.loc]);
    forall i | 0 <= i < |us|
      ensures Standing(b.mem, unit, us[i])
    {
      if i < |ts| {
        PagesInside(Locs(ts), i);
        OtherStands(a, b, unit, reuse, ts, ts[i], {}, Pages(t.loc), written);
      }
    }
  }

  lemma {:induction false} LocsParts(ts: seq<Live>, i: nat, t: Live)
    requires i < |ts|
    ensures Locs(ts[i := t]) == Replace(Locs(ts), i, [t.loc])
    ensures Locs(Without(ts, i)) == Replace(Locs(ts), i, [])
  {
    assert Locs(ts[i := t]) == Locs(ts)[i := t.loc];
  }

  lemma {:induction false} OthersStand(a: Snap, b: Snap, unit: nat, reuse: bool, ts: seq<Live>, i: nat,
                                       taken: set<nat>, written: set<nat>, j: nat)
    requires unit > 0 && Balanced(a, unit, reuse) && Planted(a, unit, ts) && i < |ts| && j < |ts| && j != i
    requires Step(a, b, unit, reuse, Pages(ts[i].loc), taken, written)
    ensures Standing(b.mem, unit, ts[j])
  {
    Apart(Locs(ts), i, j);
    OtherStands(a, b, unit, reuse, ts, ts[j], Pages(ts[i].loc), taken, written);
  }

  /** The pages of all trees after one of them has moved to `l`. */
  lemma {:induction false} EditedPages(a: Snap, b: Snap, unit: nat, reuse: bool, ls: seq<Loc>, i: nat, l: Loc,
                                       written: set<nat>)
    requires unit > 0 && SeparateAll(ls) && a.owned == PagesOf(ls) && i < |ls| && Separate(l)
    requires Step(a, b, unit, reuse, Pages(ls[i]), Pages(l), written)
    ensures SeparateAll(Replace(ls, i, [l])) && b.owned == PagesOf(Replace(ls, i, [l]))
  {
    PagesOne(l);
    PagesSplit(ls, i);
    PagesReplace(ls, i, [l]);
  }

  /** Editing one tree leaves every other standing and the pages accounted for. */
  lemma {:induction false} PlantedEdit(a: Snap, b: Snap, unit: nat, reuse: bool, ts: seq<Live>, i: nat, t: Live,
                                       written: set<nat>)
    requires unit > 0 && Balanced(a, unit, reuse) && Planted(a, unit, ts) && i < |ts|
    requires Step(a, b, unit, reuse, Pages(ts[i].loc), Pages(t.loc), written)
    requires Standing(b.mem, unit, t) && Separate(t.loc)
    ensures Planted(b, unit, ts[i := t])
  {
    EditedPages(a, b, unit, reuse, Locs(ts), i, t.loc, written);
    LocsParts(ts, i, t);
    forall j | 0 <= j < |ts| && j != i
      ensures Standing(b.mem, unit, ts[j])
    {
      OthersStand(a, b, unit, reuse, ts, i, Pages(t.loc), written, j);
    }
  }

  lemma {:induction false} PlantedDrop(a: Snap, b: Snap, unit: nat, ts: seq<Live>, i: nat)
    requires unit > 0 && Planted(a, unit, ts) && i < |ts|
    requires b.mem == a.mem && b.owned == a.owned - Pages(ts[i].loc)
    ensures Planted(b, unit, Without(ts, i))
  {
    LocsParts(ts, i, ts[i]);
    PagesSplit(Locs(ts), i);
    PagesReplace(Locs(ts), i, []);
  }

  lemma {:induction false} PlantedRooted(s: Store, ts: seq<Live>, i: nat)
    requires s.Paged() && 64 <= s.unit < MAX16 && Planted(s.Now(), s.unit, ts) && i < |ts|
    ensures Rooted(s, ts[i].node, ts[i].loc, true)
  {
    PagesInside(Locs(ts), i);
    PagesSplit(Locs(ts), i);
  }

  // ---- What a run means ----

  datatype Op = Create | Add(tree: nat, key: word, val: word) | Destroy(tree: nat)

  /** A tree exists, and a key is below 2^63 and new to its tree. */
  predicate Legal(ms: seq<map<word, word>>, op: Op) {
    match op
    case Create => true
    case Add(i, key, _) => i < |ms| && key < TWO63 && key !in ms[i]
    case Destroy(i) => i < |ms|
  }

  function Put(m: map<word, word>, key: word, val: word): map<word, word> {
    m[key := val]
  }

  function Apply(ms: seq<map<word, word>>, op: Op): seq<map<word, word>>
    requires Legal(ms, op)
  {
    match op
    case Create => ms + [map[]]
    case Add(i, key, val) => ms[i := Put(ms[i], key, val)]
    case Destroy(i) => Without(ms, i)
  }

  predicate LegalRun(ms: seq<map<word, word>>, ops: seq<Op>)
    decreases |ops|
  {
    ops == [] || (Legal(ms, ops[0]) && LegalRun(Apply(ms, ops[0]), ops[1..]))
  }

  function Outcome(ms: seq<map<word, word>>, ops: seq<Op>): seq<map<word, word>>
    requires LegalRun(ms, ops)
    decreases |ops|
  {
    if ops == [] then ms else Outcome(Apply(ms, ops[0]), ops[1..])
  }

  ghost predicate Lower(ts: seq<Live>, h: nat) {
    forall i :: 0 <= i < |ts| ==> ts[i].height <= h
  }

  /** Room in the file for `ops` operations on trees no higher than `h`. */
  ghost function Need(unit: nat, h: nat, ops: nat): nat
    decreases ops
  {
    if ops == 0 then 0 else Room(unit, h) + unit + Need(unit, h + 1, ops - 1)
  }

  lemma {:induction false} RoomGrows(unit: nat, h: nat, k: nat)
    requires h <= k
    ensures Room(unit, h) <= Room(unit, k)
  {
    if h < k {
      RoomGrows(unit, h, k - 1);
    }
  }

  lemma Product(u: nat, h: nat, n: nat)
    requires n > 0
    ensures u * (n - 1) * (n - 1 + 2 * (h + 1) + 2) + 2 * u * (h + 1) + u == u * n * (n + 2 * h + 2)
  {
    var a, b := (n - 1) * (n - 1 + 2 * (h + 1) + 2) + 2 * (h + 1) + 1, n * (n + 2 * h + 2);
    assert a == b;
    assert u * a == u * b;
  }

  lemma {:induction false} NeedIs(unit: nat, h: nat, ops: nat)
    ensures Room(unit, h) == 2 * unit * (h + 1)
    ensures Need(unit, h, ops) == unit * ops * (ops + 2 * h + 2)
    decreases ops
  {
    RoomIs(unit, h);
    if ops > 0 {
      NeedIs(unit, h + 1, ops - 1);
      Product(unit, h, ops);
    }
  }

  lemma {:induction false} RoomIs(unit: nat, h: nat)
    ensures Room(unit, h) == 2 * unit * (h + 1)
  {
    if h > 0 {
      RoomIs(unit, h - 1);
    }
  }

  // ---- The operations among other trees ----

  ghost predicate AllShaped(ts: seq<Live>) {
    forall i :: 0 <= i < |ts| ==> Shaped(ts[i].node)
  }

  /** The root addresses a caller keeps. */
  ghost predicate Tracks(roots: seq<word>, ts: seq<Live>) {
    |roots| == |ts| && forall i :: 0 <= i < |ts| ==> roots[i] == ts[i].loc.addr
  }

  lemma {:induction false} TracksEdit(roots: seq<word>, ts: seq<Live>, i: nat, root: word, t: Live, h: nat, h1: nat)
    requires Tracks(roots, ts) && Lower(ts, h) && i < |ts| && root == t.loc.addr && h <= h1 && t.height <= h1
    ensures Tracks(roots[i := root], ts[i := t]) && Lower(ts[i := t], h1)
  {
  }

  lemma {:induction false} TracksMore(roots: seq<word>, ts: seq<Live>, root: word, t: Live, h: nat)
    requires Tracks(roots, ts) && Lower(ts, h) && AllShaped(ts) && root == t.loc.addr && t.height <= h && Shaped(t.node)
    ensures Tracks(roots + [root], ts + [t]) && Lower(ts + [t], h)
    ensures AllShaped(ts + [t]) && MapsOf(ts + [t]) == MapsOf(ts) + [Model(t.node)]
  {
  }

  lemma {:induction false} TracksDrop(roots: seq<word>, ts: seq<Live>, i: nat, h: nat)
    requires Tracks(roots, ts) && Lower(ts, h) && i < |ts|
    ensures Tracks(Without(roots, i), Without(ts, i)) && Lower(Without(ts, i), h)
  {
  }

  lemma {:induction false} MapsEdit(ts: seq<Live>, i: nat, t: Live, m: map<word, word>)
    requires AllShaped(ts) && i < |ts| && Shaped(t.node) && Model(t.node) == m
    ensures AllShaped(ts[i := t]) && MapsOf(ts[i := t]) == MapsOf(ts)[i := m]
  {
  }

  lemma {:induction false} MapsDrop(ts: seq<Live>, i: nat)
    requires AllShaped(ts) && i < |ts|
    ensures AllShaped(Without(ts, i)) && MapsOf(Without(ts, i)) == Without(MapsOf(ts), i)
  {
  }

  ghost predicate Forested(s: Store, roots: seq<word>, ts: seq<Live>)
    reads s
  {
    && s.Paged() && s.unit == DEF_PAGE_SIZE && Planted(s.Now(), s.unit, ts)
    && Tracks(roots, ts)
  }

  method Plant(s: Store, roots: seq<word>, ghost ts: seq<Live>, ghost h: nat)
    returns (roots': seq<word>, ghost ts': seq<Live>)
    requires Forested(s, roots, ts) && Lower(ts, h) && s.end + s.unit < TWO64
    modifies s
    ensures Forested(s, roots', ts') && Lower(ts', h) && MapsOf(ts') == MapsOf(ts) + [map[]]
    ensures s.end <= old(s.end) + s.unit && |s.freeList| <= |old(s.freeList)|
  {
    ghost var s0, t, l := s.Now(), Live(EMPTY_TREE, Loc(0, []), 0), Loc(0, []);
    var root;
    root, l := BTreeApi.Create(s);
    t := Live(EMPTY_TREE, l, 0);
    PlantedLast(s0, s.Now(), s.unit, s.reuse, ts, t, {root});
    TracksMore(roots, ts, root, t, h);
    roots', ts' := roots + [root], ts + [t];
  }

  method AddTo(s: Store, roots: seq<word>, i: nat, key: word, val: word, ghost ts: seq<Live>, ghost h: nat,
               ghost h1: nat)
    returns (roots': seq<word>, ghost ts': seq<Live>)
    requires h1 == h + 1
    requires Forested(s, roots, ts) && Lower(ts, h) && i < |ts| && key < TWO63 && key !in MapsOf(ts)[i]
    requires s.end + Room(s.unit, h) + s.unit < TWO64
    modifies s
    ensures Forested(s, roots', ts') && Lower(ts', h1)
    ensures MapsOf(ts') == MapsOf(ts)[i := Put(MapsOf(ts)[i], key, val)]
    ensures s.end <= old(s.end) + Room(s.unit, h) + s.unit && |s.freeList| <= Max1(|old(s.freeList)|)
  {
    ghost var s0, n, k, l := s.Now(), ts[i].node, ts[i].height, ts[i].loc;
    ghost var written := {};
    PlantedRooted(s, ts, i);
    RoomGrows(s.unit, k, h);
    AddCorrect(n, s.unit, k, key, val);
    var root;
    root, l, written := BTreeApi.Add(s, roots[i], key, val, n, l, k);
    ghost var t := Live(BTreeModel.Add(n, s.unit, key, val), l, if Grow(n, s.unit, key, val).One? then k else k + 1);
    PlantedEdit(s0, s.Now(), s.unit, s.reuse, ts, i, t, written);
    MapsEdit(ts, i, t, Put(Model(n), key, val));
    TracksEdit(roots, ts, i, root, t, h, h1);
    roots', ts' := roots[i := root], ts[i := t];
  }

  method Fell(s: Store, roots: seq<word>, i: nat, ghost ts: seq<Live>, ghost h: nat)
    returns (roots': seq<word>, ghost ts': seq<Live>)
    requires Forested(s, roots, ts) && Lower(ts, h) && i < |ts|
    modifies s
    ensures Forested(s, roots', ts') && Lower(ts', h) && MapsOf(ts') == Without(MapsOf(ts), i)
    ensures s.end == old(s.end)
  {
    ghost var s0 := s.Now();
    PlantedRooted(s, ts, i);
    BTreeApi.Destroy(s, roots[i], ts[i].node, ts[i].loc, true);
    PlantedDrop(s0, s.Now(), s.unit, ts, i);
    MapsDrop(ts, i);
    TracksDrop(roots, ts, i, h);
    roots', ts' := Without(roots, i), Without(ts, i);
  }

  method Perform(s: Store, roots: seq<word>, op: Op, ghost ts: seq<Live>, ghost h: nat, ghost h1: nat)
    returns (roots': seq<word>, ghost ts': seq<Live>)
    requires Forested(s, roots, ts) && Lower(ts, h) && Legal(MapsOf(ts), op) && h1 == h + 1
    requires s.end + Room(s.unit, h) + s.unit < TWO64
    modifies s
    ensures Forested(s, roots', ts') && Lower(ts', h1) && MapsOf(ts') == Apply(MapsOf(ts), op)
    ensures s.end <= old(s.end) + Room(s.unit, h) + s.unit
    ensures !op.Destroy? ==> |s.freeList| <= Max1(|old(s.freeList)|)
  {
    match op
    case Create => roots', ts' := Plant(s, roots, ts, h);
    case Add(i, key, val) => roots', ts' := AddTo(s, roots, i, key, val, ts, h, h1);
    case Destroy(i) => roots', ts' := Fell(s, roots, i, ts, h);
  }

  /** `btree_find` in one of many trees. */
  method Lookup(s: Store, roots: seq<word>, i: nat, key: word, ghost ts: seq<Live>)
    returns (c: BTreeApi.Cursor, ghost k: nat)
    requires Forested(s, roots, ts) && i < |ts|
    ensures BTreeApi.Lands(s.mem, s.unit, MapsOf(ts)[i], key, c)
    ensures BTreeApi.Stands(ts[i].node, ts[i].loc, key, c, k) && Divides(Entries(ts[i].node), key, k)
  {
    PlantedRooted(s, ts, i);
    c, k := BTreeApi.Find(s, roots[i], key, ts[i].node, ts[i].loc, ts[i].height);
  }

  /** `store_open` of a new file: a formatted store whose first page is the empty `free_root` tree. */
  method Open(reuse: bool) returns (s: Store, roots: seq<word>, ghost ts: seq<Live>)
    ensures fresh(s) && s.reuse == reuse && Forested(s, roots, ts) && Lower(ts, 0) && MapsOf(ts) == [map[]]
    ensures s.end <= HEADER_SIZE + DEF_PAGE_SIZE && s.freeList == []
  {
    s := new Store(reuse, DEF_PAGE_SIZE);
    NothingPlanted(s.Now(), s.unit);
    roots, ts := Plant(s, [], [], 0);
  }

  lemma NothingPlanted(a: Snap, unit: nat)
    requires a.owned == {}
    ensures Planted(a, unit, []) && MapsOf([]) == []
  {
    assert Locs([]) == [];
  }

  predicate NoDestroy(ops: seq<Op>) {
    forall i :: 0 <= i < |ops| ==> !ops[i].Destroy?
  }

  /** Any run of creations, additions and destructions, in any order over any number of trees. */
  method Run(s: Store, roots: seq<word>, ops: seq<Op>, ghost ts: seq<Live>, ghost h: nat, ghost top: nat)
    returns (roots': seq<word>, ghost ts': seq<Live>)
    requires Forested(s, roots, ts) && Lower(ts, h) && LegalRun(MapsOf(ts), ops)
    requires s.end + Need(s.unit, h, |ops|) < TWO64 && top == h + |ops|
    modifies s
    ensures Forested(s, roots', ts') && Lower(ts', top) && MapsOf(ts') == Outcome(MapsOf(ts), ops)
    ensures NoDestroy(ops) ==> |s.freeList| <= Max1(|old(s.freeList)|)
    decreases |ops|
  {
    if |ops| == 0 {
      roots', ts' := roots, ts;
    } else {
      ghost var h1, u := h + 1, ts;
      roots', u := Perform(s, roots, ops[0], ts, h, h1);
      roots', ts' := Run(s, roots', ops[1..], u, h1, top);
    }
  }

  /** A run on a new file. Without destruction, and with pages reused, the file has used no more than
      the header, the pages of the live trees and one page besides. */
  method FreshRun(reuse: bool, ops: seq<Op>) returns (s: Store, roots: seq<word>, ghost ts: seq<Live>)
    requires LegalRun([map[]], ops) && HEADER_SIZE + DEF_PAGE_SIZE + Need(DEF_PAGE_SIZE, 0, |ops|) < TWO64
    ensures Forested(s, roots, ts) && s.reuse == reuse && MapsOf(ts) == Outcome([map[]], ops)
    ensures reuse && NoDestroy(ops) ==> s.end <= HEADER_SIZE + s.unit * (|PagesOf(Locs(ts))| + 1)
  {
    ghost var first, top := [], |ops|;
    s, roots, first := Open(reuse);
    roots, ts := Run(s, roots, ops, first, 0, top);
    if reuse && NoDestroy(ops) {
      ghost var m := |PagesOf(Locs(ts))| + 1;
      SpaceBound(s.Now(), s.unit, ts, m);
    }
  }

  // ---- How many pages a store has ----

  ghost function AllPagesBelow(end: nat, unit: nat): (ps: set<nat>)
    requires unit > 0
    ensures forall p :: p in ps <==> IsPage(p, end, unit)
    decreases end
  {
    if end >= HEADER_SIZE + unit then {end - unit} + AllPagesBelow(end - unit, unit) else {}
  }

  lemma OneMore(unit: nat, n: nat, n1: nat)
    requires n1 == n + 1
    ensures unit * n1 == unit * n + unit
  {
  }

  lemma {:induction false} PageCount(end: nat, unit: nat)
    requires unit > 0 && Aligned(end, unit)
    ensures end == HEADER_SIZE + unit * |AllPagesBelow(end, unit)|
    decreases end
  {
    if end != HEADER_SIZE {
      var e := end - unit;
      PageCount(e, unit);
      if IsPage(e, e, unit) {
        PagesDisjoint(e, e, e, unit);
        assert false;
      }
      var ps := AllPagesBelow(e, unit);
      assert AllPagesBelow(end, unit) == {e} + ps && e !in ps;
      OneMore(unit, |ps|, |AllPagesBelow(end, unit)|);
    }
  }

  function SetOf(s: seq<nat>): (r: set<nat>)
    ensures forall p :: p in r <==> p in s
  {
    set p | p in s
  }

  lemma {:induction false} SetSize(s: seq<nat>)
    requires NoRepeats(s)
    ensures |SetOf(s)| == |s|
  {
    if s != [] {
      SetSize(s[1..]);
      assert SetOf(s) == {s[0]} + SetOf(s[1..]);
    } else {
      assert SetOf(s) == {};
    }
  }

  /** The allocation mark counts the pages: live ones, free ones and retired ones, each once. */
  lemma {:induction false} EndCounts(a: Snap, unit: nat, reuse: bool, n: nat)
    requires unit > 0 && Balanced(a, unit, reuse) && n == |a.owned| + |a.free| + |a.retired|
    ensures a.end == HEADER_SIZE + unit * n
  {
    PageCount(a.end, unit);
    AccountedSet(a, unit, reuse);
    SetSize(a.free);
    ThreeSets(SetOf(a.free), a.owned, a.retired);
    assert |AllPagesBelow(a.end, unit)| == n;
  }

  lemma AccountedSet(a: Snap, unit: nat, reuse: bool)
    requires unit > 0 && Balanced(a, unit, reuse)
    ensures AllPagesBelow(a.end, unit) == SetOf(a.free) + a.owned + a.retired
    ensures SetOf(a.free) !! a.owned && SetOf(a.free) !! a.retired && a.owned !! a.retired
  {
  }

  lemma ThreeSets(f: set<nat>, o: set<nat>, r: set<nat>)
    requires f !! o && f !! r && o !! r
    ensures |f + o + r| == |f| + |o| + |r|
  {
  }

  /** On a fresh store, a run without destruction leaves at most one page unused: the file holds
      the header, the live pages and at most one more. */
  lemma {:induction false} SpaceBound(a: Snap, unit: nat, ts: seq<Live>, m: nat)
    requires unit > 0 && Balanced(a, unit, true) && Planted(a, unit, ts) && |a.free| <= 1
    requires m == |PagesOf(Locs(ts))| + 1
    ensures a.end <= HEADER_SIZE + unit * m
  {
    var n := |a.owned| + |a.free| + |a.retired|;
    EndCounts(a, unit, true, n);
    MulGrows(unit, n, m);
  }

  lemma MulGrows(u: nat, m: nat, n: nat)
    requires m <= n
    ensures u * m <= u * n
  {
  }

  /** Conservation, page by page: a page between the header and `end` is reachable from exactly one
      live tree, or free, or retired, and is never two of these; and nothing else is. */
  lemma {:induction false} EveryPageOnce(a: Snap, unit: nat, reuse: bool, ts: seq<Live>, p: nat)
    requires unit > 0 && Balanced(a, unit, reuse) && Planted(a, unit, ts)
    ensures IsPage(p, a.end, unit)
            <==> p in a.free || p in a.retired || exists i :: 0 <= i < |ts| && p in Pages(ts[i].loc)
    ensures p in a.free ==> p !in a.retired && multiset(a.free)[p] == 1
    ensures forall i, j :: 0 <= i < |ts| && 0 <= j < |ts| && p in Pages(ts[i].loc) && p in Pages(ts[j].loc) ==> i == j
    ensures forall i :: 0 <= i < |ts| && p in Pages(ts[i].loc) ==>
              p !in a.free && p !in a.retired && Separate(ts[i].loc)
  {
    PagesOfHas(Locs(ts), p);
    forall i, j | 0 <= i < |ts| && 0 <= j < |ts| && p in Pages(ts[i].loc) && p in Pages(ts[j].loc)
      ensures i == j
    {
      if i != j {
        Apart(Locs(ts), i, j);
        assert false;
      }
    }
    forall i | 0 <= i < |ts| && p in Pages(ts[i].loc)
      ensures p in a.owned && Separate(ts[i].loc)
    {
      PagesSplit(Locs(ts), i);
    }
    if p in a.free {
      var i :| 0 <= i < |a.free| && a.free[i] == p;
      OnceInList(a.free, i);
    }
    if p in a.owned {
      var i :| 0 <= i < |ts| && p in Pages(Locs(ts)[i]);
    }
  }

  lemma {:induction false} OnceInList(s: seq<nat>, i: nat)
    requires NoRepeats(s) && i < |s|
    ensures multiset(s)[s[i]] == 1
  {
    assert s == s[..i] + [s[i]] + s[i + 1..];
    assert s[i] !in s[..i] && s[i] !in s[i + 1..];
  }

  lemma {:induction false} PagesOfHas(ls: seq<Loc>, p: nat)
    ensures p in PagesOf(ls) <==> exists i :: 0 <= i < |ls| && p in Pages(ls[i])
  {
    if ls != [] {
      PagesOfHas(ls[1..], p);
      if p in PagesOf(ls[1..]) {
        var i :| 0 <= i < |ls[1..]| && p in Pages(ls[1..][i]);
        assert p in Pages(ls[i + 1]);
      }
      if i :| 0 <= i < |ls| && p in Pages(ls[i]) {
        assert i > 0 ==> p in Pages(ls[1..][i - 1]);
      }
    }
  }
}
