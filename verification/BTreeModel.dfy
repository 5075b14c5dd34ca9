/** The B+tree as a value: what `btree_add` does to keys, values and children, without addresses
    or bytes. `BTree` proves that the byte-level code computes exactly `Grow`; this module proves
    what `Grow` means. */
module BTreeModel {
  import opened Words

  /** A separator key of a branch: everything in kids[..i + 1] < keys[i] <= everything in kids[i + 1..]. */
  datatype Node =
    | Leaf(keys: seq<word>, vals: seq<word>)
    | Branch(keys: seq<word>, kids: seq<Node>)

  /** The pages an insertion puts in place of one page: one, or two with their separator. */
  datatype Grown = One(node: Node) | Two(left: Node, mid: word, right: Node)

  type Entry = (word, word)

  function LeafCap(unit: nat): int { (unit - 8) / 16 }
  function BranchCap(unit: nat): int { (unit - 16) / 16 }

  /** A page holds as many keys as fit behind its header: 16 bytes a key, and 8 more in a branch. */
  lemma CapsExact(unit: nat, keys: nat)
    ensures keys <= LeafCap(unit) <==> 8 + 16 * keys <= unit
    ensures keys <= BranchCap(unit) <==> 16 + 16 * keys <= unit
  {
  }

  // ---- Search ----

  /** First index whose key is not below `key`. */
  function LeafIndex(keys: seq<word>, key: word): (i: nat)
    ensures i <= |keys|
    ensures forall j :: 0 <= j < i ==> keys[j] < key
    ensures i < |keys| ==> key <= keys[i]
  {
    if keys == [] || key <= keys[0] then 0 else 1 + LeafIndex(keys[1..], key)
  }

  /** First index whose key is above `key`. */
  function BranchIndex(keys: seq<word>, key: word): (i: nat)
    ensures i <= |keys|
    ensures forall j :: 0 <= j < i ==> keys[j] <= key
    ensures i < |keys| ==> key < keys[i]
  {
    if keys == [] || key < keys[0] then 0 else 1 + BranchIndex(keys[1..], key)
  }

  // ---- Splitting a full page ----

  function Insert<T>(a: seq<T>, i: nat, x: T): (r: seq<T>)
    requires i <= |a|
    ensures |r| == |a| + 1
  {
    a[..i] + [x] + a[i..]
  }

  lemma {:induction false} InsertAt<T>(a: seq<T>, i: nat, x: T)
    requires i <= |a|
    ensures forall j :: 0 <= j <= |a| ==>
              Insert(a, i, x)[j] == if j < i then a[j] else if j == i then x else a[j - 1]
  {
    assert Insert(a, i, x) == a[..i] + [x] + a[i..];
  }

  /** `a` with the element at `i` replaced by two. */
  function Spread<T>(a: seq<T>, i: nat, x: T, y: T): (r: seq<T>)
    requires i < |a|
    ensures |r| == |a| + 1
  {
    a[..i] + [x, y] + a[i + 1..]
  }

  /** Where a page of `n` keys is cut when something goes in at index `i`. */
  function Median(n: nat, i: nat): nat {
    if i > n / 2 then n / 2 + 1 else n / 2
  }

  /** The half `a[si..ei]` of a leaf column, with `x` put in at `i` when `i` belongs to this half. */
  function LeafCopyIn<T>(a: seq<T>, si: nat, ei: nat, i: nat, x: T): (r: seq<T>)
    requires si <= ei <= |a|
  {
    if CopiesIn(si, ei, i) then a[si..i] + [x] + a[i..ei] else a[si..ei]
  }

  predicate CopiesIn(si: nat, ei: nat, i: nat) {
    (si == 0 || i > si) && i <= ei
  }

  function LeafLeft<T>(a: seq<T>, i: nat, x: T): seq<T>
    requires Median(|a|, i) <= |a|
  {
    LeafCopyIn(a, 0, Median(|a|, i), i, x)
  }

  function LeafRight<T>(a: seq<T>, i: nat, x: T): seq<T>
    requires Median(|a|, i) <= |a|
  {
    LeafCopyIn(a, Median(|a|, i), |a|, i, x)
  }

  /** Whether child `i` is replaced in the half of a branch with keys `si..ei`. */
  predicate CopiesUp(si: nat, ei: nat, i: nat) {
    i >= si && (si != 0 || i <= ei)
  }

  function CopyUpKeys(keys: seq<word>, si: nat, ei: nat, i: nat, key: word): (r: seq<word>)
    requires si <= ei <= |keys| && i <= |keys|
    requires CopiesUp(si, ei, i) ==> i <= ei
  {
    if CopiesUp(si, ei, i) then keys[si..i] + [key] + keys[i..ei] else keys[si..ei]
  }

  function CopyUpKids<T>(kids: seq<T>, si: nat, ei: nat, i: nat, orig: T, split: T): (r: seq<T>)
    requires si <= ei < |kids| && i < |kids|
    requires CopiesUp(si, ei, i) ==> i <= ei
  {
    if CopiesUp(si, ei, i) then kids[si..i] + [orig, split] + kids[i + 1..ei + 1] else kids[si..ei + 1]
  }

  lemma {:induction false} CopyInLength<T>(a: seq<T>, si: nat, ei: nat, i: nat, x: T)
    requires si <= ei <= |a|
    ensures |LeafCopyIn(a, si, ei, i, x)| == ei - si + if CopiesIn(si, ei, i) then 1 else 0
  {
  }

  lemma {:induction false} CopyUpLengths<T>(keys: seq<word>, kids: seq<T>, si: nat, ei: nat, i: nat,
                                            key: word, orig: T, split: T)
    requires si <= ei <= |keys| && |kids| == |keys| + 1 && i <= |keys|
    requires CopiesUp(si, ei, i) ==> i <= ei
    ensures |CopyUpKeys(keys, si, ei, i, key)| == ei - si + if CopiesUp(si, ei, i) then 1 else 0
    ensures |CopyUpKids(kids, si, ei, i, orig, split)| == |CopyUpKeys(keys, si, ei, i, key)| + 1
  {
  }

  /** A full leaf of at least three keys splits, at every position, into its old column with the new
      element inserted in order; neither half is empty or larger than the page was. */
  lemma {:induction false} LeafSplitIsInsert<T>(a: seq<T>, i: nat, x: T)
    requires |a| >= 3 && i <= |a|
    ensures LeafLeft(a, i, x) + LeafRight(a, i, x) == Insert(a, i, x)
    ensures 0 < |LeafLeft(a, i, x)| <= |a| && 0 < |LeafRight(a, i, x)| <= |a|
    ensures LeafRight(a, i, x)[0] == a[Median(|a|, i)]
  {
  }

  /** The index of the median among the keys with the new separator inserted. */
  function CutPoint(n: nat, i: nat): nat {
    if i <= Median(n, i) then Median(n, i) + 1 else Median(n, i)
  }

  lemma JoinParts<T>(a: seq<T>, b: seq<T>, p: nat)
    requires p == |a|
    ensures (a + b)[0..p] == a && (a + b)[p..|a + b|] == b
  {
  }

  lemma JoinParts3<T>(a: seq<T>, x: T, b: seq<T>, p: nat, p1: nat)
    requires p == |a| && p1 == p + 1
    ensures var s := a + [x] + b; s[0..p] == a && s[p] == x && s[p1..|s|] == b
  {
  }

  /** Where the keys with the new one inserted are cut: at `p`, where the median is. */
  lemma {:induction false} CutKeys(keys: seq<word>, i: nat, key: word, m: nat, m1: nat, p: nat, p1: nat)
    requires |keys| >= 3 && i <= |keys| && m == Median(|keys|, i) && m1 == m + 1
    requires p == CutPoint(|keys|, i) && p1 == p + 1
    ensures var ks := Insert(keys, i, key);
            && m < |keys| && p1 <= |ks| && ks[p] == keys[m]
            && CopyUpKeys(keys, 0, m, i, key) == ks[0..p]
            && CopyUpKeys(keys, m1, |keys|, i, key) == ks[p1..|ks|]
            && |CopyUpKeys(keys, 0, m, i, key)| <= |keys|
            && |CopyUpKeys(keys, m1, |keys|, i, key)| <= |keys|
  {
    var n := |keys|;
    var left, right := CopyUpKeys(keys, 0, m, i, key), CopyUpKeys(keys, m1, n, i, key);
    if i <= m {
      assert keys[i..] == keys[i..m] + [keys[m]] + keys[m1..n];
    } else {
      assert keys[..i] == keys[0..m] + [keys[m]] + keys[m1..i];
    }
    assert Insert(keys, i, key) == left + [keys[m]] + right;
    JoinParts3(left, keys[m], right, p, p1);
  }

  /** Where the children with the grown one spread are cut. */
  lemma {:induction false} CutKids<T>(kids: seq<T>, i: nat, a: T, b: T, m: nat, m1: nat, k: nat, p: nat)
    requires |kids| >= 4 && i < |kids| && k == |kids| - 1 && m == Median(k, i) && m1 == m + 1
    requires p == CutPoint(k, i) + 1
    ensures m1 <= k && p <= |kids| + 1
    ensures CopyUpKids(kids, 0, m, i, a, b) == Spread(kids, i, a, b)[0..p]
    ensures CopyUpKids(kids, m1, k, i, a, b) == Spread(kids, i, a, b)[p..|Spread(kids, i, a, b)|]
  {
    var n, i1 := |kids|, i + 1;
    var left, right := CopyUpKids(kids, 0, m, i, a, b), CopyUpKids(kids, m1, k, i, a, b);
    if i <= m {
      assert kids[i1..] == kids[i1..m1] + kids[m1..n];
    } else {
      assert kids[..i] == kids[0..m1] + kids[m1..i];
    }
    assert Spread(kids, i, a, b) == left + right;
    JoinParts(left, right, p);
  }

  lemma {:induction false} Parts3<T>(s: seq<T>, p: nat, p1: nat)
    requires p < |s| && p1 == p + 1
    ensures s[0..p] + [s[p]] + s[p1..|s|] == s
  {
  }

  /** The keys of the two halves of a branch and the median between them. */
  lemma {:induction false} SplitKeysIsInsert(keys: seq<word>, i: nat, key: word, m: nat, m1: nat)
    requires |keys| >= 3 && i <= |keys| && m == Median(|keys|, i) && m1 == m + 1
    ensures 0 < m < |keys|
    ensures CopyUpKeys(keys, 0, m, i, key) + [keys[m]] + CopyUpKeys(keys, m1, |keys|, i, key) == Insert(keys, i, key)
  {
    var p := CutPoint(|keys|, i);
    var p1 := p + 1;
    CutKeys(keys, i, key, m, m1, p, p1);
    Parts3(Insert(keys, i, key), p, p1);
  }

  lemma {:induction false} SplitKidsIsSpread<T>(kids: seq<T>, i: nat, orig: T, split: T, k: nat, m: nat, m1: nat)
    requires |kids| >= 4 && k == |kids| - 1 && i <= k && m == Median(k, i) && m1 == m + 1
    ensures m1 <= k
    ensures CopyUpKids(kids, 0, m, i, orig, split) + CopyUpKids(kids, m1, k, i, orig, split)
            == Spread(kids, i, orig, split)
  {
    var p := CutPoint(k, i) + 1;
    CutKids(kids, i, orig, split, m, m1, k, p);
    Parts2(Spread(kids, i, orig, split), p);
  }

  lemma Parts2<T>(s: seq<T>, p: nat)
    requires p <= |s|
    ensures s[0..p] + s[p..|s|] == s
  {
  }

  /** The two halves of a full branch of at least three keys, with the median key between them, are
      its old keys with the separator inserted, and its old children with one replaced by two.
      The median is in neither half. */
  lemma {:induction false} BranchSplitIsInsert<T>(keys: seq<word>, kids: seq<T>, i: nat, key: word, orig: T, split: T)
    requires |keys| >= 3 && |kids| == |keys| + 1 && i <= |keys|
    ensures var m := Median(|keys|, i);
            && 0 < m < |keys|
            && CopyUpKeys(keys, 0, m, i, key) + [keys[m]] + CopyUpKeys(keys, m + 1, |keys|, i, key)
               == Insert(keys, i, key)
            && CopyUpKids(kids, 0, m, i, orig, split) + CopyUpKids(kids, m + 1, |keys|, i, orig, split)
               == Spread(kids, i, orig, split)
            && |CopyUpKids(kids, 0, m, i, orig, split)| == |CopyUpKeys(keys, 0, m, i, key)| + 1
            && |CopyUpKids(kids, m + 1, |keys|, i, orig, split)|
               == |CopyUpKeys(keys, m + 1, |keys|, i, key)| + 1
            && 0 < |CopyUpKeys(keys, 0, m, i, key)| <= |keys|
            && |CopyUpKeys(keys, m + 1, |keys|, i, key)| < |keys|
  {
    var k, m := |keys|, Median(|keys|, i);
    var m1 := m + 1;
    SplitKeysIsInsert(keys, i, key, m, m1);
    SplitKidsIsSpread(kids, i, orig, split, k, m, m1);
    CopyUpLengths(keys, kids, 0, m, i, key, orig, split);
    CopyUpLengths(keys, kids, m1, k, i, key, orig, split);
  }

  /** Where the cut is: the left half gets the middle of the page, and one element more when the new one
      goes in right behind it; the median is in neither half of a branch. */
  lemma {:induction false} SplitSizes(keys: seq<word>, i: nat, key: word)
    requires |keys| >= 3 && i <= |keys|
    ensures var n, more := |keys|, if i == |keys| / 2 + 1 then 2 else 1;
            && |LeafLeft(keys, i, key)| == n / 2 + more && |LeafRight(keys, i, key)| == n - n / 2 + 1 - more
            && |CopyUpKeys(keys, 0, Median(n, i), i, key)| == n / 2 + more
            && |CopyUpKeys(keys, Median(n, i) + 1, n, i, key)| == n - n / 2 - more
  {
  }

  /** The leaf split reads a median inside the page and keeps every element at every position
      exactly when the page has at least three keys: the limit the source notes at btree.c:8. */
  lemma {:induction false} LeafSplitNeedsThree(a: seq<word>, x: word)
    ensures (forall i: nat :: i <= |a| ==>
               && Median(|a|, i) < |a|
               && LeafLeft(a, i, x) + LeafRight(a, i, x) == Insert(a, i, x))
            <==> |a| >= 3
  {
    if |a| >= 3 {
      forall i: nat | i <= |a|
        ensures LeafLeft(a, i, x) + LeafRight(a, i, x) == Insert(a, i, x)
      {
        LeafSplitIsInsert(a, i, x);
      }
    } else {
      assert Median(|a|, |a|) >= |a|;
    }
  }

  /** The branch split, too, finds its median among the keys and keeps every key at every position
      exactly when the page has at least three keys. */
  lemma {:induction false} BranchSplitNeedsThree(keys: seq<word>, key: word)
    ensures (forall i: nat :: i <= |keys| ==>
               && Median(|keys|, i) < |keys|
               && CopyUpKeys(keys, 0, Median(|keys|, i), i, key) + [keys[Median(|keys|, i)]]
                  + CopyUpKeys(keys, Median(|keys|, i) + 1, |keys|, i, key) == Insert(keys, i, key))
            <==> |keys| >= 3
  {
    if |keys| >= 3 {
      forall i: nat | i <= |keys|
        ensures CopyUpKeys(keys, 0, Median(|keys|, i), i, key) + [keys[Median(|keys|, i)]]
                + CopyUpKeys(keys, Median(|keys|, i) + 1, |keys|, i, key) == Insert(keys, i, key)
      {
        SplitKeysIsInsert(keys, i, key, Median(|keys|, i), Median(|keys|, i) + 1);
      }
    } else {
      assert Median(|keys|, |keys|) >= |keys|;
    }
  }

  // ---- Insertion ----

  /** Columns and child lists have matching lengths, at every level. */
  ghost predicate Shaped(n: Node) {
    match n
    case Leaf(keys, vals) => |keys| == |vals|
    case Branch(keys, kids) => |kids| == |keys| + 1 && forall i :: 0 <= i < |kids| ==> Shaped(kids[i])
  }

  function AddToLeaf(n: Node, unit: nat, key: word, val: word): Grown
    requires n.Leaf? && |n.keys| == |n.vals| && unit >= 64
  {
    var i := LeafIndex(n.keys, key);
    if |n.keys| < LeafCap(unit) then
      One(Leaf(Insert(n.keys, i, key), Insert(n.vals, i, val)))
    else
      var m := Median(|n.keys|, i);
      Two(Leaf(LeafLeft(n.keys, i, key), LeafLeft(n.vals, i, val)), n.keys[m],
          Leaf(LeafRight(n.keys, i, key), LeafRight(n.vals, i, val)))
  }

  function LeftHalf(keys: seq<word>, kids: seq<Node>, i: nat, mid: word, l: Node, r: Node): Node
    requires |keys| >= 3 && i < |kids| == |keys| + 1
  {
    var m := Median(|keys|, i);
    Branch(CopyUpKeys(keys, 0, m, i, mid), CopyUpKids(kids, 0, m, i, l, r))
  }

  function RightHalf(keys: seq<word>, kids: seq<Node>, i: nat, mid: word, l: Node, r: Node): Node
    requires |keys| >= 3 && i < |kids| == |keys| + 1
  {
    var m, k := Median(|keys|, i), |keys|;
    Branch(CopyUpKeys(keys, m + 1, k, i, mid), CopyUpKids(kids, m + 1, k, i, l, r))
  }

  /** Puts the grown child back at index `i` of the branch `n`. */
  function AddToBranch(n: Node, unit: nat, i: nat, g: Grown): Grown
    requires n.Branch? && |n.kids| == |n.keys| + 1 && i < |n.kids| && unit >= 64
  {
    match g
    case One(kid) => One(Branch(n.keys, n.kids[i := kid]))
    case Two(l, mid, r) =>
      if |n.keys| < BranchCap(unit) then
        One(Branch(Insert(n.keys, i, mid), Spread(n.kids, i, l, r)))
      else
        Two(LeftHalf(n.keys, n.kids, i, mid, l, r), n.keys[Median(|n.keys|, i)],
            RightHalf(n.keys, n.kids, i, mid, l, r))
  }

  function Grow(n: Node, unit: nat, key: word, val: word): Grown
    requires Shaped(n) && unit >= 64
  {
    match n
    case Leaf(_, _) => AddToLeaf(n, unit, key, val)
    case Branch(keys, kids) =>
      var i := BranchIndex(keys, key);
      AddToBranch(n, unit, i, Grow(kids[i], unit, key, val))
  }

  const EMPTY_TREE := Leaf([], [])

  /** `btree_add`: a split of the root page puts a new root above the halves. */
  function Add(n: Node, unit: nat, key: word, val: word): Node
    requires Shaped(n) && unit >= 64
  {
    match Grow(n, unit, key, val)
    case One(n') => n'
    case Two(l, mid, r) => Branch([mid], [l, r])
  }

  // ---- Shape and order ----

  predicate Ascending(ks: seq<word>) {
    forall i, j :: 0 <= i < j < |ks| ==> ks[i] < ks[j]
  }

  function Low(keys: seq<word>, i: nat, lo: int): int
    requires i <= |keys|
  {
    if i == 0 then lo else keys[i - 1]
  }

  function High(keys: seq<word>, i: nat, hi: int): int
    requires i <= |keys|
  {
    if i == |keys| then hi else keys[i]
  }

  /** A B+tree of height `h` (0 for a leaf) with keys in [lo, hi): strictly ascending keys, pages
      within their size, every child between its separators, all leaves at the same depth. */
  ghost predicate Tree(n: Node, unit: nat, h: nat, lo: int, hi: int) {
    match n
    case Leaf(keys, vals) =>
      && h == 0
      && |keys| == |vals| <= LeafCap(unit)
      && Ascending(keys)
      && forall i :: 0 <= i < |keys| ==> lo <= keys[i] < hi
    case Branch(keys, kids) =>
      && h > 0
      && |kids| == |keys| + 1 && |keys| <= BranchCap(unit)
      && Ascending(keys)
      && (forall i :: 0 <= i < |keys| ==> lo < keys[i] < hi)
      && forall i :: 0 <= i < |kids| ==> Tree(kids[i], unit, h - 1, Low(keys, i, lo), High(keys, i, hi))
  }

  lemma {:induction false} TreeShaped(n: Node, unit: nat, h: nat, lo: int, hi: int)
    requires Tree(n, unit, h, lo, hi)
    ensures Shaped(n)
  {
    if n.Branch? {
      forall i | 0 <= i < |n.kids|
        ensures Shaped(n.kids[i])
      {
        TreeShaped(n.kids[i], unit, h - 1, Low(n.keys, i, lo), High(n.keys, i, hi));
      }
    }
  }

  function Zip(keys: seq<word>, vals: seq<word>): (es: seq<Entry>)
    requires |keys| == |vals|
    ensures |es| == |keys|
    ensures forall i :: 0 <= i < |keys| ==> es[i] == (keys[i], vals[i])
  {
    seq(|keys|, i requires 0 <= i < |keys| => (keys[i], vals[i]))
  }

  /** The entries of a tree, left to right. */
  function Entries(n: Node): seq<Entry>
    requires Shaped(n)
    decreases n, 1
  {
    match n
    case Leaf(keys, vals) => Zip(keys, vals)
    case Branch(keys, kids) => EntriesOf(kids)
  }

  function EntriesOf(kids: seq<Node>): seq<Entry>
    requires forall i :: 0 <= i < |kids| ==> Shaped(kids[i])
    decreases kids, 0
  {
    if kids == [] then [] else Entries(kids[0]) + EntriesOf(kids[1..])
  }

  // ---- Growing keeps the shape ----

  ghost predicate Column(keys: seq<word>, lo: int, hi: int) {
    Ascending(keys) && forall i :: 0 <= i < |keys| ==> lo <= keys[i] < hi
  }

  ghost predicate Kids(keys: seq<word>, kids: seq<Node>, unit: nat, h: nat, lo: int, hi: int) {
    && |kids| == |keys| + 1
    && Ascending(keys)
    && (forall i :: 0 <= i < |keys| ==> lo < keys[i] < hi)
    && forall i :: 0 <= i < |kids| ==> Tree(kids[i], unit, h, Low(keys, i, lo), High(keys, i, hi))
  }

  ghost predicate GrownTree(g: Grown, unit: nat, h: nat, lo: int, hi: int) {
    match g
    case One(n) => Tree(n, unit, h, lo, hi)
    case Two(l, mid, r) => lo < mid < hi && Tree(l, unit, h, lo, mid) && Tree(r, unit, h, mid, hi)
  }

  lemma {:induction false} ColumnInsert(keys: seq<word>, lo: int, hi: int, key: word)
    requires Column(keys, lo, hi) && lo <= key < hi && key !in keys
    ensures Column(Insert(keys, LeafIndex(keys, key), key), lo, hi)
  {
    var i := LeafIndex(keys, key);
    InsertAt(keys, i, key);
    assert i < |keys| ==> keys[i] != key;
  }

  lemma {:induction false} LeafGrows(n: Node, unit: nat, lo: int, hi: int, key: word, val: word)
    requires n.Leaf? && Tree(n, unit, 0, lo, hi) && unit >= 64 && lo <= key < hi && key !in n.keys
    ensures GrownTree(AddToLeaf(n, unit, key, val), unit, 0, lo, hi)
  {
    var i := LeafIndex(n.keys, key);
    ColumnInsert(n.keys, lo, hi, key);
    if |n.keys| >= LeafCap(unit) {
      LeafSplitIsInsert(n.keys, i, key);
      LeafSplitIsInsert(n.vals, i, val);
      ColumnCut(LeafLeft(n.keys, i, key), LeafRight(n.keys, i, key), lo, hi);
    }
  }

  lemma {:induction false} ColumnCut(l: seq<word>, r: seq<word>, lo: int, hi: int)
    requires Column(l + r, lo, hi) && l != [] && r != []
    ensures lo < r[0] < hi && Column(l, lo, r[0]) && Column(r, r[0], hi)
  {
    var ks := l + r;
    assert forall i :: 0 <= i < |l| ==> l[i] == ks[i];
    assert forall i :: 0 <= i < |r| ==> r[i] == ks[|l| + i];
    assert ks[0] < ks[|l|];
  }

  lemma {:induction false} KidsInsert(keys: seq<word>, kids: seq<Node>, unit: nat, h: nat, lo: int, hi: int,
                   i: nat, l: Node, mid: word, r: Node)
    requires Kids(keys, kids, unit, h, lo, hi) && i < |kids|
    requires GrownTree(Two(l, mid, r), unit, h, Low(keys, i, lo), High(keys, i, hi))
    ensures Kids(Insert(keys, i, mid), Spread(kids, i, l, r), unit, h, lo, hi)
  {
    var ks, ns := Insert(keys, i, mid), Spread(kids, i, l, r);
    InsertAt(keys, i, mid);
    forall j | 0 <= j < |ns|
      ensures Tree(ns[j], unit, h, Low(ks, j, lo), High(ks, j, hi))
    {
      if j < i {
        assert ns[j] == kids[j];
      } else if j > i + 1 {
        assert ns[j] == kids[j - 1];
      }
    }
  }

  lemma {:induction false} KidsReplace(keys: seq<word>, kids: seq<Node>, unit: nat, h: nat, lo: int, hi: int,
                    i: nat, kid: Node)
    requires Kids(keys, kids, unit, h, lo, hi) && i < |kids|
    requires Tree(kid, unit, h, Low(keys, i, lo), High(keys, i, hi))
    ensures Kids(keys, kids[i := kid], unit, h, lo, hi)
  {
  }

  lemma {:induction false} TreeKids(n: Node, unit: nat, h: nat, lo: int, hi: int)
    requires n.Branch? && Tree(n, unit, h, lo, hi)
    ensures h > 0 && Kids(n.keys, n.kids, unit, h - 1, lo, hi) && |n.keys| <= BranchCap(unit)
  {
  }

  lemma {:induction false} KidsTree(keys: seq<word>, kids: seq<Node>, unit: nat, h: nat, lo: int, hi: int)
    requires Kids(keys, kids, unit, h, lo, hi) && |keys| <= BranchCap(unit)
    ensures Tree(Branch(keys, kids), unit, h + 1, lo, hi)
  {
  }

  /** A stretch of a branch is a branch between the separators around it. */
  lemma {:induction false} KidsSlice(keys: seq<word>, kids: seq<Node>, unit: nat, h: nat, lo: int, hi: int,
                                     s: nat, e: nat, ks: seq<word>, ns: seq<Node>)
    requires Kids(keys, kids, unit, h, lo, hi) && s <= e <= |keys|
    requires ks == keys[s..e] && ns == kids[s..e + 1] && |ks| <= BranchCap(unit)
    ensures Tree(Branch(ks, ns), unit, h + 1, Low(keys, s, lo), High(keys, e, hi))
  {
    var lo', hi' := Low(keys, s, lo), High(keys, e, hi);
    forall j | 0 <= j < |ns|
      ensures Tree(ns[j], unit, h, Low(ks, j, lo'), High(ks, j, hi'))
    {
      assert ns[j] == kids[s + j];
    }
    assert Kids(ks, ns, unit, h, lo', hi');
  }

  /** Both halves of a split branch are branches again, on either side of the median. */
  lemma {:induction false} BranchLeftHalf(keys: seq<word>, kids: seq<Node>, unit: nat, h: nat, lo: int, hi: int,
                                          i: nat, l: Node, mid: word, r: Node)
    requires 3 <= |keys| <= BranchCap(unit) && i < |kids| == |keys| + 1
    requires Kids(Insert(keys, i, mid), Spread(kids, i, l, r), unit, h, lo, hi)
    ensures var m := Median(|keys|, i);
            && m < |keys|
            && lo < keys[m] < hi
            && Tree(LeftHalf(keys, kids, i, mid, l, r), unit, h + 1, lo, keys[m])
  {
    var k, m, p := |keys|, Median(|keys|, i), CutPoint(|keys|, i);
    var m1, p1 := m + 1, p + 1;
    CutKeys(keys, i, mid, m, m1, p, p1);
    CutKids(kids, i, l, r, m, m1, k, p1);
    KidsSlice(Insert(keys, i, mid), Spread(kids, i, l, r), unit, h, lo, hi, 0, p,
              CopyUpKeys(keys, 0, m, i, mid), CopyUpKids(kids, 0, m, i, l, r));
  }

  /** The right half as one slice of the keys and children with the new ones in place. */
  lemma {:induction false} RightCut(keys: seq<word>, kids: seq<Node>, i: nat, l: Node, mid: word, r: Node,
                                    k: nat, m: nat, m1: nat, p1: nat, ks: seq<word>, ns: seq<Node>)
    requires 3 <= |keys| && i < |kids| == |keys| + 1 && k == |keys| && m == Median(k, i) && m1 == m + 1
    requires p1 == CutPoint(k, i) + 1 && ks == Insert(keys, i, mid) && ns == Spread(kids, i, l, r)
    ensures m < k && 0 < p1 <= |ks| && ks[p1 - 1] == keys[m] && |ns| == |ks| + 1
    ensures CopyUpKeys(keys, m1, k, i, mid) == ks[p1..|ks|] && |CopyUpKeys(keys, m1, k, i, mid)| <= k
    ensures CopyUpKids(kids, m1, k, i, l, r) == ns[p1..|ks| + 1]
    ensures RightHalf(keys, kids, i, mid, l, r) == Branch(ks[p1..|ks|], ns[p1..|ks| + 1])
  {
    var p := p1 - 1;
    CutKeys(keys, i, mid, m, m1, p, p1);
    CutKids(kids, i, l, r, m, m1, k, p1);
  }

  lemma {:induction false} BranchRightHalf(keys: seq<word>, kids: seq<Node>, unit: nat, h: nat, lo: int, hi: int,
                                           i: nat, l: Node, mid: word, r: Node)
    requires 3 <= |keys| <= BranchCap(unit) && i < |kids| == |keys| + 1
    requires Kids(Insert(keys, i, mid), Spread(kids, i, l, r), unit, h, lo, hi)
    ensures var m := Median(|keys|, i);
            && m < |keys|
            && Tree(RightHalf(keys, kids, i, mid, l, r), unit, h + 1, keys[m], hi)
  {
    var k, m, ks, ns := |keys|, Median(|keys|, i), Insert(keys, i, mid), Spread(kids, i, l, r);
    var m1, p1, n := m + 1, CutPoint(k, i) + 1, |ks|;
    RightCut(keys, kids, i, l, mid, r, k, m, m1, p1, ks, ns);
    KidsSlice(ks, ns, unit, h, lo, hi, p1, n, ks[p1..n], ns[p1..n + 1]);
    assert Low(ks, p1, lo) == keys[m] && High(ks, n, hi) == hi;
  }

  lemma {:induction false} BranchSpreads(n: Node, unit: nat, h: nat, lo: int, hi: int,
                                         i: nat, l: Node, mid: word, r: Node)
    requires n.Branch? && |n.keys| <= BranchCap(unit) && unit >= 64 && i < |n.kids| == |n.keys| + 1
    requires Kids(Insert(n.keys, i, mid), Spread(n.kids, i, l, r), unit, h, lo, hi)
    ensures GrownTree(AddToBranch(n, unit, i, Two(l, mid, r)), unit, h + 1, lo, hi)
  {
    if |n.keys| < BranchCap(unit) {
      KidsTree(Insert(n.keys, i, mid), Spread(n.kids, i, l, r), unit, h, lo, hi);
    } else {
      BranchLeftHalf(n.keys, n.kids, unit, h, lo, hi, i, l, mid, r);
      BranchRightHalf(n.keys, n.kids, unit, h, lo, hi, i, l, mid, r);
    }
  }

  lemma {:induction false} BranchGrows(n: Node, unit: nat, h: nat, lo: int, hi: int, i: nat, g: Grown)
    requires n.Branch? && Kids(n.keys, n.kids, unit, h, lo, hi) && |n.keys| <= BranchCap(unit)
    requires unit >= 64 && i < |n.kids|
    requires GrownTree(g, unit, h, Low(n.keys, i, lo), High(n.keys, i, hi))
    ensures GrownTree(AddToBranch(n, unit, i, g), unit, h + 1, lo, hi)
  {
    match g
    case One(kid) =>
      KidsReplace(n.keys, n.kids, unit, h, lo, hi, i, kid);
      KidsTree(n.keys, n.kids[i := kid], unit, h, lo, hi);
    case Two(l, mid, r) =>
      KidsInsert(n.keys, n.kids, unit, h, lo, hi, i, l, mid, r);
      BranchSpreads(n, unit, h, lo, hi, i, l, mid, r);
  }

  // ---- Entries ----

  lemma {:induction false} EntriesAppend(a: seq<Node>, b: seq<Node>)
    requires forall i :: 0 <= i < |a| ==> Shaped(a[i])
    requires forall i :: 0 <= i < |b| ==> Shaped(b[i])
    ensures EntriesOf(a + b) == EntriesOf(a) + EntriesOf(b)
  {
    if a == [] {
      assert a + b == b;
    } else {
      assert (a + b)[1..] == a[1..] + b;
      EntriesAppend(a[1..], b);
    }
  }

  /** `after` is `before` with `e` put in somewhere. */
  ghost predicate Inserted(before: seq<Entry>, e: Entry, after: seq<Entry>) {
    exists p: nat :: p <= |before| && after == Insert(before, p, e)
  }

  ghost predicate GrownShaped(g: Grown) {
    match g
    case One(n) => Shaped(n)
    case Two(l, mid, r) => Shaped(l) && Shaped(r)
  }

  function GrownEntries(g: Grown): seq<Entry>
    requires GrownShaped(g)
  {
    match g
    case One(n) => Entries(n)
    case Two(l, mid, r) => Entries(l) + Entries(r)
  }

  lemma {:induction false} GrownTreeShaped(g: Grown, unit: nat, h: nat, lo: int, hi: int)
    requires GrownTree(g, unit, h, lo, hi)
    ensures GrownShaped(g)
  {
    match g
    case One(n) => TreeShaped(n, unit, h, lo, hi);
    case Two(l, mid, r) => TreeShaped(l, unit, h, lo, mid); TreeShaped(r, unit, h, mid, hi);
  }

  lemma {:induction false} LeafEntries(n: Node, unit: nat, key: word, val: word)
    requires n.Leaf? && |n.keys| == |n.vals| && unit >= 64
    ensures GrownShaped(AddToLeaf(n, unit, key, val))
    ensures Inserted(Entries(n), (key, val), GrownEntries(AddToLeaf(n, unit, key, val)))
  {
    var i, e := LeafIndex(n.keys, key), (key, val);
    var ks, vs := Insert(n.keys, i, key), Insert(n.vals, i, val);
    InsertAt(n.keys, i, key);
    InsertAt(n.vals, i, val);
    assert Zip(ks, vs) == Insert(Entries(n), i, e);
    if |n.keys| >= LeafCap(unit) {
      LeafSplitIsInsert(n.keys, i, key);
      LeafSplitIsInsert(n.vals, i, val);
      var lk, lv := LeafLeft(n.keys, i, key), LeafLeft(n.vals, i, val);
      var rk, rv := LeafRight(n.keys, i, key), LeafRight(n.vals, i, val);
      assert Zip(lk, lv) + Zip(rk, rv) == Zip(lk + rk, lv + rv);
    }
  }

  lemma {:induction false} EntriesAround(kids: seq<Node>, i: nat, m: seq<Node>)
    requires forall j :: 0 <= j < |kids| ==> Shaped(kids[j])
    requires i < |kids| && forall j :: 0 <= j < |m| ==> Shaped(m[j])
    ensures EntriesOf(kids[..i] + m + kids[i + 1..])
            == EntriesOf(kids[..i]) + EntriesOf(m) + EntriesOf(kids[i + 1..])
  {
    EntriesAppend(kids[..i] + m, kids[i + 1..]);
    EntriesAppend(kids[..i], m);
  }

  lemma {:induction false} EntriesOne(n: Node)
    requires Shaped(n)
    ensures EntriesOf([n]) == Entries(n)
  {
    assert [n][1..] == [];
    assert EntriesOf([]) == [];
  }

  lemma {:induction false} EntriesSplit(kids: seq<Node>, i: nat)
    requires forall j :: 0 <= j < |kids| ==> Shaped(kids[j])
    requires i < |kids|
    ensures EntriesOf(kids) == EntriesOf(kids[..i]) + Entries(kids[i]) + EntriesOf(kids[i + 1..])
  {
    assert kids == kids[..i] + [kids[i]] + kids[i + 1..];
    EntriesAround(kids, i, [kids[i]]);
    EntriesOne(kids[i]);
  }

  lemma {:induction false} EntriesTwo(l: Node, r: Node)
    requires Shaped(l) && Shaped(r)
    ensures EntriesOf([l, r]) == Entries(l) + Entries(r)
  {
    EntriesOne(r);
    assert [l, r][1..] == [r];
  }

  /** A branch lists what its grown child lists, between the other children. */
  lemma {:induction false} BranchEntries(n: Node, unit: nat, i: nat, g: Grown)
    requires n.Branch? && Shaped(n) && unit >= 64 && i < |n.kids| && GrownShaped(g)
    ensures GrownShaped(AddToBranch(n, unit, i, g))
    ensures GrownEntries(AddToBranch(n, unit, i, g))
            == EntriesOf(n.kids[..i]) + GrownEntries(g) + EntriesOf(n.kids[i + 1..])
  {
    match g
    case One(kid) =>
      assert n.kids[i := kid] == n.kids[..i] + [kid] + n.kids[i + 1..];
      EntriesAround(n.kids, i, [kid]);
      EntriesOne(kid);
    case Two(l, mid, r) =>
      SplitEntries(n, unit, i, l, mid, r);
  }

  lemma {:induction false} SplitEntries(n: Node, unit: nat, i: nat, l: Node, mid: word, r: Node)
    requires n.Branch? && Shaped(n) && unit >= 64 && i < |n.kids| && Shaped(l) && Shaped(r)
    ensures GrownShaped(AddToBranch(n, unit, i, Two(l, mid, r)))
    ensures GrownEntries(AddToBranch(n, unit, i, Two(l, mid, r)))
            == EntriesOf(n.kids[..i]) + (Entries(l) + Entries(r)) + EntriesOf(n.kids[i + 1..])
  {
    EntriesAround(n.kids, i, [l, r]);
    EntriesTwo(l, r);
    SpreadShaped(n.kids, i, l, r);
    if |n.keys| >= BranchCap(unit) {
      HalvesEntries(n.keys, n.kids, i, mid, l, r);
    }
  }

  /** The two halves of a split branch list the children between them. */
  lemma {:induction false} HalvesEntries(keys: seq<word>, kids: seq<Node>, i: nat, mid: word, l: Node, r: Node)
    requires |keys| >= 3 && i < |kids| == |keys| + 1
    requires forall j :: 0 <= j < |kids| + 1 ==> Shaped(Spread(kids, i, l, r)[j])
    ensures Shaped(LeftHalf(keys, kids, i, mid, l, r)) && Shaped(RightHalf(keys, kids, i, mid, l, r))
    ensures Entries(LeftHalf(keys, kids, i, mid, l, r)) + Entries(RightHalf(keys, kids, i, mid, l, r))
            == EntriesOf(Spread(kids, i, l, r))
  {
    BranchSplitIsInsert(keys, kids, i, mid, l, r);
    var ln, rn := LeftHalf(keys, kids, i, mid, l, r).kids, RightHalf(keys, kids, i, mid, l, r).kids;
    assert ln + rn == Spread(kids, i, l, r);
    PartsShaped(ln, rn);
    EntriesAppend(ln, rn);
  }

  lemma {:induction false} SpreadShaped(kids: seq<Node>, i: nat, l: Node, r: Node)
    requires (forall j :: 0 <= j < |kids| ==> Shaped(kids[j])) && i < |kids| && Shaped(l) && Shaped(r)
    ensures forall j :: 0 <= j < |kids| + 1 ==> Shaped(Spread(kids, i, l, r)[j])
  {
    forall j | 0 <= j < |kids| + 1
      ensures Shaped(Spread(kids, i, l, r)[j])
    {
      if j < i {
        assert Spread(kids, i, l, r)[j] == kids[j];
      } else if j > i + 1 {
        assert Spread(kids, i, l, r)[j] == kids[j - 1];
      }
    }
  }

  lemma {:induction false} PartsShaped(a: seq<Node>, b: seq<Node>)
    requires forall j :: 0 <= j < |a + b| ==> Shaped((a + b)[j])
    ensures forall j :: 0 <= j < |a| ==> Shaped(a[j])
    ensures forall j :: 0 <= j < |b| ==> Shaped(b[j])
  {
    forall j | 0 <= j < |a|
      ensures Shaped(a[j])
    {
      assert (a + b)[j] == a[j];
    }
    forall j | 0 <= j < |b|
      ensures Shaped(b[j])
    {
      assert (a + b)[|a| + j] == b[j];
    }
  }

  lemma {:induction false} InsertedWithin(a: seq<Entry>, m: seq<Entry>, b: seq<Entry>, e: Entry, m': seq<Entry>)
    requires Inserted(m, e, m')
    ensures Inserted(a + m + b, e, a + m' + b)
  {
    var p: nat :| p <= |m| && m' == Insert(m, p, e);
    assert a + m' + b == Insert(a + m + b, |a| + p, e);
  }

  /** Growing adds exactly the new entry, whatever splits. */
  lemma {:induction false} GrowInserts(n: Node, unit: nat, key: word, val: word)
    requires Shaped(n) && unit >= 64
    ensures GrownShaped(Grow(n, unit, key, val))
    ensures Inserted(Entries(n), (key, val), GrownEntries(Grow(n, unit, key, val)))
  {
    if n.Leaf? {
      LeafEntries(n, unit, key, val);
    } else {
      var i := BranchIndex(n.keys, key);
      var a, b := EntriesOf(n.kids[..i]), EntriesOf(n.kids[i + 1..]);
      var g := Grow(n.kids[i], unit, key, val);
      GrowInserts(n.kids[i], unit, key, val);
      BranchEntries(n, unit, i, g);
      InsertedWithin(a, Entries(n.kids[i]), b, (key, val), GrownEntries(g));
      EntriesSplit(n.kids, i);
    }
  }

  // ---- The map a tree denotes ----

  predicate SortedEntries(es: seq<Entry>) {
    forall i, j :: 0 <= i < j < |es| ==> es[i].0 < es[j].0
  }

  predicate Within(es: seq<Entry>, lo: int, hi: int) {
    forall i :: 0 <= i < |es| ==> lo <= es[i].0 < hi
  }

  function MapOf(es: seq<Entry>): map<word, word> {
    if es == [] then map[] else MapOf(es[1..])[es[0].0 := es[0].1]
  }

  function Model(n: Node): map<word, word>
    requires Shaped(n)
  {
    MapOf(Entries(n))
  }

  lemma {:induction false} TreeEntries(n: Node, unit: nat, h: nat, lo: int, hi: int)
    requires Tree(n, unit, h, lo, hi)
    ensures Shaped(n) && SortedEntries(Entries(n)) && Within(Entries(n), lo, hi)
    decreases n, 1
  {
    TreeShaped(n, unit, h, lo, hi);
    if n.Branch? {
      KidsEntries(n.keys, n.kids, unit, h - 1, lo, hi);
    }
  }

  lemma {:induction false} KidsEntries(keys: seq<word>, kids: seq<Node>, unit: nat, h: nat, lo: int, hi: int)
    requires Kids(keys, kids, unit, h, lo, hi)
    ensures forall i :: 0 <= i < |kids| ==> Shaped(kids[i])
    ensures SortedEntries(EntriesOf(kids)) && Within(EntriesOf(kids), lo, hi)
    decreases kids, 0
  {
    TreeEntries(kids[0], unit, h, lo, High(keys, 0, hi));
    if |keys| == 0 {
      EntriesOne(kids[0]);
      assert kids == [kids[0]];
    } else {
      KidsTail(keys, kids, unit, h, lo, hi);
      KidsEntries(keys[1..], kids[1..], unit, h, keys[0], hi);
      assert forall i :: 1 <= i < |kids| ==> kids[i] == kids[1..][i - 1];
    }
  }

  lemma {:induction false} KidsTail(keys: seq<word>, kids: seq<Node>, unit: nat, h: nat, lo: int, hi: int)
    requires Kids(keys, kids, unit, h, lo, hi) && |keys| > 0
    ensures Kids(keys[1..], kids[1..], unit, h, keys[0], hi)
  {
    forall j | 0 <= j < |kids[1..]|
      ensures Tree(kids[1..][j], unit, h, Low(keys[1..], j, keys[0]), High(keys[1..], j, hi))
    {
      assert kids[1..][j] == kids[j + 1];
    }
  }

  lemma {:induction false} MapOfAppend(a: seq<Entry>, b: seq<Entry>)
    ensures MapOf(a + b) == MapOf(b) + MapOf(a)
  {
    if a == [] {
      assert a + b == b;
    } else {
      assert (a + b)[1..] == a[1..] + b;
      MapOfAppend(a[1..], b);
    }
  }

  lemma {:induction false} MapOfKeys(es: seq<Entry>)
    ensures forall k :: k in MapOf(es) <==> exists i :: 0 <= i < |es| && es[i].0 == k
  {
    if es != [] {
      MapOfKeys(es[1..]);
      forall k
        ensures k in MapOf(es) <==> exists i :: 0 <= i < |es| && es[i].0 == k
      {
        if k in MapOf(es[1..]) {
          var i :| 0 <= i < |es[1..]| && es[1..][i].0 == k;
          assert es[i + 1].0 == k;
        }
        if i :| 0 <= i < |es| && es[i].0 == k {
          assert i > 0 ==> es[1..][i - 1].0 == k;
        }
      }
    }
  }

  /** Adding a new key to the list adds exactly that pair to the map. */
  lemma {:induction false} InsertedMap(before: seq<Entry>, e: Entry, after: seq<Entry>)
    requires Inserted(before, e, after) && e.0 !in MapOf(before)
    ensures MapOf(after) == MapOf(before)[e.0 := e.1]
  {
    var p: nat :| p <= |before| && after == Insert(before, p, e);
    var a, b := before[..p], before[p..];
    assert before == a + b && after == a + ([e] + b) && ([e] + b)[1..] == b;
    MapOfAppend(a, b);
    MapOfAppend(a, [e] + b);
  }

  lemma {:induction false} KidsAfter(keys: seq<word>, kids: seq<Node>, unit: nat, h: nat, lo: int, hi: int, i: nat)
    requires Kids(keys, kids, unit, h, lo, hi) && i < |keys| <= BranchCap(unit)
    ensures Tree(Branch(keys[i + 1..], kids[i + 1..]), unit, h + 1, keys[i], hi)
  {
    assert keys[i + 1..] == keys[i + 1..|keys|] && kids[i + 1..] == kids[i + 1..|keys| + 1];
    KidsSlice(keys, kids, unit, h, lo, hi, i + 1, |keys|, keys[i + 1..], kids[i + 1..]);
  }

  /** The children left of child `i` hold keys below its range, those right of it keys above. */
  lemma {:induction false} LeftBelow(n: Node, unit: nat, h: nat, lo: int, hi: int, i: nat)
    requires n.Branch? && Tree(n, unit, h, lo, hi) && i < |n.kids| && Shaped(n)
    ensures Within(EntriesOf(n.kids[..i]), lo, Low(n.keys, i, lo))
  {
    if i > 0 {
      TreeKids(n, unit, h, lo, hi);
      KidsSlice(n.keys, n.kids, unit, h - 1, lo, hi, 0, i - 1, n.keys[0..i - 1], n.kids[..i]);
      TreeEntries(Branch(n.keys[0..i - 1], n.kids[..i]), unit, h, lo, n.keys[i - 1]);
    }
  }

  lemma {:induction false} RightAbove(n: Node, unit: nat, h: nat, lo: int, hi: int, i: nat)
    requires n.Branch? && Tree(n, unit, h, lo, hi) && i < |n.kids| && Shaped(n)
    ensures Within(EntriesOf(n.kids[i + 1..]), High(n.keys, i, hi), hi)
  {
    if i < |n.keys| {
      TreeKids(n, unit, h, lo, hi);
      KidsAfter(n.keys, n.kids, unit, h - 1, lo, hi, i);
      TreeEntries(Branch(n.keys[i + 1..], n.kids[i + 1..]), unit, h, n.keys[i], hi);
    }
  }

  lemma {:induction false} OutsideMisses(es: seq<Entry>, lo: int, hi: int, key: word)
    requires Within(es, lo, hi) && !(lo <= key < hi)
    ensures key !in MapOf(es)
  {
    MapOfKeys(es);
  }

  /** The first `k` entries are those with keys below `key`. */
  predicate Divides(es: seq<Entry>, key: word, k: nat) {
    && k <= |es|
    && (forall j :: 0 <= j < k ==> es[j].0 < key)
    && (forall j :: k <= j < |es| ==> key <= es[j].0)
  }

  lemma {:induction false} DividesAround(a: seq<Entry>, m: seq<Entry>, b: seq<Entry>, key: word, k: nat,
                                         lo: int, lo': int, hi': int, hi: int)
    requires Within(a, lo, lo') && lo' <= key < hi' && Within(b, hi', hi) && Divides(m, key, k)
    ensures Divides(a + m + b, key, |a| + k)
  {
    forall j | 0 <= j < |a + m + b|
      ensures j < |a| + k <==> (a + m + b)[j].0 < key
    {
      if |a| <= j < |a| + |m| {
        assert (a + m + b)[j] == m[j - |a|];
      }
    }
  }

  /** What divides the entries of the chosen child divides those of the branch. */
  lemma {:induction false} DividesUp(n: Node, unit: nat, h: nat, lo: int, hi: int, i: nat, key: word, k: nat)
    requires n.Branch? && Tree(n, unit, h, lo, hi) && Shaped(n) && i < |n.kids|
    requires Low(n.keys, i, lo) <= key < High(n.keys, i, hi) && Divides(Entries(n.kids[i]), key, k)
    ensures Divides(Entries(n), key, |EntriesOf(n.kids[..i])| + k)
  {
    LeftBelow(n, unit, h, lo, hi, i);
    RightAbove(n, unit, h, lo, hi, i);
    EntriesSplit(n.kids, i);
    DividesAround(EntriesOf(n.kids[..i]), Entries(n.kids[i]), EntriesOf(n.kids[i + 1..]), key, k,
                  lo, Low(n.keys, i, lo), High(n.keys, i, hi), hi);
  }

  /** A key is in a branch exactly when it is in the child the search chooses, with the same value. */
  lemma {:induction false} ModelDescends(n: Node, unit: nat, h: nat, lo: int, hi: int, key: word)
    requires n.Branch? && Tree(n, unit, h, lo, hi) && lo <= key < hi && Shaped(n)
    ensures var kid := n.kids[BranchIndex(n.keys, key)];
            && (key in Model(n) <==> key in Model(kid))
            && (key in Model(n) ==> Model(n)[key] == Model(kid)[key])
  {
    var i := BranchIndex(n.keys, key);
    var a, m, b := EntriesOf(n.kids[..i]), Entries(n.kids[i]), EntriesOf(n.kids[i + 1..]);
    LeftBelow(n, unit, h, lo, hi, i);
    RightAbove(n, unit, h, lo, hi, i);
    OutsideMisses(a, lo, Low(n.keys, i, lo), key);
    OutsideMisses(b, High(n.keys, i, hi), hi, key);
    EntriesSplit(n.kids, i);
    MapOfAppend(a + m, b);
    MapOfAppend(a, m);
  }

  lemma {:induction false} AbsentFromLeaf(n: Node, key: word)
    requires n.Leaf? && |n.keys| == |n.vals|
    ensures key !in Model(n) <==> key !in n.keys
  {
    MapOfKeys(Entries(n));
    assert forall j :: 0 <= j < |n.keys| ==> Entries(n)[j].0 == n.keys[j];
  }

  lemma GrowInside(n: Node, unit: nat, key: word, val: word, i: nat, g: Grown)
    requires n.Branch? && Shaped(n) && unit >= 64 && i == BranchIndex(n.keys, key)
    requires g == Grow(n.kids[i], unit, key, val)
    ensures Grow(n, unit, key, val) == AddToBranch(n, unit, i, g)
  {
  }

  lemma {:induction false} BranchGrowsBack(n: Node, unit: nat, h: nat, lo: int, hi: int, key: word, val: word,
                                           i: nat, h': nat, g: Grown)
    requires n.Branch? && Tree(n, unit, h, lo, hi) && Shaped(n) && unit >= 64 && h == h' + 1
    requires i == BranchIndex(n.keys, key) && g == Grow(n.kids[i], unit, key, val)
    requires GrownTree(g, unit, h', Low(n.keys, i, lo), High(n.keys, i, hi))
    ensures GrownTree(Grow(n, unit, key, val), unit, h, lo, hi)
  {
    TreeKids(n, unit, h, lo, hi);
    BranchGrows(n, unit, h', lo, hi, i, g);
    GrowInside(n, unit, key, val, i, g);
  }

  /** Every step of an insertion keeps the tree: order, separators, depth and page sizes. */
  lemma {:induction false} GrowKeepsTree(n: Node, unit: nat, h: nat, lo: int, hi: int, key: word, val: word)
    requires Tree(n, unit, h, lo, hi) && Shaped(n) && unit >= 64
    requires lo <= key < hi && key !in Model(n)
    ensures GrownTree(Grow(n, unit, key, val), unit, h, lo, hi)
  {
    if n.Leaf? {
      AbsentFromLeaf(n, key);
      LeafGrows(n, unit, lo, hi, key, val);
    } else {
      var i, h', lo', hi' := DescendInto(n, unit, h, lo, hi, key);
      GrowKeepsTree(n.kids[i], unit, h', lo', hi', key, val);
      BranchGrowsBack(n, unit, h, lo, hi, key, val, i, h', Grow(n.kids[i], unit, key, val));
    }
  }

  /** The child the search chooses holds the key's range, one level down. */
  lemma {:induction false} DescendInto(n: Node, unit: nat, h: nat, lo: int, hi: int, key: word)
    returns (i: nat, h': nat, lo': int, hi': int)
    requires n.Branch? && Tree(n, unit, h, lo, hi) && lo <= key < hi && Shaped(n)
    ensures i == BranchIndex(n.keys, key) && i < |n.kids| && h == h' + 1
    ensures lo' == Low(n.keys, i, lo) && hi' == High(n.keys, i, hi) && lo <= lo' <= key < hi' <= hi
    ensures Tree(n.kids[i], unit, h', lo', hi') && Shaped(n.kids[i])
    ensures key in Model(n) <==> key in Model(n.kids[i])
    ensures key in Model(n) ==> Model(n)[key] == Model(n.kids[i])[key]
  {
    ModelDescends(n, unit, h, lo, hi, key);
    i := BranchIndex(n.keys, key);
    h', lo', hi' := h - 1, Low(n.keys, i, lo), High(n.keys, i, hi);
  }

  /** A whole tree of 64-bit keys without the overflow bit. */
  ghost predicate Whole(n: Node, unit: nat, h: nat) {
    Tree(n, unit, h, 0, TWO63)
  }

  /** `btree_add` on a new key: still a tree, at most one level taller, and its map gains exactly
      the added pair. */
  lemma {:induction false} AddCorrect(n: Node, unit: nat, h: nat, key: word, val: word)
    requires Whole(n, unit, h) && Shaped(n) && unit >= 64 && key < TWO63 && key !in Model(n)
    ensures Shaped(Add(n, unit, key, val))
    ensures Whole(Add(n, unit, key, val), unit, if Grow(n, unit, key, val).One? then h else h + 1)
    ensures Model(Add(n, unit, key, val)) == Model(n)[key := val]
  {
    GrowKeepsTree(n, unit, h, 0, TWO63, key, val);
    GrowInserts(n, unit, key, val);
    var g := Grow(n, unit, key, val);
    InsertedMap(Entries(n), (key, val), GrownEntries(g));
    if g.Two? {
      RootTree(g.left, g.mid, g.right, unit, h);
    }
  }

  lemma {:induction false} RootTree(l: Node, mid: word, r: Node, unit: nat, h: nat)
    requires GrownTree(Two(l, mid, r), unit, h, 0, TWO63) && unit >= 64
    ensures Whole(Branch([mid], [l, r]), unit, h + 1)
    ensures Shaped(l) && Shaped(r) && Entries(Branch([mid], [l, r])) == Entries(l) + Entries(r)
  {
    GrownTreeShaped(Two(l, mid, r), unit, h, 0, TWO63);
    EntriesTwo(l, r);
    assert Kids([mid], [l, r], unit, h, 0, TWO63);
  }

  /** A tree of keys below `hi` is one of keys below any larger bound. */
  lemma {:induction false} TreeWidens(n: Node, unit: nat, h: nat, lo: int, hi: int, hi': int)
    requires Tree(n, unit, h, lo, hi) && hi <= hi'
    ensures Tree(n, unit, h, lo, hi')
  {
    if n.Branch? {
      var k := |n.keys|;
      TreeWidens(n.kids[k], unit, h - 1, Low(n.keys, k, lo), hi, hi');
    }
  }

  // ---- Whole runs ----

  function AddAll(n: Node, unit: nat, es: seq<Entry>): Node
    requires Shaped(n) && unit >= 64
    ensures Shaped(AddAll(n, unit, es))
  {
    if es == [] then n else
      var last := es[|es| - 1];
      var n' := AddAll(n, unit, es[..|es| - 1]);
      GrowInserts(n', unit, last.0, last.1);
      Add(n', unit, last.0, last.1)
  }

  predicate Distinct(es: seq<Entry>) {
    forall i, j :: 0 <= i < j < |es| ==> es[i].0 != es[j].0
  }

  lemma {:induction false} DistinctLast(es: seq<Entry>)
    requires es != [] && Distinct(es)
    ensures var init, last := es[..|es| - 1], es[|es| - 1];
            && Distinct(init) && last.0 !in MapOf(init) && MapOf(es) == MapOf(init)[last.0 := last.1]
  {
    var init, last := es[..|es| - 1], es[|es| - 1];
    MapOfKeys(init);
    InsertedMap(init, last, es) by {
      assert es == Insert(init, |init|, last);
    }
  }

  /** After any run of additions of distinct keys, the tree is in order and denotes exactly the
      map of the added pairs. */
  lemma {:induction false} RunDenotesMap(unit: nat, es: seq<Entry>) returns (h: nat)
    requires unit >= 64 && Distinct(es) && forall i :: 0 <= i < |es| ==> es[i].0 < TWO63
    ensures Whole(AddAll(EMPTY_TREE, unit, es), unit, h) && h <= |es|
    ensures Model(AddAll(EMPTY_TREE, unit, es)) == MapOf(es)
  {
    if es == [] {
      h := 0;
    } else {
      var init, last := es[..|es| - 1], es[|es| - 1];
      h := RunDenotesMap(unit, init);
      DistinctLast(es);
      var n := AddAll(EMPTY_TREE, unit, init);
      AddCorrect(n, unit, h, last.0, last.1);
      h := if Grow(n, unit, last.0, last.1).One? then h else h + 1;
    }
  }
}
