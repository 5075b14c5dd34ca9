/** The copy-on-write B+tree on the page store (src/db/store/btree.c). Each method is proved to do
    on the bytes what `BTreeModel` says of the value, and to leave every other page alone.
    A stored page is described by its two columns: keys and values in a leaf, addresses and keys in
    a branch. */
module BTree {
  import opened Words
  import opened StoreModel
  import opened PageModel
  import opened PageOps
  import opened StoreSteps
  import opened BTreeModel

  /** The page at `page` holds these columns. */
  ghost predicate Held(mem: seq<byte>, unit: nat, page: nat, flags: nat, a: seq<word>, b: seq<word>) {
    && 64 <= unit < MAX16
    && |b| <= |a| <= |b| + 1
    && Holds(Slot(mem, page, unit), flags, Weave(a, b))
  }

  ghost predicate HoldsAt(s: Store, page: nat, flags: nat, a: seq<word>, b: seq<word>)
    reads s
  {
    s.unit > 0 && IsPage(page, s.end, s.unit) && Held(s.mem, s.unit, page, flags, a, b)
  }

  function LeafOffset(i: nat): nat { HDR + ITEM * i }

  // ---- Searching a page ----

  lemma {:induction false} FirstColumn(bs: seq<byte>, flags: nat, a: seq<word>, b: seq<word>, i: nat, p: nat)
    requires |b| <= |a| <= |b| + 1 && Holds(bs, flags, Weave(a, b)) && i < |a| && p == HDR + ITEM * i
    ensures p + WORD <= |bs| && Decode(bs, p) == a[i]
  {
    WeaveAt(a, b, 2 * i);
    HeldWord(bs, flags, Weave(a, b), 2 * i);
  }

  lemma {:induction false} SecondColumn(bs: seq<byte>, flags: nat, a: seq<word>, b: seq<word>, i: nat, p: nat)
    requires |b| <= |a| <= |b| + 1 && Holds(bs, flags, Weave(a, b)) && i < |b| && p == HDR + ITEM * i + WORD
    ensures p + WORD <= |bs| && Decode(bs, p) == b[i]
  {
    WeaveAt(a, b, 2 * i + 1);
    HeldWord(bs, flags, Weave(a, b), 2 * i + 1);
  }

  lemma {:induction false} LeafIndexIs(keys: seq<word>, key: word, i: nat)
    requires i <= |keys| && (forall j :: 0 <= j < i ==> keys[j] < key) && (i < |keys| ==> key <= keys[i])
    ensures LeafIndex(keys, key) == i
  {
  }

  /** `btree_leaf_find` */
  method LeafFind(s: Store, page: nat, key: word, ghost flags: nat, ghost keys: seq<word>, ghost vals: seq<word>)
    returns (item: nat)
    requires s.Ready() && HoldsAt(s, page, flags, keys, vals) && |keys| == |vals|
    ensures item == LeafOffset(LeafIndex(keys, key))
  {
    s.PageInside(page);
    ghost var bs := Slot(s.mem, page, s.unit);
    var hdr := ReadUi64(s, page, 0);
    HeldHeader(bs, flags, Weave(keys, vals));
    item := HDR;
    ghost var i := 0;
    while item < PgEnd(hdr)
      invariant 0 <= i <= |keys| && item == HDR + ITEM * i
      invariant forall j :: 0 <= j < i ==> keys[j] < key
    {
      FirstColumn(bs, flags, keys, vals, i, item);
      if key <= ReadUi64(s, page, item) {
        LeafIndexIs(keys, key, i);
        return;
      }
      item := item + ITEM;
      i := i + 1;
    }
    LeafIndexIs(keys, key, i);
  }

  lemma {:induction false} BranchIndexIs(keys: seq<word>, key: word, i: nat)
    requires i <= |keys| && (forall j :: 0 <= j < i ==> keys[j] <= key) && (i < |keys| ==> key < keys[i])
    ensures BranchIndex(keys, key) == i
  {
  }

  /** `btree_branch_find`: works for a branch with no key and one child too. */
  method BranchFind(s: Store, page: nat, key: word, ghost flags: nat, ghost ptrs: seq<word>, ghost keys: seq<word>)
    returns (item: nat)
    requires s.Ready() && HoldsAt(s, page, flags, ptrs, keys) && |ptrs| == |keys| + 1
    ensures item == LeafOffset(BranchIndex(keys, key))
  {
    s.PageInside(page);
    ghost var bs := Slot(s.mem, page, s.unit);
    var hdr := ReadUi64(s, page, 0);
    HeldHeader(bs, flags, Weave(ptrs, keys));
    item := HDR;
    ghost var i := 0;
    while item < PgEnd(hdr) - WORD
      invariant 0 <= i <= |keys| && item == HDR + ITEM * i
      invariant forall j :: 0 <= j < i ==> keys[j] <= key
    {
      var next := item + WORD;
      SecondColumn(bs, flags, ptrs, keys, i, next);
      if key < ReadUi64(s, page, next) {
        break;
      }
      item := item + ITEM;
      i := i + 1;
    }
    BranchIndexIs(keys, key, i);
  }

  // ---- Bytes of a stretch of columns ----

  lemma {:induction false} HeldPairs(bs: seq<byte>, flags: nat, a: seq<word>, b: seq<word>, i: nat, j: nat, p: nat,
                                     n: nat)
    requires |b| <= |a| <= |b| + 1 && Holds(bs, flags, Weave(a, b)) && i <= j <= |b|
    requires p == HDR + ITEM * i && n == ITEM * j - ITEM * i
    ensures p + n <= |bs| && Slot(bs, p, n) == Bytes(Weave(a[i..j], b[i..j]))
  {
    var i2, j2, q := 2 * i, 2 * j, p + n;
    HeldSliceAt(bs, flags, Weave(a, b), i2, j2, p, q);
    WeaveSlice(a, b, i, j);
  }

  lemma {:induction false} PairBytes(k1: seq<word>, v1: seq<word>, key: word, val: word, k2: seq<word>, v2: seq<word>)
    requires |k1| == |v1| && |k2| == |v2|
    ensures Bytes(Weave(k1 + [key] + k2, v1 + [val] + v2))
            == Bytes(Weave(k1, v1)) + Encode(key) + Encode(val) + Bytes(Weave(k2, v2))
  {
    WeavePair(k1, v1, key, val, k2, v2);
    BytesAppend(Weave(k1, v1) + [key, val], Weave(k2, v2));
    BytesAppend(Weave(k1, v1), [key, val]);
    BytesAppend([key], [val]);
    BytesOne(key);
    BytesOne(val);
    assert [key] + [val] == [key, val];
  }

  lemma {:induction false} FilledHolds(m0: seq<byte>, mem: seq<byte>, end: nat, unit: nat, page: nat,
                                       flags: nat, ws: seq<word>, nKeys: nat, used: nat)
    requires flags < 256 && unit < MAX16 && nKeys == |ws| / 2 && used == HDR + WORD * |ws| <= unit
    requires Filled(m0, mem, end, unit, page, Encode(PackHeader(flags, unit, nKeys, used)), Bytes(ws))
    ensures Holds(Slot(mem, page, unit), flags, ws)
  {
    var b := Slot(mem, page, unit);
    DecodeAt(b, 0, PackHeader(flags, unit, nKeys, used));
  }

  lemma {:induction false} InsertBytes(keys: seq<word>, vals: seq<word>, k: nat, key: word, val: word)
    requires |keys| == |vals| && k <= |keys|
    ensures Bytes(Weave(Insert(keys, k, key), Insert(vals, k, val)))
            == Bytes(Weave(keys[0..k], vals[0..k])) + Encode(key) + Encode(val)
               + Bytes(Weave(keys[k..|keys|], vals[k..|keys|]))
  {
    PairBytes(keys[0..k], vals[0..k], key, val, keys[k..|keys|], vals[k..|keys|]);
    assert keys[0..k] + [key] + keys[k..|keys|] == Insert(keys, k, key);
    assert vals[0..k] + [val] + vals[k..|keys|] == Insert(vals, k, val);
  }

  lemma {:induction false} EmptyAppend<T>(a: seq<T>)
    ensures [] + a == a
  {
  }

  /** The items on both sides of the new one, which goes in at `i`. */
  method LeafCopyAround(s: Store, dest: nat, src: nat, si: nat, ei: nat, key: word, val: word, i: nat,
                        ghost m0: seq<byte>, ghost h: seq<byte>, ghost flags: nat, ghost keys: seq<word>,
                        ghost vals: seq<word>, ghost a: nat, ghost b: nat, ghost k: nat)
    requires Filling(s, m0, dest, h, [])
    requires Held(m0, s.unit, src, flags, keys, vals) && IsPage(src, s.end, s.unit) && |keys| == |vals| && dest != src
    requires a <= k <= b <= |keys| && si == LeafOffset(a) && ei == LeafOffset(b) && i == LeafOffset(k)
    requires ei - si + HDR + ITEM <= s.unit
    modifies s`mem
    ensures Filling(s, m0, dest, h,
                    Bytes(Weave(keys[a..k], vals[a..k])) + Encode(key) + Encode(val)
                    + Bytes(Weave(keys[k..b], vals[k..b])))
  {
    ghost var bs := Slot(m0, src, s.unit);
    var left, right, d := i - si, ei - i, HDR + i - si;
    var d1, d2 := d + WORD, d + ITEM;
    ghost var b1 := Bytes(Weave(keys[a..k], vals[a..k]));
    HeldPairs(bs, flags, keys, vals, a, k, si, left);
    HeldPairs(bs, flags, keys, vals, k, b, i, right);
    Copy(s, dest, HDR, src, si, left, m0, h, []);
    EmptyAppend(b1);
    WriteUi64(s, dest, d, key, m0, h, b1);
    WriteUi64(s, dest, d1, val, m0, h, b1 + Encode(key));
    Copy(s, dest, d2, src, i, right, m0, h, b1 + Encode(key) + Encode(val));
  }

  /** The body of `btree_leaf_add`: header, items before, the new item, items after. */
  method FillLeafCopy(s: Store, copy: nat, page: nat, hdr: word, i: nat, key: word, val: word,
                      ghost flags: nat, ghost keys: seq<word>, ghost vals: seq<word>, ghost k: nat)
    requires s.Ready() && HoldsAt(s, page, flags, keys, vals) && |keys| == |vals|
    requires IsPage(copy, s.end, s.unit) && copy != page && k <= |keys| && i == LeafOffset(k)
    requires hdr == PackHeader(flags, s.unit, |keys|, LeafOffset(|keys|)) && LeafOffset(|keys| + 1) <= s.unit
    modifies s`mem
    ensures s.Ready()
    ensures HoldsAt(s, copy, flags, Insert(keys, k, key), Insert(vals, k, val))
    ensures Untouched(old(s.mem), s.mem, s.unit, s.end, {copy})
  {
    ghost var m0, ws := s.mem, Weave(Insert(keys, k, key), Insert(vals, k, val));
    HeaderFields(flags, s.unit, |keys|, LeafOffset(|keys|));
    var nKeys, used, end := PgNKeys(hdr) + 1, PgUsed(hdr) + ITEM, PgEnd(hdr);
    ghost var h := Encode(PackHeader(flags, s.unit, nKeys, used));
    FillStart(s, copy);
    HdrWrite(s, copy, PgFlags(hdr), PgSize(hdr), nKeys, used, m0, []);
    LeafCopyAround(s, copy, page, HDR, end, key, val, i, m0, h, flags, keys, vals, 0, |keys|, k);
    InsertBytes(keys, vals, k, key, val);
    FilledHolds(m0, s.mem, s.end, s.unit, copy, flags, ws, nKeys, used);
  }

  lemma {:induction false} LeafHeader(bs: seq<byte>, flags: nat, keys: seq<word>, vals: seq<word>)
    requires |keys| == |vals| && Holds(bs, flags, Weave(keys, vals))
    ensures var hdr := Decode(bs, 0);
            && hdr == PackHeader(flags, |bs|, |keys|, LeafOffset(|keys|))
            && PgFlags(hdr) == flags && PgSize(hdr) == |bs| && PgNKeys(hdr) == |keys|
            && PgEnd(hdr) == LeafOffset(|keys|) && PgFree(hdr) == |bs| - LeafOffset(|keys|)
  {
    HeldHeader(bs, flags, Weave(keys, vals));
  }

  /** The test for a key already present does not fire on a leaf without it. */
  lemma {:induction false} NoDuplicate(bs: seq<byte>, flags: nat, keys: seq<word>, vals: seq<word>,
                                       k: nat, i: nat, key: word)
    requires |keys| == |vals| && Holds(bs, flags, Weave(keys, vals)) && i == LeafOffset(k)
    requires k < |keys| && key !in keys && keys[k] < TWO63
    ensures i + WORD <= |bs| && KeyGet(Decode(bs, i)) != key
  {
    FirstColumn(bs, flags, keys, vals, k, i);
    assert keys[k] in keys;
  }

  lemma {:induction false} HeldAfterAlloc(a: Snap, b: Snap, unit: nat, reuse: bool, p: nat, page: nat)
    requires unit > 0 && Taken(a, b, unit, reuse, p) && IsPage(page, a.end, unit) && page in a.owned
    ensures p != page && page in b.owned && IsPage(page, b.end, unit)
            && Slot(b.mem, page, unit) == Slot(a.mem, page, unit)
  {
  }

  /** `btree_leaf_add` for a key the leaf does not hold: a full page is left alone (result 0),
      otherwise a copy with the item in order replaces the page. */
  method LeafAdd(s: Store, page: nat, key: word, val: word, ghost flags: nat, ghost keys: seq<word>,
                 ghost vals: seq<word>)
    returns (copy: nat)
    requires s.Paged() && page in s.owned && HoldsAt(s, page, flags, keys, vals) && |keys| == |vals|
    requires key !in keys && key < TWO63 && forall k :: 0 <= k < |keys| ==> keys[k] < TWO63
    requires s.end + s.unit < TWO64
    modifies s
    ensures s.Paged()
    ensures copy == 0 <==> |keys| >= LeafCap(s.unit)
    ensures copy == 0 ==> unchanged(s)
    ensures copy < TWO64
    ensures copy != 0 ==>
              var i := LeafIndex(keys, key);
              && HoldsAt(s, copy, flags, Insert(keys, i, key), Insert(vals, i, val))
              && Step(old(s.Now()), s.Now(), s.unit, s.reuse, {page}, {copy}, {copy})
              && s.end <= old(s.end) + s.unit
    ensures |s.freeList| <= Max1(|old(s.freeList)|)
  {
    ghost var bs, k := Slot(s.mem, page, s.unit), LeafIndex(keys, key);
    s.PageInside(page);
    LeafHeader(bs, flags, keys, vals);
    var hdr := ReadUi64(s, page, 0);
    var i := LeafFind(s, page, key, flags, keys, vals);
    if i < PgEnd(hdr) {
      // A key already present would take the duplicate path (btree_leaf_add_dup).
      NoDuplicate(bs, flags, keys, vals, k, i, key);
      assert KeyGet(ReadUi64(s, page, i)) != key;
    }
    if PgFree(hdr) < ITEM {
      return 0;
    }
    copy := LeafAddCopy(s, page, hdr, i, key, val, flags, keys, vals, k);
  }

  /** The allocation that opens the copy of `page`. */
  method AllocCopy(s: Store, size: nat, ghost page: nat, ghost flags: nat, ghost a: seq<word>, ghost b: seq<word>)
    returns (copy: nat)
    requires s.Paged() && size == s.unit && s.end + s.unit < TWO64
    requires page in s.owned && HoldsAt(s, page, flags, a, b)
    modifies s
    ensures s.Paged() && 0 < copy < TWO64 && copy != page && IsPage(copy, s.end, s.unit)
    ensures HoldsAt(s, page, flags, a, b)
    ensures Copied(old(s.Now()), s.Now(), s.Now(), s.unit, s.reuse, page, copy)
  {
    ghost var s0 := s.Now();
    s.OwnedPage(page);
    var p := s.AllocPage(size);
    HeldAfterAlloc(s0, s.Now(), s.unit, s.reuse, p, page);
    s.OwnedPage(p);
    s.PageInside(p);
    copy := p;
  }

  /** A copied page before it is freed: from `s0` one page was handed out, in `s1`, and only it has
      been filled since. */
  ghost predicate Copied(s0: Snap, s1: Snap, now: Snap, unit: nat, reuse: bool, page: nat, copy: nat)
    requires unit > 0
  {
    && Balanced(s1, unit, reuse) && now == s1.(mem := now.mem)
    && page in s0.owned && page in s1.owned && Taken(s0, s1, unit, reuse, copy)
    && Untouched(s1.mem, now.mem, unit, s1.end, {copy})
    && |s1.free| + 1 <= Max1(|s0.free|)
  }

  lemma CopyFilled(s0: Snap, s1: Snap, now: Snap, unit: nat, reuse: bool, page: nat, copy: nat)
    requires unit > 0 && Copied(s0, s1, s1, unit, reuse, page, copy)
    requires now == s1.(mem := now.mem) && Untouched(s1.mem, now.mem, unit, s1.end, {copy})
    ensures Copied(s0, s1, now, unit, reuse, page, copy)
  {
  }

  /** The free that closes the copying of `page` to `copy`. */
  method FreeCopied(s: Store, page: nat, ghost copy: nat, ghost s0: Snap, ghost s1: Snap)
    requires s.Ready() && Copied(s0, s1, s.Now(), s.unit, s.reuse, page, copy)
    modifies s
    ensures s.Paged() && s.mem == old(s.mem) && s.end == old(s.end)
    ensures Step(s0, s.Now(), s.unit, s.reuse, {page}, {copy}, {copy})
    ensures s.end <= s0.end + s.unit && |s.freeList| <= Max1(|s0.free|)
  {
    ghost var s2 := s.Now();
    s.Free(page);
    StepReplace(s0, s1, s2, s.Now(), s.unit, s.reuse, page, copy);
  }

  method LeafAddCopy(s: Store, page: nat, hdr: word, i: nat, key: word, val: word,
                     ghost flags: nat, ghost keys: seq<word>, ghost vals: seq<word>, ghost k: nat)
    returns (copy: nat)
    requires s.Paged() && page in s.owned && HoldsAt(s, page, flags, keys, vals) && |keys| == |vals|
    requires k <= |keys| && i == LeafOffset(k) && LeafOffset(|keys| + 1) <= s.unit
    requires hdr == PackHeader(flags, s.unit, |keys|, LeafOffset(|keys|))
    requires s.end + s.unit < TWO64
    modifies s
    ensures s.Paged() && 0 < copy < TWO64
    ensures HoldsAt(s, copy, flags, Insert(keys, k, key), Insert(vals, k, val))
    ensures Step(old(s.Now()), s.Now(), s.unit, s.reuse, {page}, {copy}, {copy})
    ensures s.end <= old(s.end) + s.unit && |s.freeList| <= Max1(|old(s.freeList)|)
  {
    ghost var s0, s1 := s.Now(), s.Now();
    copy, s1 := LeafAddPage(s, page, hdr, i, key, val, flags, keys, vals, k);
    FreeCopied(s, page, copy, s0, s1);
  }

  /** The copy with the new item, allocated and filled. */
  method LeafAddPage(s: Store, page: nat, hdr: word, i: nat, key: word, val: word,
                     ghost flags: nat, ghost keys: seq<word>, ghost vals: seq<word>, ghost k: nat)
    returns (copy: nat, ghost s1: Snap)
    requires s.Paged() && page in s.owned && HoldsAt(s, page, flags, keys, vals) && |keys| == |vals|
    requires k <= |keys| && i == LeafOffset(k) && LeafOffset(|keys| + 1) <= s.unit
    requires hdr == PackHeader(flags, s.unit, |keys|, LeafOffset(|keys|))
    requires s.end + s.unit < TWO64
    modifies s
    ensures s.Ready() && 0 < copy < TWO64
    ensures HoldsAt(s, copy, flags, Insert(keys, k, key), Insert(vals, k, val))
    ensures Copied(old(s.Now()), s1, s.Now(), s.unit, s.reuse, page, copy)
  {
    HeaderFields(flags, s.unit, |keys|, LeafOffset(|keys|));
    ghost var s0 := s.Now();
    copy := AllocCopy(s, PgSize(hdr), page, flags, keys, vals);
    s1 := s.Now();
    FillLeafCopy(s, copy, page, hdr, i, key, val, flags, keys, vals, k);
    CopyFilled(s0, s1, s.Now(), s.unit, s.reuse, page, copy);
  }

  // ---- Splitting a leaf ----

  lemma {:induction false} CopyInBytes(keys: seq<word>, vals: seq<word>, a: nat, b: nat, k: nat, key: word, val: word)
    requires |keys| == |vals| && a <= k <= b <= |keys| && (a == 0 || k > a)
    ensures Bytes(Weave(BTreeModel.LeafCopyIn(keys, a, b, k, key), BTreeModel.LeafCopyIn(vals, a, b, k, val)))
            == Bytes(Weave(keys[a..k], vals[a..k])) + Encode(key) + Encode(val) + Bytes(Weave(keys[k..b], vals[k..b]))
  {
    PairBytes(keys[a..k], vals[a..k], key, val, keys[k..b], vals[k..b]);
  }

  method LeafCopyItems(s: Store, dest: nat, src: nat, nKeys: nat, si: nat, ei: nat, key: word, val: word, i: nat,
                       ghost flags: nat, ghost keys: seq<word>, ghost vals: seq<word>, ghost a: nat, ghost b: nat,
                       ghost k: nat)
    returns (n: nat)
    requires Filling(s, s.mem, dest, [], [])
    requires HoldsAt(s, src, flags, keys, vals) && |keys| == |vals| && dest != src
    requires a <= b <= |keys| && k <= |keys| && nKeys == b - a
    requires si == LeafOffset(a) && ei == LeafOffset(b) && i == LeafOffset(k)
    requires LeafOffset(|BTreeModel.LeafCopyIn(keys, a, b, k, key)|) <= s.unit
    modifies s`mem
    ensures n == |BTreeModel.LeafCopyIn(keys, a, b, k, key)| == |BTreeModel.LeafCopyIn(vals, a, b, k, val)|
    ensures Filling(s, old(s.mem), dest, [],
                    Bytes(Weave(BTreeModel.LeafCopyIn(keys, a, b, k, key), BTreeModel.LeafCopyIn(vals, a, b, k, val))))
  {
    CopyInLength(keys, a, b, k, key);
    CopyInLength(vals, a, b, k, val);
    n := nKeys;
    if (si == HDR || i > si) && i <= ei {
      n := n + 1;
      LeafCopyAround(s, dest, src, si, ei, key, val, i, s.mem, [], flags, keys, vals, a, b, k);
      CopyInBytes(keys, vals, a, b, k, key, val);
    } else {
      ghost var m0, bs := s.mem, Slot(s.mem, src, s.unit);
      var all := ei - si;
      HeldPairs(bs, flags, keys, vals, a, b, si, all);
      Copy(s, dest, HDR, src, si, all, m0, [], []);
      EmptyAppend(Bytes(Weave(keys[a..b], vals[a..b])));
    }
  }

  /** `btree_leaf_copy_in`: one half of a split leaf, with the new item when it belongs here. */
  method LeafCopyIn(s: Store, dest: nat, src: nat, nKeys: nat, si: nat, ei: nat, key: word, val: word, i: nat,
                    ghost flags: nat, ghost keys: seq<word>, ghost vals: seq<word>, ghost a: nat, ghost b: nat,
                    ghost k: nat)
    requires s.Ready() && HoldsAt(s, src, flags, keys, vals) && |keys| == |vals|
    requires IsPage(dest, s.end, s.unit) && dest != src
    requires a <= b <= |keys| && k <= |keys| && nKeys == b - a
    requires si == LeafOffset(a) && ei == LeafOffset(b) && i == LeafOffset(k)
    requires LeafOffset(|BTreeModel.LeafCopyIn(keys, a, b, k, key)|) <= s.unit
    modifies s`mem
    ensures s.Ready()
    ensures HoldsAt(s, dest, ClearRoot(flags),
                    BTreeModel.LeafCopyIn(keys, a, b, k, key), BTreeModel.LeafCopyIn(vals, a, b, k, val))
    ensures Untouched(old(s.mem), s.mem, s.unit, s.end, {dest})
  {
    s.PageInside(src);
    LeafHeader(Slot(s.mem, src, s.unit), flags, keys, vals);
    FillStart(s, dest);
    var hdr := ReadUi64(s, src, 0);
    var n := LeafCopyItems(s, dest, src, nKeys, si, ei, key, val, i, flags, keys, vals, a, b, k);
    LeafHeaderDone(s, dest, hdr, n, old(s.mem), flags,
                   BTreeModel.LeafCopyIn(keys, a, b, k, key), BTreeModel.LeafCopyIn(vals, a, b, k, val));
  }

  method LeafHeaderDone(s: Store, dest: nat, hdr: word, n: nat, ghost m0: seq<byte>, ghost flags: nat,
                        ghost ks: seq<word>, ghost vs: seq<word>)
    requires n == |ks| == |vs| && LeafOffset(n) <= s.unit && 64 <= s.unit < MAX16 && flags < 256
    requires Filling(s, m0, dest, [], Bytes(Weave(ks, vs)))
    requires PgFlags(hdr) == flags && PgSize(hdr) == s.unit
    modifies s`mem
    ensures s.Ready() && HoldsAt(s, dest, ClearRoot(flags), ks, vs)
    ensures Untouched(m0, s.mem, s.unit, s.end, {dest})
  {
    ghost var ws := Weave(ks, vs);
    var used := n * ITEM + HDR;
    HdrWrite(s, dest, ClearRoot(PgFlags(hdr)), PgSize(hdr), n, used, m0, Bytes(ws));
    FilledHolds(m0, s.mem, s.end, s.unit, dest, ClearRoot(flags), ws, n, used);
  }

  lemma KeyGetSmall(key: word)
    requires key < TWO63
    ensures KeyGet(key) == key
  {
  }

  /** Where both splits cut a page of `nKeys` keys whose keys start at `base`, when something goes in
      at offset `i`. */
  method FindMedian(nKeys: nat, base: nat, i: nat, ghost k: nat) returns (nLeft: nat, nRight: int, m: nat)
    requires i == LeafOffset(k) && (base == HDR || base == HDR + WORD)
    ensures nLeft == Median(nKeys, k) && nRight == nKeys - nLeft && m == base + ITEM * nLeft
  {
    nLeft := nKeys / 2;
    nRight := nKeys - nLeft;
    m := ITEM * nLeft + base;
    if i > m {
      nLeft := nLeft + 1;
      nRight := nRight - 1;
      m := m + ITEM;
    }
  }

  /** Both halves of `btree_leaf_split`, cut at the median. */
  method LeafFillHalves(s: Store, leaf: nat, orig: nat, split: nat, key: word, val: word, i: nat,
                        ghost flags: nat, ghost keys: seq<word>, ghost vals: seq<word>, ghost k: nat, ghost kept: word)
    returns (mid: word)
    requires s.Ready() && HoldsAt(s, leaf, flags, keys, vals) && |keys| == |vals| >= 3
    requires IsPage(orig, s.end, s.unit) && IsPage(split, s.end, s.unit) && orig != leaf && split != leaf
             && orig != split
    requires k <= |keys| && i == LeafOffset(k) && kept == KeyGet(key)
    modifies s`mem
    ensures s.Ready() && mid == keys[Median(|keys|, k)]
    ensures HoldsAt(s, orig, ClearRoot(flags), LeafLeft(keys, k, kept), LeafLeft(vals, k, val))
    ensures HoldsAt(s, split, ClearRoot(flags), LeafRight(keys, k, kept), LeafRight(vals, k, val))
    ensures Untouched(old(s.mem), s.mem, s.unit, s.end, {orig, split})
  {
    ghost var bs := Slot(s.mem, leaf, s.unit);
    s.PageInside(leaf);
    LeafHeader(bs, flags, keys, vals);
    var hdr := ReadUi64(s, leaf, 0);
    var nLeft, nRight, m := FindMedian(PgNKeys(hdr), HDR, i, k);
    ghost var c := Median(|keys|, k);
    FirstColumn(bs, flags, keys, vals, c, m);
    mid := ReadUi64(s, leaf, m);
    HalvesFit(keys, vals, k, kept, val, bs, flags);
    LeafFillBoth(s, leaf, orig, split, nLeft, nRight, m, PgEnd(hdr), KeyGet(key), val, i, flags, keys, vals, c, k);
  }

  method LeafFillBoth(s: Store, leaf: nat, orig: nat, split: nat, nLeft: nat, nRight: nat, m: nat, end: nat,
                      key: word, val: word, i: nat,
                      ghost flags: nat, ghost keys: seq<word>, ghost vals: seq<word>, ghost c: nat, ghost k: nat)
    requires s.Ready() && HoldsAt(s, leaf, flags, keys, vals) && |keys| == |vals|
    requires IsPage(orig, s.end, s.unit) && IsPage(split, s.end, s.unit) && orig != leaf && split != leaf
             && orig != split
    requires c <= |keys| && k <= |keys| && nLeft == c && nRight == |keys| - c
    requires i == LeafOffset(k) && m == LeafOffset(c) && end == LeafOffset(|keys|)
    requires LeafOffset(|BTreeModel.LeafCopyIn(keys, 0, c, k, key)|) <= s.unit
    requires LeafOffset(|BTreeModel.LeafCopyIn(keys, c, |keys|, k, key)|) <= s.unit
    modifies s`mem
    ensures s.Ready()
    ensures HoldsAt(s, orig, ClearRoot(flags), BTreeModel.LeafCopyIn(keys, 0, c, k, key),
                    BTreeModel.LeafCopyIn(vals, 0, c, k, val))
    ensures HoldsAt(s, split, ClearRoot(flags), BTreeModel.LeafCopyIn(keys, c, |keys|, k, key),
                    BTreeModel.LeafCopyIn(vals, c, |keys|, k, val))
    ensures Untouched(old(s.mem), s.mem, s.unit, s.end, {orig, split})
  {
    ghost var m0 := s.mem;
    LeafFillFirst(s, leaf, orig, nLeft, m, key, val, i, flags, keys, vals, c, k);
    ghost var m1 := s.mem;
    LeafFillSecond(s, leaf, split, nRight, m, end, key, val, i, flags, keys, vals, c, k, orig, ClearRoot(flags),
                   BTreeModel.LeafCopyIn(keys, 0, c, k, key), BTreeModel.LeafCopyIn(vals, 0, c, k, val));
    UntouchedBoth(m0, m1, s.mem, s.unit, s.end, orig, split);
  }

  /** The left half; the leaf itself stays as it was. */
  method LeafFillFirst(s: Store, leaf: nat, orig: nat, nLeft: nat, m: nat, key: word, val: word, i: nat,
                       ghost flags: nat, ghost keys: seq<word>, ghost vals: seq<word>, ghost c: nat, ghost k: nat)
    requires s.Ready() && HoldsAt(s, leaf, flags, keys, vals) && |keys| == |vals|
    requires IsPage(orig, s.end, s.unit) && orig != leaf && c <= |keys| && k <= |keys| && nLeft == c
    requires i == LeafOffset(k) && m == LeafOffset(c)
    requires LeafOffset(|BTreeModel.LeafCopyIn(keys, 0, c, k, key)|) <= s.unit
    modifies s`mem
    ensures s.Ready() && HoldsAt(s, leaf, flags, keys, vals)
    ensures HoldsAt(s, orig, ClearRoot(flags), BTreeModel.LeafCopyIn(keys, 0, c, k, key),
                    BTreeModel.LeafCopyIn(vals, 0, c, k, val))
    ensures Untouched(old(s.mem), s.mem, s.unit, s.end, {orig})
  {
    ghost var m0 := s.mem;
    s.PageInside(leaf);
    LeafCopyIn(s, orig, leaf, nLeft, HDR, m, key, val, i, flags, keys, vals, 0, c, k);
    HeldKept(m0, s.mem, s.unit, s.end, {orig}, leaf, flags, keys, vals);
  }

  /** The right half; the left one stays as it was. */
  method LeafFillSecond(s: Store, leaf: nat, split: nat, nRight: nat, m: nat, end: nat, key: word, val: word, i: nat,
                        ghost flags: nat, ghost keys: seq<word>, ghost vals: seq<word>, ghost c: nat, ghost k: nat,
                        ghost orig: nat, ghost lf: nat, ghost lk: seq<word>, ghost lv: seq<word>)
    requires s.Ready() && HoldsAt(s, leaf, flags, keys, vals) && |keys| == |vals| && HoldsAt(s, orig, lf, lk, lv)
    requires IsPage(split, s.end, s.unit) && split != leaf && split != orig && c <= |keys| && k <= |keys|
             && nRight == |keys| - c
    requires i == LeafOffset(k) && m == LeafOffset(c) && end == LeafOffset(|keys|)
    requires LeafOffset(|BTreeModel.LeafCopyIn(keys, c, |keys|, k, key)|) <= s.unit
    modifies s`mem
    ensures s.Ready() && HoldsAt(s, orig, lf, lk, lv)
    ensures HoldsAt(s, split, ClearRoot(flags), BTreeModel.LeafCopyIn(keys, c, |keys|, k, key),
                    BTreeModel.LeafCopyIn(vals, c, |keys|, k, val))
    ensures Untouched(old(s.mem), s.mem, s.unit, s.end, {split})
  {
    ghost var m0 := s.mem;
    s.PageInside(orig);
    LeafCopyIn(s, split, leaf, nRight, m, end, key, val, i, flags, keys, vals, c, |keys|, k);
    HeldKept(m0, s.mem, s.unit, s.end, {split}, orig, lf, lk, lv);
  }

  lemma HeldKept(m0: seq<byte>, m1: seq<byte>, unit: nat, end: nat, written: set<nat>,
                 page: nat, flags: nat, a: seq<word>, b: seq<word>)
    requires Held(m0, unit, page, flags, a, b)
    requires Untouched(m0, m1, unit, end, written) && IsPage(page, end, unit) && page !in written
    ensures Held(m1, unit, page, flags, a, b)
  {
    KeptPage(m0, m1, unit, end, written, page);
  }

  lemma {:induction false} HalvesFit(keys: seq<word>, vals: seq<word>, k: nat, key: word, val: word, bs: seq<byte>,
                                     flags: nat)
    requires |keys| == |vals| >= 3 && k <= |keys| && Holds(bs, flags, Weave(keys, vals))
    ensures LeafOffset(|LeafLeft(keys, k, key)|) <= |bs| && LeafOffset(|LeafRight(keys, k, key)|) <= |bs|
    ensures |LeafLeft(keys, k, key)| == |LeafLeft(vals, k, val)|
            && |LeafRight(keys, k, key)| == |LeafRight(vals, k, val)|
    ensures var c := Median(|keys|, k);
            && LeafLeft(keys, k, key) == BTreeModel.LeafCopyIn(keys, 0, c, k, key)
            && LeafLeft(vals, k, val) == BTreeModel.LeafCopyIn(vals, 0, c, k, val)
            && LeafRight(keys, k, key) == BTreeModel.LeafCopyIn(keys, c, |keys|, k, key)
            && LeafRight(vals, k, val) == BTreeModel.LeafCopyIn(vals, c, |keys|, k, val)
  {
    LeafSplitIsInsert(keys, k, key);
    var c := Median(|keys|, k);
    CopyInLength(keys, 0, c, k, key);
    CopyInLength(vals, 0, c, k, val);
    CopyInLength(keys, c, |keys|, k, key);
    CopyInLength(vals, c, |keys|, k, val);
  }

  /** A split page before it is freed: from `s0` two pages were handed out, in `s1`, and only they
      have been filled since. */
  ghost predicate Drafted(s0: Snap, s1: Snap, now: Snap, unit: nat, reuse: bool, page: nat, orig: nat, split: nat)
    requires unit > 0
  {
    && Balanced(s1, unit, reuse) && now == s1.(mem := now.mem)
    && page in s0.owned && page in s1.owned
    && Step(s0, s1, unit, reuse, {}, {orig, split}, {orig, split})
    && Untouched(s1.mem, now.mem, unit, s1.end, {orig, split})
    && s1.end <= s0.end + 2 * unit && |s1.free| + 1 <= Max1(|s0.free|)
  }

  lemma DraftFilled(s0: Snap, s1: Snap, now: Snap, unit: nat, reuse: bool, page: nat, orig: nat, split: nat)
    requires unit > 0 && Drafted(s0, s1, s1, unit, reuse, page, orig, split)
    requires now == s1.(mem := now.mem) && Untouched(s1.mem, now.mem, unit, s1.end, {orig, split})
    ensures Drafted(s0, s1, now, unit, reuse, page, orig, split)
  {
  }

  /** `btree_leaf_split`: two new pages and the median key between them replace a full leaf. The key is
      stored without its overflow bit. */
  method LeafSplit(s: Store, leaf: nat, key: word, val: word, ghost flags: nat, ghost keys: seq<word>,
                   ghost vals: seq<word>)
    returns (mid: word, orig: nat, split: nat)
    requires s.Paged() && leaf in s.owned && HoldsAt(s, leaf, flags, keys, vals) && |keys| == |vals| >= 3
    requires s.end + 2 * s.unit < TWO64
    modifies s
    ensures s.Paged() && 0 < orig < TWO64 && 0 < split < TWO64 && orig != split
    ensures var k := LeafIndex(keys, key);
            && mid == keys[Median(|keys|, k)]
            && HoldsAt(s, orig, ClearRoot(flags), LeafLeft(keys, k, KeyGet(key)), LeafLeft(vals, k, val))
            && HoldsAt(s, split, ClearRoot(flags), LeafRight(keys, k, KeyGet(key)), LeafRight(vals, k, val))
    ensures Step(old(s.Now()), s.Now(), s.unit, s.reuse, {leaf}, {orig, split}, {orig, split})
    ensures s.end <= old(s.end) + 2 * s.unit && |s.freeList| <= Max1(|old(s.freeList)|)
  {
    s.PageInside(leaf);
    LeafHeader(Slot(s.mem, leaf, s.unit), flags, keys, vals);
    var hdr := ReadUi64(s, leaf, 0);
    var i := LeafFind(s, leaf, key, flags, keys, vals);
    ghost var s0, s1, k, kept := s.Now(), s.Now(), LeafIndex(keys, key), KeyGet(key);
    mid, orig, split, s1 := LeafSplitPages(s, leaf, PgSize(hdr), i, key, val, flags, keys, vals, k, kept);
    FreeSplit(s, leaf, orig, split, s0, s1);
  }

  /** The two new pages, allocated and filled. */
  method LeafSplitPages(s: Store, leaf: nat, size: nat, i: nat, key: word, val: word,
                        ghost flags: nat, ghost keys: seq<word>, ghost vals: seq<word>, ghost k: nat, ghost kept: word)
    returns (mid: word, orig: nat, split: nat, ghost s1: Snap)
    requires s.Paged() && leaf in s.owned && HoldsAt(s, leaf, flags, keys, vals) && |keys| == |vals| >= 3
    requires s.end + 2 * s.unit < TWO64 && size == s.unit && k <= |keys| && i == LeafOffset(k) && kept == KeyGet(key)
    modifies s
    ensures s.Ready() && 0 < orig < TWO64 && 0 < split < TWO64 && orig != split
    ensures mid == keys[Median(|keys|, k)]
    ensures HoldsAt(s, orig, ClearRoot(flags), LeafLeft(keys, k, kept), LeafLeft(vals, k, val))
    ensures HoldsAt(s, split, ClearRoot(flags), LeafRight(keys, k, kept), LeafRight(vals, k, val))
    ensures Drafted(old(s.Now()), s1, s.Now(), s.unit, s.reuse, leaf, orig, split)
  {
    ghost var s0 := s.Now();
    orig, split := AllocTwo(s, size, leaf, flags, keys, vals);
    s1 := s.Now();
    mid := LeafFillHalves(s, leaf, orig, split, key, val, i, flags, keys, vals, k, kept);
    DraftFilled(s0, s1, s.Now(), s.unit, s.reuse, leaf, orig, split);
  }

  /** The free that closes the splitting of `page` into `orig` and `split`. */
  method FreeSplit(s: Store, page: nat, ghost orig: nat, ghost split: nat, ghost s0: Snap, ghost s1: Snap)
    requires s.Ready() && Drafted(s0, s1, s.Now(), s.unit, s.reuse, page, orig, split)
    modifies s
    ensures s.Paged() && s.mem == old(s.mem) && s.end == old(s.end)
    ensures Step(s0, s.Now(), s.unit, s.reuse, {page}, {orig, split}, {orig, split})
    ensures s.end <= s0.end + 2 * s.unit && |s.freeList| <= Max1(|s0.free|)
  {
    ghost var s2 := s.Now();
    s.Free(page);
    StepSplit(s0, s1, s2, s.Now(), s.unit, s.reuse, page, orig, split);
  }

  /** The two allocations that open both splits. */
  method AllocTwo(s: Store, size: nat, ghost page: nat, ghost flags: nat, ghost a: seq<word>, ghost b: seq<word>)
    returns (orig: nat, split: nat)
    requires s.Paged() && size == s.unit && s.end + 2 * s.unit < TWO64
    requires page in s.owned && HoldsAt(s, page, flags, a, b)
    modifies s
    ensures s.Paged() && HEADER_SIZE <= orig < TWO64 && HEADER_SIZE <= split < TWO64
    ensures IsPage(orig, s.end, s.unit) && IsPage(split, s.end, s.unit)
    ensures orig != page && split != page && orig != split
    ensures HoldsAt(s, page, flags, a, b)
    ensures Drafted(old(s.Now()), s.Now(), s.Now(), s.unit, s.reuse, page, orig, split)
  {
    ghost var s0 := s.Now();
    s.OwnedPage(page);
    var p := s.AllocPage(size);
    ghost var s1 := s.Now();
    s.OwnedPage(p);
    s.PageInside(p);
    var q := s.AllocPage(size);
    TwoTaken(s0, s1, s.Now(), s.unit, s.reuse, page, p, q);
    s.OwnedPage(q);
    s.PageInside(q);
    StepTwoAllocs(s0, s1, s.Now(), s.unit, s.reuse, p, q);
    orig, split := p, q;
  }

  // ---- Branch pages ----

  /** Offset just past child address `b`: where key `b` starts, or where the page ends. */
  function KeyOffset(b: nat): nat { HDR + WORD + ITEM * b }

  /** From the key after child `i` to the address of child `j`. */
  lemma {:induction false} HeldKeys(bs: seq<byte>, flags: nat, a: seq<word>, b: seq<word>, i: nat, j: nat, p: nat,
                                    n: nat)
    requires |a| == |b| + 1 && Holds(bs, flags, Weave(a, b)) && i <= j <= |b|
    requires p == KeyOffset(i) && n == ITEM * j - ITEM * i
    ensures p + n <= |bs| && Slot(bs, p, n) == Bytes(Weave(b[i..j], a[i + 1..j + 1]))
  {
    HeldSlice(bs, flags, Weave(a, b), 2 * i + 1, 2 * j + 1);
    WeaveKeySlice(a, b, i, j);
  }

  /** From the address of child `i` to that of child `j`. */
  lemma {:induction false} HeldKids(bs: seq<byte>, flags: nat, a: seq<word>, b: seq<word>, i: nat, j: nat, p: nat,
                                    n: nat)
    requires |a| == |b| + 1 && Holds(bs, flags, Weave(a, b)) && i <= j <= |b|
    requires p == LeafOffset(i) && n == WORD + ITEM * j - ITEM * i
    ensures p + n <= |bs| && Slot(bs, p, n) == Bytes(Weave(a[i..j + 1], b[i..j]))
  {
    HeldSlice(bs, flags, Weave(a, b), 2 * i, 2 * j + 1);
    WeaveOddSlice(a, b, i, j);
  }

  lemma {:induction false} OneBytes(p1: seq<word>, k1: seq<word>, x: word, p2: seq<word>, k2: seq<word>)
    requires |p1| == |k1| && |p2| == |k2|
    ensures Bytes(Weave(p1 + [x] + p2, k1 + k2)) == Bytes(Weave(p1, k1)) + Encode(x) + Bytes(Weave(k2, p2))
  {
    WeaveOne(p1, k1, x, p2, k2);
    BytesAppend(Weave(p1, k1) + [x], Weave(k2, p2));
    BytesAppend(Weave(p1, k1), [x]);
    BytesOne(x);
  }

  lemma {:induction false} ThreeBytes(p1: seq<word>, k1: seq<word>, x: word, m: word, y: word, p2: seq<word>,
                                      k2: seq<word>)
    requires |p1| == |k1| && |p2| == |k2|
    ensures Bytes(Weave(p1 + [x, y] + p2, k1 + [m] + k2))
            == Bytes(Weave(p1, k1)) + Encode(x) + Encode(m) + Encode(y) + Bytes(Weave(k2, p2))
  {
    WeaveThree(p1, k1, x, m, y, p2, k2);
    BytesAppend(Weave(p1, k1) + [x, m, y], Weave(k2, p2));
    BytesAppend(Weave(p1, k1), [x, m, y]);
    BytesAppend([x, m], [y]);
    BytesAppend([x], [m]);
    BytesOne(x);
    BytesOne(m);
    BytesOne(y);
    assert [x, m] + [y] == [x, m, y] && [x] + [m] == [x, m];
  }

  lemma {:induction false} BranchHeader(bs: seq<byte>, flags: nat, ptrs: seq<word>, keys: seq<word>)
    requires |ptrs| == |keys| + 1 && Holds(bs, flags, Weave(ptrs, keys))
    ensures var hdr := Decode(bs, 0);
            && hdr == PackHeader(flags, |bs|, |keys|, KeyOffset(|keys|))
            && PgFlags(hdr) == flags && PgSize(hdr) == |bs| && PgNKeys(hdr) == |keys|
            && PgEnd(hdr) == PgUsed(hdr) == KeyOffset(|keys|) && PgFree(hdr) == |bs| - KeyOffset(|keys|)
  {
    HeldHeader(bs, flags, Weave(ptrs, keys));
  }

  /** The columns of a branch after child `k` became `orig` and, unless `split` is 0, `split` after `mid`. */
  function PutPtrs(ptrs: seq<word>, k: nat, orig: word, split: word): (r: seq<word>)
    requires k < |ptrs|
    ensures |r| == |ptrs| + if split == 0 then 0 else 1
  {
    if split == 0 then ptrs[k := orig] else Spread(ptrs, k, orig, split)
  }

  function PutKeys(keys: seq<word>, k: nat, mid: word, split: word): (r: seq<word>)
    requires k <= |keys|
    ensures |r| == |keys| + if split == 0 then 0 else 1
  {
    if split == 0 then keys else Insert(keys, k, mid)
  }

  lemma {:induction false} CopyUpBytes(ptrs: seq<word>, keys: seq<word>, a: nat, b: nat, k: nat,
                                       mid: word, orig: word, split: word)
    requires |ptrs| == |keys| + 1 && a <= k <= b <= |keys| && CopiesUp(a, b, k)
    ensures Bytes(Weave(CopyUpKids(ptrs, a, b, k, orig, split), CopyUpKeys(keys, a, b, k, mid)))
            == Bytes(Weave(ptrs[a..k], keys[a..k])) + Encode(orig) + Encode(mid) + Encode(split)
               + Bytes(Weave(keys[k..b], ptrs[k + 1..b + 1]))
  {
    ThreeBytes(ptrs[a..k], keys[a..k], orig, mid, split, ptrs[k + 1..b + 1], keys[k..b]);
  }

  /** Three words in a row, as both branch operations write them. */
  method WriteThree(s: Store, dest: nat, d: nat, x: word, m: word, y: word,
                    ghost m0: seq<byte>, ghost b: seq<byte>)
    requires Filling(s, m0, dest, [], b) && d == HDR + |b| && d + WORD + ITEM <= s.unit
    modifies s`mem
    ensures Filling(s, m0, dest, [], b + Encode(x) + Encode(m) + Encode(y))
  {
    var d1 := d + WORD;
    var d2 := d1 + WORD;
    WriteUi64(s, dest, d, x, m0, [], b);
    WriteUi64(s, dest, d1, m, m0, [], b + Encode(x));
    WriteUi64(s, dest, d2, y, m0, [], b + Encode(x) + Encode(m));
  }

  method BranchCopyWith(s: Store, dest: nat, src: nat, si: nat, ei: nat, mid: word, orig: word, split: word, idx: nat,
                        ghost flags: nat, ghost ptrs: seq<word>, ghost keys: seq<word>, ghost a: nat, ghost b: nat,
                        ghost k: nat)
    requires Filling(s, s.mem, dest, [], [])
    requires HoldsAt(s, src, flags, ptrs, keys) && |ptrs| == |keys| + 1 && dest != src
    requires a <= k <= b <= |keys| && CopiesUp(a, b, k)
    requires si == LeafOffset(a) && ei == KeyOffset(b) && idx == LeafOffset(k)
    requires KeyOffset(|CopyUpKeys(keys, a, b, k, mid)|) <= s.unit
    modifies s`mem
    ensures Filling(s, old(s.mem), dest, [],
                    Bytes(Weave(CopyUpKids(ptrs, a, b, k, orig, split), CopyUpKeys(keys, a, b, k, mid))))
  {
    ghost var m0, bs := s.mem, Slot(s.mem, src, s.unit);
    ghost var b1 := Bytes(Weave(ptrs[a..k], keys[a..k]));
    CopyUpLengths(keys, ptrs, a, b, k, mid, orig, split);
    var left, d, i := idx - si, HDR + idx - si, idx + WORD;
    var right, d3 := ei - i, HDR + i - si + ITEM;
    HeldPairs(bs, flags, ptrs, keys, a, k, si, left);
    HeldKeys(bs, flags, ptrs, keys, k, b, i, right);
    Copy(s, dest, HDR, src, si, left, m0, [], []);
    EmptyAppend(b1);
    WriteThree(s, dest, d, orig, mid, split, m0, b1);
    Copy(s, dest, d3, src, i, right, m0, [], b1 + Encode(orig) + Encode(mid) + Encode(split));
    CopyUpBytes(ptrs, keys, a, b, k, mid, orig, split);
  }

  lemma {:induction false} PutOneBytes(ptrs: seq<word>, keys: seq<word>, k: nat, orig: word)
    requires |ptrs| == |keys| + 1 && k <= |keys|
    ensures Bytes(Weave(ptrs[k := orig], keys))
            == Bytes(Weave(ptrs[0..k], keys[0..k])) + Encode(orig)
               + Bytes(Weave(keys[k..|keys|], ptrs[k + 1..|keys| + 1]))
  {
    assert ptrs[0..k] + [orig] + ptrs[k + 1..|keys| + 1] == ptrs[k := orig] && keys[0..k] + keys[k..|keys|] == keys;
    OneBytes(ptrs[0..k], keys[0..k], orig, ptrs[k + 1..|keys| + 1], keys[k..|keys|]);
  }

  lemma {:induction false} PutIsCopyUp(ptrs: seq<word>, keys: seq<word>, k: nat, mid: word, orig: word, split: word)
    requires |ptrs| == |keys| + 1 && k <= |keys|
    ensures Spread(ptrs, k, orig, split) == CopyUpKids(ptrs, 0, |keys|, k, orig, split)
    ensures Insert(keys, k, mid) == CopyUpKeys(keys, 0, |keys|, k, mid)
  {
  }

  /** A child replaced by its copy: the items of `btree_branch_add` when nothing split. */
  method BranchCopyOne(s: Store, copy: nat, branch: nat, idx: nat, end: nat, orig: word,
                       ghost flags: nat, ghost ptrs: seq<word>, ghost keys: seq<word>, ghost k: nat)
    requires Filling(s, s.mem, copy, [], [])
    requires HoldsAt(s, branch, flags, ptrs, keys) && |ptrs| == |keys| + 1 && copy != branch
    requires k <= |keys| && idx == LeafOffset(k) && end == KeyOffset(|keys|) <= s.unit
    modifies s`mem
    ensures Filling(s, old(s.mem), copy, [], Bytes(Weave(ptrs[k := orig], keys)))
  {
    ghost var m0, bs := s.mem, Slot(s.mem, branch, s.unit);
    ghost var b1 := Bytes(Weave(ptrs[0..k], keys[0..k]));
    var left, right, i1 := idx - HDR, end - idx - WORD, idx + WORD;
    HeldPairs(bs, flags, ptrs, keys, 0, k, HDR, left);
    HeldKeys(bs, flags, ptrs, keys, k, |keys|, i1, right);
    Copy(s, copy, HDR, branch, HDR, left, m0, [], []);
    EmptyAppend(b1);
    WriteUi64(s, copy, idx, orig, m0, [], b1);
    Copy(s, copy, i1, branch, i1, right, m0, [], b1 + Encode(orig));
    PutOneBytes(ptrs, keys, k, orig);
  }

  /** The items of `btree_branch_add`: the addresses and keys before, what replaces the child, the rest. */
  method BranchPutItems(s: Store, copy: nat, branch: nat, idx: nat, end: nat, mid: word, orig: word, split: word,
                        ghost flags: nat, ghost ptrs: seq<word>, ghost keys: seq<word>, ghost k: nat)
    returns (offset: nat)
    requires Filling(s, s.mem, copy, [], [])
    requires HoldsAt(s, branch, flags, ptrs, keys) && |ptrs| == |keys| + 1 && copy != branch
    requires k <= |keys| && idx == LeafOffset(k) && end == KeyOffset(|keys|)
    requires KeyOffset(|PutKeys(keys, k, mid, split)|) <= s.unit
    modifies s`mem
    ensures offset == if split == 0 then 0 else ITEM
    ensures Filling(s, old(s.mem), copy, [], Bytes(Weave(PutPtrs(ptrs, k, orig, split), PutKeys(keys, k, mid, split))))
  {
    offset := 0;
    if split != 0 {
      PutIsCopyUp(ptrs, keys, k, mid, orig, split);
      BranchCopyWith(s, copy, branch, HDR, end, mid, orig, split, idx, flags, ptrs, keys, 0, |keys|, k);
      offset := ITEM;
    } else {
      BranchCopyOne(s, copy, branch, idx, end, orig, flags, ptrs, keys, k);
    }
  }

  method BranchHeaderDone(s: Store, dest: nat, flags: nat, size: nat, n: nat, used: nat, ghost m0: seq<byte>,
                          ghost ps: seq<word>, ghost ks: seq<word>)
    requires n == |ks| && |ps| == n + 1 && used == KeyOffset(n) <= s.unit && 64 <= s.unit < MAX16
    requires flags < 256 && size == s.unit
    requires Filling(s, m0, dest, [], Bytes(Weave(ps, ks)))
    modifies s`mem
    ensures s.Ready() && HoldsAt(s, dest, flags, ps, ks)
    ensures Untouched(m0, s.mem, s.unit, s.end, {dest})
  {
    ghost var ws := Weave(ps, ks);
    HdrWrite(s, dest, flags, size, n, used, m0, Bytes(ws));
    FilledHolds(m0, s.mem, s.end, s.unit, dest, flags, ws, n, used);
  }

  /** `btree_branch_add`: puts back a child that was copied (split 0) or split in two; result 0, and
      no change, when there is no room for the second half. */
  method BranchAdd(s: Store, branch: nat, idx: nat, mid: word, orig: word, split: word,
                   ghost flags: nat, ghost ptrs: seq<word>, ghost keys: seq<word>, ghost k: nat)
    returns (copy: nat)
    requires s.Paged() && branch in s.owned && HoldsAt(s, branch, flags, ptrs, keys) && |ptrs| == |keys| + 1
    requires k <= |keys| && idx == LeafOffset(k)
    requires s.end + s.unit < TWO64
    modifies s
    ensures s.Paged()
    ensures copy == 0 <==> split != 0 && |keys| >= BranchCap(s.unit)
    ensures copy == 0 ==> unchanged(s)
    ensures copy < TWO64
    ensures copy != 0 ==>
              && HoldsAt(s, copy, flags, PutPtrs(ptrs, k, orig, split), PutKeys(keys, k, mid, split))
              && Step(old(s.Now()), s.Now(), s.unit, s.reuse, {branch}, {copy}, {copy})
              && s.end <= old(s.end) + s.unit
    ensures |s.freeList| <= Max1(|old(s.freeList)|)
  {
    s.PageInside(branch);
    BranchHeader(Slot(s.mem, branch, s.unit), flags, ptrs, keys);
    var hdr := ReadUi64(s, branch, 0);
    if split != 0 && PgFree(hdr) < ITEM {
      return 0;
    }
    copy := BranchAddCopy(s, branch, hdr, idx, mid, orig, split, flags, ptrs, keys, k);
  }

  method BranchAddCopy(s: Store, branch: nat, hdr: word, idx: nat, mid: word, orig: word, split: word,
                       ghost flags: nat, ghost ptrs: seq<word>, ghost keys: seq<word>, ghost k: nat)
    returns (copy: nat)
    requires s.Paged() && branch in s.owned && HoldsAt(s, branch, flags, ptrs, keys) && |ptrs| == |keys| + 1
    requires k <= |keys| && idx == LeafOffset(k) && KeyOffset(|PutKeys(keys, k, mid, split)|) <= s.unit
    requires hdr == PackHeader(flags, s.unit, |keys|, KeyOffset(|keys|))
    requires s.end + s.unit < TWO64
    modifies s
    ensures s.Paged() && 0 < copy < TWO64
    ensures HoldsAt(s, copy, flags, PutPtrs(ptrs, k, orig, split), PutKeys(keys, k, mid, split))
    ensures Step(old(s.Now()), s.Now(), s.unit, s.reuse, {branch}, {copy}, {copy})
    ensures s.end <= old(s.end) + s.unit && |s.freeList| <= Max1(|old(s.freeList)|)
  {
    HeaderFields(flags, s.unit, |keys|, KeyOffset(|keys|));
    ghost var s0 := s.Now();
    copy := AllocCopy(s, PgSize(hdr), branch, flags, ptrs, keys);
    ghost var s1 := s.Now();
    BranchFillCopy(s, copy, branch, hdr, idx, mid, orig, split, flags, ptrs, keys, k);
    CopyFilled(s0, s1, s.Now(), s.unit, s.reuse, branch, copy);
    FreeCopied(s, branch, copy, s0, s1);
  }

  method BranchFillCopy(s: Store, copy: nat, branch: nat, hdr: word, idx: nat, mid: word, orig: word, split: word,
                        ghost flags: nat, ghost ptrs: seq<word>, ghost keys: seq<word>, ghost k: nat)
    requires s.Ready() && HoldsAt(s, branch, flags, ptrs, keys) && |ptrs| == |keys| + 1
    requires IsPage(copy, s.end, s.unit) && copy != branch
    requires k <= |keys| && idx == LeafOffset(k) && KeyOffset(|PutKeys(keys, k, mid, split)|) <= s.unit
    requires hdr == PackHeader(flags, s.unit, |keys|, KeyOffset(|keys|))
    modifies s`mem
    ensures s.Ready()
    ensures HoldsAt(s, copy, flags, PutPtrs(ptrs, k, orig, split), PutKeys(keys, k, mid, split))
    ensures Untouched(old(s.mem), s.mem, s.unit, s.end, {copy})
  {
    ghost var m0 := s.mem;
    HeaderFields(flags, s.unit, |keys|, KeyOffset(|keys|));
    FillStart(s, copy);
    var offset := BranchPutItems(s, copy, branch, idx, PgEnd(hdr), mid, orig, split, flags, ptrs, keys, k);
    var n, used := PgNKeys(hdr), PgUsed(hdr) + offset;
    if split != 0 {
      n := n + 1;
    }
    BranchHeaderDone(s, copy, PgFlags(hdr), PgSize(hdr), n, used, m0,
                     PutPtrs(ptrs, k, orig, split), PutKeys(keys, k, mid, split));
  }

  // ---- Splitting a branch ----

  /** `btree_branch_copy_up`: one half of a split branch, with the grown child when it belongs here. */
  method BranchCopyUp(s: Store, dest: nat, src: nat, nKeys: nat, si: nat, ei: nat,
                      mid: word, orig: word, split: word, idx: nat,
                      ghost flags: nat, ghost ptrs: seq<word>, ghost keys: seq<word>, ghost a: nat, ghost b: nat,
                      ghost k: nat)
    requires s.Ready() && HoldsAt(s, src, flags, ptrs, keys) && |ptrs| == |keys| + 1
    requires IsPage(dest, s.end, s.unit) && dest != src
    requires a <= b <= |keys| && k <= |keys| && nKeys == b - a && (CopiesUp(a, b, k) ==> k <= b)
    requires si == LeafOffset(a) && ei == KeyOffset(b) && idx == LeafOffset(k)
    requires KeyOffset(|CopyUpKeys(keys, a, b, k, mid)|) <= s.unit
    modifies s`mem
    ensures s.Ready()
    ensures HoldsAt(s, dest, ClearRoot(flags), CopyUpKids(ptrs, a, b, k, orig, split), CopyUpKeys(keys, a, b, k, mid))
    ensures Untouched(old(s.mem), s.mem, s.unit, s.end, {dest})
  {
    ghost var m0, bs := s.mem, Slot(s.mem, src, s.unit);
    s.PageInside(src);
    BranchHeader(bs, flags, ptrs, keys);
    FillStart(s, dest);
    CopyUpLengths(keys, ptrs, a, b, k, mid, orig, split);
    var hdr := ReadUi64(s, src, 0);
    var n := nKeys;
    if idx >= si && (si != HDR || idx < ei) {
      n := n + 1;
      BranchCopyWith(s, dest, src, si, ei, mid, orig, split, idx, flags, ptrs, keys, a, b, k);
    } else {
      var all := ei - si;
      HeldKids(bs, flags, ptrs, keys, a, b, si, all);
      Copy(s, dest, HDR, src, si, all, m0, [], []);
      EmptyAppend(Bytes(Weave(ptrs[a..b + 1], keys[a..b])));
    }
    var used := n * ITEM + HDR + WORD;
    BranchHeaderDone(s, dest, ClearRoot(PgFlags(hdr)), PgSize(hdr), n, used, m0,
                     CopyUpKids(ptrs, a, b, k, orig, split), CopyUpKeys(keys, a, b, k, mid));
  }

  method BranchFillBoth(s: Store, branch: nat, left: nat, right: nat, nLeft: nat, nRight: nat, m: nat, end: nat,
                        mid: word, orig: word, split: word, idx: nat,
                        ghost flags: nat, ghost ptrs: seq<word>, ghost keys: seq<word>, ghost c: nat, ghost c1: nat,
                        ghost k: nat)
    requires s.Ready() && HoldsAt(s, branch, flags, ptrs, keys) && |ptrs| == |keys| + 1
    requires IsPage(left, s.end, s.unit) && IsPage(right, s.end, s.unit) && left != branch && right != branch
             && left != right
    requires c < |keys| && c1 == c + 1 && k <= |keys| && nLeft == c && nRight == |keys| - c1
    requires idx == LeafOffset(k) && m == KeyOffset(c) && end == KeyOffset(|keys|)
    requires KeyOffset(|CopyUpKeys(keys, 0, c, k, mid)|) <= s.unit
    requires KeyOffset(|CopyUpKeys(keys, c1, |keys|, k, mid)|) <= s.unit
    modifies s`mem
    ensures s.Ready()
    ensures HoldsAt(s, left, ClearRoot(flags), CopyUpKids(ptrs, 0, c, k, orig, split), CopyUpKeys(keys, 0, c, k, mid))
    ensures HoldsAt(s, right, ClearRoot(flags), CopyUpKids(ptrs, c1, |keys|, k, orig, split),
                    CopyUpKeys(keys, c1, |keys|, k, mid))
    ensures Untouched(old(s.mem), s.mem, s.unit, s.end, {left, right})
  {
    ghost var m0 := s.mem;
    BranchFillFirst(s, branch, left, nLeft, m, mid, orig, split, idx, flags, ptrs, keys, c, k);
    ghost var m1 := s.mem;
    BranchFillSecond(s, branch, right, nRight, m + WORD, end, mid, orig, split, idx, flags, ptrs, keys, c1, k,
                     left, ClearRoot(flags), CopyUpKids(ptrs, 0, c, k, orig, split), CopyUpKeys(keys, 0, c, k, mid));
    UntouchedBoth(m0, m1, s.mem, s.unit, s.end, left, right);
  }

  method BranchFillFirst(s: Store, branch: nat, left: nat, nLeft: nat, m: nat, mid: word, orig: word, split: word,
                         idx: nat,
                         ghost flags: nat, ghost ptrs: seq<word>, ghost keys: seq<word>, ghost c: nat, ghost k: nat)
    requires s.Ready() && HoldsAt(s, branch, flags, ptrs, keys) && |ptrs| == |keys| + 1
    requires IsPage(left, s.end, s.unit) && left != branch && c <= |keys| && k <= |keys| && nLeft == c
    requires idx == LeafOffset(k) && m == KeyOffset(c)
    requires KeyOffset(|CopyUpKeys(keys, 0, c, k, mid)|) <= s.unit
    modifies s`mem
    ensures s.Ready() && HoldsAt(s, branch, flags, ptrs, keys)
    ensures HoldsAt(s, left, ClearRoot(flags), CopyUpKids(ptrs, 0, c, k, orig, split), CopyUpKeys(keys, 0, c, k, mid))
    ensures Untouched(old(s.mem), s.mem, s.unit, s.end, {left})
  {
    ghost var m0 := s.mem;
    s.PageInside(branch);
    BranchCopyUp(s, left, branch, nLeft, HDR, m, mid, orig, split, idx, flags, ptrs, keys, 0, c, k);
    HeldKept(m0, s.mem, s.unit, s.end, {left}, branch, flags, ptrs, keys);
  }

  method BranchFillSecond(s: Store, branch: nat, right: nat, nRight: nat, m: nat, end: nat,
                          mid: word, orig: word, split: word, idx: nat,
                          ghost flags: nat, ghost ptrs: seq<word>, ghost keys: seq<word>, ghost c1: nat, ghost k: nat,
                          ghost left: nat, ghost lf: nat, ghost lp: seq<word>, ghost lk: seq<word>)
    requires s.Ready() && HoldsAt(s, branch, flags, ptrs, keys) && |ptrs| == |keys| + 1 && HoldsAt(s, left, lf, lp, lk)
    requires IsPage(right, s.end, s.unit) && right != branch && right != left
    requires 0 < c1 <= |keys| && k <= |keys| && nRight == |keys| - c1
    requires idx == LeafOffset(k) && m == LeafOffset(c1) && end == KeyOffset(|keys|)
    requires KeyOffset(|CopyUpKeys(keys, c1, |keys|, k, mid)|) <= s.unit
    modifies s`mem
    ensures s.Ready() && HoldsAt(s, left, lf, lp, lk)
    ensures HoldsAt(s, right, ClearRoot(flags), CopyUpKids(ptrs, c1, |keys|, k, orig, split),
                    CopyUpKeys(keys, c1, |keys|, k, mid))
    ensures Untouched(old(s.mem), s.mem, s.unit, s.end, {right})
  {
    ghost var m0 := s.mem;
    s.PageInside(left);
    BranchCopyUp(s, right, branch, nRight, m, end, mid, orig, split, idx, flags, ptrs, keys, c1, |keys|, k);
    HeldKept(m0, s.mem, s.unit, s.end, {right}, left, lf, lp, lk);
  }

  lemma {:induction false} BranchHalvesFit(ptrs: seq<word>, keys: seq<word>, k: nat, mid: word, orig: word, split: word,
                                           bs: seq<byte>, flags: nat)
    requires |ptrs| == |keys| + 1 && |keys| >= 3 && k <= |keys| && Holds(bs, flags, Weave(ptrs, keys))
    ensures var c := Median(|keys|, k);
            && c < |keys|
            && KeyOffset(|CopyUpKeys(keys, 0, c, k, mid)|) <= |bs|
            && KeyOffset(|CopyUpKeys(keys, c + 1, |keys|, k, mid)|) <= |bs|
  {
    var c := Median(|keys|, k);
    CopyUpLengths(keys, ptrs, 0, c, k, mid, orig, split);
    CopyUpLengths(keys, ptrs, c + 1, |keys|, k, mid, orig, split);
  }

  /** The median key, and both halves of `btree_branch_split`. */
  method BranchFillHalves(s: Store, branch: nat, left: nat, right: nat, mid: word, orig: word, split: word, idx: nat,
                          ghost flags: nat, ghost ptrs: seq<word>, ghost keys: seq<word>, ghost k: nat, ghost c: nat,
                          ghost c1: nat)
    returns (up: word)
    requires s.Ready() && HoldsAt(s, branch, flags, ptrs, keys) && |ptrs| == |keys| + 1 && |keys| >= 3
    requires IsPage(left, s.end, s.unit) && IsPage(right, s.end, s.unit)
    requires left != branch && right != branch && left != right
    requires k <= |keys| && idx == LeafOffset(k) && c == Median(|keys|, k) && c1 == c + 1
    modifies s`mem
    ensures s.Ready() && up == keys[c]
    ensures HoldsAt(s, left, ClearRoot(flags), CopyUpKids(ptrs, 0, c, k, orig, split), CopyUpKeys(keys, 0, c, k, mid))
    ensures HoldsAt(s, right, ClearRoot(flags), CopyUpKids(ptrs, c1, |keys|, k, orig, split),
                    CopyUpKeys(keys, c1, |keys|, k, mid))
    ensures Untouched(old(s.mem), s.mem, s.unit, s.end, {left, right})
  {
    ghost var bs := Slot(s.mem, branch, s.unit);
    s.PageInside(branch);
    BranchHeader(bs, flags, ptrs, keys);
    var hdr := ReadUi64(s, branch, 0);
    var nLeft, nRight, m := FindMedian(PgNKeys(hdr), HDR + WORD, idx, k);
    SecondColumn(bs, flags, ptrs, keys, c, m);
    up := ReadUi64(s, branch, m);
    BranchHalvesFit(ptrs, keys, k, mid, orig, split, bs, flags);
    BranchFillBoth(s, branch, left, right, nLeft, nRight - 1, m, PgEnd(hdr), mid, orig, split, idx,
                   flags, ptrs, keys, c, c1, k);
  }

  /** Two pages of the size the branch says it has. */
  method BranchAllocTwo(s: Store, branch: nat, ghost flags: nat, ghost ptrs: seq<word>, ghost keys: seq<word>)
    returns (left: nat, right: nat)
    requires s.Paged() && branch in s.owned && HoldsAt(s, branch, flags, ptrs, keys) && |ptrs| == |keys| + 1
    requires s.end + 2 * s.unit < TWO64
    modifies s
    ensures s.Paged() && HoldsAt(s, branch, flags, ptrs, keys)
    ensures 0 < left < TWO64 && 0 < right < TWO64 && left != branch && right != branch && left != right
    ensures IsPage(left, s.end, s.unit) && IsPage(right, s.end, s.unit)
    ensures Drafted(old(s.Now()), s.Now(), s.Now(), s.unit, s.reuse, branch, left, right)
  {
    s.PageInside(branch);
    BranchHeader(Slot(s.mem, branch, s.unit), flags, ptrs, keys);
    var hdr := ReadUi64(s, branch, 0);
    left, right := AllocTwo(s, PgSize(hdr), branch, flags, ptrs, keys);
  }

  /** `btree_branch_split`: two new pages and the median key, which is in neither, replace a full branch. */
  method BranchSplit(s: Store, branch: nat, idx: nat, mid: word, orig: word, split: word,
                     ghost flags: nat, ghost ptrs: seq<word>, ghost keys: seq<word>, ghost k: nat, ghost c1: nat)
    returns (up: word, left: nat, right: nat)
    requires s.Paged() && branch in s.owned && HoldsAt(s, branch, flags, ptrs, keys)
    requires |ptrs| == |keys| + 1 && |keys| >= 3 && k <= |keys| && idx == LeafOffset(k)
    requires c1 == Median(|keys|, k) + 1
    requires s.end + 2 * s.unit < TWO64
    modifies s
    ensures s.Paged() && 0 < left < TWO64 && 0 < right < TWO64 && left != right
    ensures var c := Median(|keys|, k);
            && up == keys[c]
            && HoldsAt(s, left, ClearRoot(flags), CopyUpKids(ptrs, 0, c, k, orig, split),
                       CopyUpKeys(keys, 0, c, k, mid))
            && HoldsAt(s, right, ClearRoot(flags), CopyUpKids(ptrs, c1, |keys|, k, orig, split),
                       CopyUpKeys(keys, c1, |keys|, k, mid))
    ensures Step(old(s.Now()), s.Now(), s.unit, s.reuse, {branch}, {left, right}, {left, right})
    ensures s.end <= old(s.end) + 2 * s.unit && |s.freeList| <= Max1(|old(s.freeList)|)
  {
    ghost var s0, s1, c := s.Now(), s.Now(), Median(|keys|, k);
    up, left, right, s1 := BranchSplitPages(s, branch, idx, mid, orig, split, flags, ptrs, keys, k, c, c1);
    FreeSplit(s, branch, left, right, s0, s1);
  }

  /** The two new pages, allocated and filled. */
  method BranchSplitPages(s: Store, branch: nat, idx: nat, mid: word, orig: word, split: word,
                          ghost flags: nat, ghost ptrs: seq<word>, ghost keys: seq<word>,
                          ghost k: nat, ghost c: nat, ghost c1: nat)
    returns (up: word, left: nat, right: nat, ghost s1: Snap)
    requires s.Paged() && branch in s.owned && HoldsAt(s, branch, flags, ptrs, keys)
    requires |ptrs| == |keys| + 1 && |keys| >= 3 && k <= |keys| && idx == LeafOffset(k)
    requires c == Median(|keys|, k) && c1 == c + 1 && s.end + 2 * s.unit < TWO64
    modifies s
    ensures s.Ready() && 0 < left < TWO64 && 0 < right < TWO64 && left != right
    ensures up == keys[c]
    ensures HoldsAt(s, left, ClearRoot(flags), CopyUpKids(ptrs, 0, c, k, orig, split), CopyUpKeys(keys, 0, c, k, mid))
    ensures HoldsAt(s, right, ClearRoot(flags), CopyUpKids(ptrs, c1, |keys|, k, orig, split),
                    CopyUpKeys(keys, c1, |keys|, k, mid))
    ensures Drafted(old(s.Now()), s1, s.Now(), s.unit, s.reuse, branch, left, right)
  {
    ghost var s0 := s.Now();
    left, right := BranchAllocTwo(s, branch, flags, ptrs, keys);
    s1 := s.Now();
    up := BranchFillHalves(s, branch, left, right, mid, orig, split, idx, flags, ptrs, keys, k, c, c1);
    DraftFilled(s0, s1, s.Now(), s.unit, s.reuse, branch, left, right);
  }
}
