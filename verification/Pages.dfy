/** Page layout (src/db/store/btree.h:36-60, btree.c:10-80): a packed 8-byte header followed by
    `used - 8` bytes of words. A leaf alternates keys and values, a branch alternates child
    addresses and separator keys, starting and ending with an address. */
module PageModel {
  import opened Words

  const DEF_PAGE_SIZE := 64
  const HDR := 8
  const WORD := 8
  const ITEM := 16
  const ROOT := 1
  const LEAF := 2
  const MAX16 := 0x1_0000

  function PackHeader(flags: nat, size: nat, nKeys: nat, used: nat): (hdr: word)
    requires flags < 256 && size < MAX16 && nKeys < MAX16 && used < MAX16
  {
    flags * 0x100_0000_0000_0000 + 16 * 0x1_0000_0000_0000 + size * 0x1_0000_0000 +
    nKeys * 0x1_0000 + used
  }

  function PgFlags(hdr: word): nat { hdr / 0x100_0000_0000_0000 % MAX16 }
  function PgSize(hdr: word): nat { hdr / 0x1_0000_0000 % MAX16 }
  function PgNKeys(hdr: word): nat { hdr / 0x1_0000 % MAX16 }
  function PgUsed(hdr: word): nat { hdr % MAX16 }
  function PgEnd(hdr: word): nat { PgUsed(hdr) }
  function PgFree(hdr: word): int { PgSize(hdr) - PgUsed(hdr) }
  predicate IsRoot(flags: nat) { flags % 2 == 1 }
  predicate IsLeaf(flags: nat) { flags / LEAF % 2 == 1 }

  /** `flags & ~BTREE_ROOT` */
  function ClearRoot(flags: nat): nat { flags - flags % 2 }

  /** `key & ~(1ull << 63)` */
  function KeyGet(key: word): (r: word)
    ensures r < 0x8000_0000_0000_0000 && (r == key || r + 0x8000_0000_0000_0000 == key)
  {
    key % TWO63
  }

  lemma HeaderFields(flags: nat, size: nat, nKeys: nat, used: nat)
    requires flags < 256 && size < MAX16 && nKeys < MAX16 && used < MAX16
    ensures var hdr := PackHeader(flags, size, nKeys, used);
            PgFlags(hdr) == flags && PgSize(hdr) == size && PgNKeys(hdr) == nKeys && PgUsed(hdr) == used
  {
    var hdr := PackHeader(flags, size, nKeys, used);
    var h1 := flags * 0x100_0000_0000 + 16 * 0x1_0000_0000 + size * 0x1_0000 + nKeys;
    var h2 := flags * 0x100_0000 + 16 * 0x1_0000 + size;
    assert hdr == h1 * MAX16 + used;
    assert h1 == h2 * MAX16 + nKeys;
    assert hdr / 0x1_0000 == h1 && hdr / 0x1_0000_0000 == h2;
    assert hdr / 0x100_0000_0000_0000 == flags;
  }

  function Two(w: nat): (bs: seq<byte>)
    requires w < MAX16
  {
    [w / 256, w % 256]
  }

  lemma {:induction false} LastTwo(h: nat, w: nat, n: nat, k: nat, k2: nat)
    requires w < MAX16 && n == h * MAX16 + w && k2 == k + 2
    ensures EncodeBytes(n, k2) == EncodeBytes(h, k) + Two(w)
  {
    var m := h * 256 + w / 256;
    assert n == m * 256 + w % 256;
    assert n / 256 == m && n % 256 == w % 256;
    assert m / 256 == h && m % 256 == w / 256;
    assert EncodeBytes(n, k2) == EncodeBytes(m, k + 1) + [w % 256];
  }

  lemma {:induction false} ThreeFields(h: nat, h2: nat, h1: nat, n: nat, size: nat, nKeys: nat, used: nat,
                                       k: nat, k2: nat, k4: nat, k6: nat)
    requires size < MAX16 && nKeys < MAX16 && used < MAX16 && k2 == k + 2 && k4 == k2 + 2 && k6 == k4 + 2
    requires h2 == h * MAX16 + size && h1 == h2 * MAX16 + nKeys && n == h1 * MAX16 + used
    ensures EncodeBytes(n, k6) == EncodeBytes(h, k) + Two(size) + Two(nKeys) + Two(used)
  {
    LastTwo(h1, used, n, k4, k6);
    LastTwo(h2, nKeys, h1, k2, k4);
    LastTwo(h, size, h2, k, k2);
  }

  lemma {:induction false} FlagBytes(flags: nat, h: nat, k: nat)
    requires flags < 256 && h == flags * 256 + 16 && k == 2
    ensures EncodeBytes(h, k) == [flags, 16]
  {
    LastTwo(0, h, h, 0, k);
    assert h / 256 == flags && h % 256 == 16;
  }

  lemma {:induction false} PackedBytes(flags: nat, size: nat, nKeys: nat, used: nat, k2: nat, k4: nat, k6: nat, k8: nat)
    requires flags < 256 && size < MAX16 && nKeys < MAX16 && used < MAX16 && k2 == 2 && k4 == 4 && k6 == 6 && k8 == 8
    ensures EncodeBytes(PackHeader(flags, size, nKeys, used), k8) == [flags, 16] + Two(size) + Two(nKeys) + Two(used)
  {
    var h := flags * 256 + 16;
    var h2 := h * MAX16 + size;
    var h1 := h2 * MAX16 + nKeys;
    ThreeFields(h, h2, h1, h1 * MAX16 + used, size, nKeys, used, k2, k4, k6, k8);
    FlagBytes(flags, h, k2);
  }

  /** The eight bytes of a header: flags, item size, and three big-endian 16-bit fields. */
  lemma {:induction false} HeaderBytes(flags: nat, size: nat, nKeys: nat, used: nat)
    requires flags < 256 && size < MAX16 && nKeys < MAX16 && used < MAX16
    ensures Encode(PackHeader(flags, size, nKeys, used))
            == [flags, 16, size / 256, size % 256, nKeys / 256, nKeys % 256, used / 256, used % 256]
  {
    PackedBytes(flags, size, nKeys, used, 2, 4, 6, 8);
  }

  /** The words `a[0], b[0], a[1], b[1], ...`. */
  function Weave(a: seq<word>, b: seq<word>): (ws: seq<word>)
    requires |b| <= |a| <= |b| + 1
    ensures |ws| == |a| + |b|
    decreases |a| + |b|
  {
    if a == [] then [] else [a[0]] + Weave(b, a[1..])
  }

  lemma {:induction false} WeaveAt(a: seq<word>, b: seq<word>, j: nat)
    requires |b| <= |a| <= |b| + 1 && j < |a| + |b|
    ensures Weave(a, b)[j] == if j % 2 == 0 then a[j / 2] else b[j / 2]
    decreases |a| + |b|
  {
    if j > 0 {
      WeaveAt(b, a[1..], j - 1);
    }
  }

  lemma {:induction false} WeaveAppend(a1: seq<word>, b1: seq<word>, a2: seq<word>, b2: seq<word>)
    requires |a1| == |b1| && |b2| <= |a2| <= |b2| + 1
    ensures Weave(a1 + a2, b1 + b2) == Weave(a1, b1) + Weave(a2, b2)
    decreases |a1|
  {
    if a1 == [] {
      assert a1 + a2 == a2 && b1 + b2 == b2;
    } else {
      assert (a1 + a2)[1..] == a1[1..] + a2 && (b1 + b2)[1..] == b1[1..] + b2;
      WeaveAppend(a1[1..], b1[1..], a2, b2);
    }
  }

  /** The stretch of a page between two of its pairs. */
  lemma {:induction false} WeaveSlice(a: seq<word>, b: seq<word>, i: nat, j: nat)
    requires |b| <= |a| <= |b| + 1 && i <= j <= |b|
    ensures Weave(a, b)[2 * i..2 * j] == Weave(a[i..j], b[i..j])
  {
    assert a == a[..i] + (a[i..j] + a[j..]) && b == b[..i] + (b[i..j] + b[j..]);
    WeaveAppend(a[..i], b[..i], a[i..j] + a[j..], b[i..j] + b[j..]);
    WeaveAppend(a[i..j], b[i..j], a[j..], b[j..]);
  }

  lemma {:induction false} WeaveFrom(a: seq<word>, b: seq<word>, i: nat)
    requires |a| == |b| + 1 && i <= |b|
    ensures Weave(a, b)[2 * i..] == Weave(a[i..], b[i..])
  {
    assert a == a[..i] + a[i..] && b == b[..i] + b[i..];
    WeaveAppend(a[..i], b[..i], a[i..], b[i..]);
  }

  lemma {:induction false} WeaveUpTo(a: seq<word>, b: seq<word>, j: nat)
    requires |a| == |b| + 1 && j <= |b|
    ensures Weave(a, b)[..2 * j + 1] == Weave(a[..j + 1], b[..j])
  {
    var pre := Weave(a[..j], b[..j]);
    assert a == a[..j] + a[j..] && b == b[..j] + b[j..];
    WeaveAppend(a[..j], b[..j], a[j..], b[j..]);
    assert Weave(a[j..], b[j..]) == [a[j]] + Weave(b[j..], a[j..][1..]);
    assert Weave(a, b)[..2 * j + 1] == pre + [a[j]];
    assert a[..j + 1] == a[..j] + [a[j]] && b[..j] == b[..j] + [];
    WeaveAppend(a[..j], b[..j], [a[j]], []);
    assert [a[j]][1..] == [];
    assert Weave([a[j]], []) == [a[j]] + Weave([], []);
  }

  /** The stretch of a branch page from one address to another. */
  lemma {:induction false} WeaveOddSlice(a: seq<word>, b: seq<word>, i: nat, j: nat)
    requires |a| == |b| + 1 && i <= j <= |b|
    ensures Weave(a, b)[2 * i..2 * j + 1] == Weave(a[i..j + 1], b[i..j])
  {
    WeaveUpTo(a, b, j);
    WeaveFrom(a[..j + 1], b[..j], i);
    assert a[..j + 1][i..] == a[i..j + 1] && b[..j][i..] == b[i..j];
    var ws := Weave(a, b);
    assert ws[2 * i..2 * j + 1] == ws[..2 * j + 1][2 * i..];
  }

  /** The stretch of a branch page from a key to an address. */
  lemma {:induction false} WeaveKeySlice(a: seq<word>, b: seq<word>, i: nat, j: nat)
    requires |a| == |b| + 1 && i <= j <= |b|
    ensures Weave(a, b)[2 * i + 1..2 * j + 1] == Weave(b[i..j], a[i + 1..j + 1])
  {
    WeaveOddSlice(a, b, i, j);
    assert a[i..j + 1][1..] == a[i + 1..j + 1] && a[i..j + 1][0] == a[i];
    assert Weave(a[i..j + 1], b[i..j]) == [a[i]] + Weave(b[i..j], a[i + 1..j + 1]);
  }

  /** Two addresses with a key between them, inside a branch page. */
  lemma {:induction false} WeaveThree(p1: seq<word>, k1: seq<word>, x: word, m: word, y: word,
                                      p2: seq<word>, k2: seq<word>)
    requires |p1| == |k1| && |p2| == |k2|
    ensures Weave(p1 + [x, y] + p2, k1 + [m] + k2) == Weave(p1, k1) + [x, m, y] + Weave(k2, p2)
  {
    assert p1 + [x, y] + p2 == p1 + ([x, y] + p2) && k1 + [m] + k2 == k1 + ([m] + k2);
    WeaveAppend(p1, k1, [x, y] + p2, [m] + k2);
    assert ([x, y] + p2)[1..] == [y] + p2 && ([m] + k2)[1..] == k2 && ([y] + p2)[1..] == p2;
    assert Weave([x, y] + p2, [m] + k2) == [x] + Weave([m] + k2, [y] + p2);
    assert Weave([m] + k2, [y] + p2) == [m] + Weave([y] + p2, k2);
    assert Weave([y] + p2, k2) == [y] + Weave(k2, p2);
  }

  lemma {:induction false} WeaveOne(p1: seq<word>, k1: seq<word>, x: word, p2: seq<word>, k2: seq<word>)
    requires |p1| == |k1| && |p2| == |k2|
    ensures Weave(p1 + [x] + p2, k1 + k2) == Weave(p1, k1) + [x] + Weave(k2, p2)
  {
    assert p1 + [x] + p2 == p1 + ([x] + p2);
    WeaveAppend(p1, k1, [x] + p2, k2);
    assert ([x] + p2)[1..] == p2;
    assert Weave([x] + p2, k2) == [x] + Weave(k2, p2);
  }

  lemma {:induction false} WeavePair(a1: seq<word>, b1: seq<word>, x: word, y: word, a2: seq<word>, b2: seq<word>)
    requires |a1| == |b1| && |a2| == |b2|
    ensures Weave(a1 + [x] + a2, b1 + [y] + b2) == Weave(a1, b1) + [x, y] + Weave(a2, b2)
  {
    assert a1 + [x] + a2 == a1 + ([x] + a2) && b1 + [y] + b2 == b1 + ([y] + b2);
    WeaveAppend(a1, b1, [x] + a2, [y] + b2);
    WeaveAppend([x], [y], a2, b2);
    assert [x][1..] == [] && [y][1..] == [] && Weave([y], []) == [y] + Weave([], []);
    assert Weave([x], [y]) == [x] + Weave([y], []);
  }

  /** The page bytes `bs` are a well-formed page of these flags holding exactly the words `ws`. */
  ghost predicate Holds(bs: seq<byte>, flags: nat, ws: seq<word>) {
    && flags < 256
    && HDR + WORD * |ws| <= |bs| < MAX16
    && Decode(bs, 0) == PackHeader(flags, |bs|, |ws| / 2, HDR + WORD * |ws|)
    && bs[HDR..HDR + WORD * |ws|] == Bytes(ws)
  }

  lemma HeldWord(bs: seq<byte>, flags: nat, ws: seq<word>, j: nat)
    requires Holds(bs, flags, ws) && j < |ws|
    ensures Decode(bs, HDR + WORD * j) == ws[j]
  {
    BytesAt(ws, j);
    SliceOfSlice(bs, HDR, HDR + WORD * |ws|, WORD * j, WORD * j + 8);
  }

  lemma {:induction false} HeldSlice(bs: seq<byte>, flags: nat, ws: seq<word>, a: nat, b: nat)
    requires Holds(bs, flags, ws) && a <= b <= |ws|
    ensures bs[HDR + WORD * a..HDR + WORD * b] == Bytes(ws[a..b])
  {
    BytesSlice(ws, a, b);
    SliceOfSlice(bs, HDR, HDR + WORD * |ws|, WORD * a, WORD * b);
  }

  lemma {:induction false} HeldSliceAt(bs: seq<byte>, flags: nat, ws: seq<word>, a: nat, b: nat, p: nat, q: nat)
    requires Holds(bs, flags, ws) && a <= b <= |ws| && p == HDR + WORD * a && q == HDR + WORD * b
    ensures q <= |bs| && bs[p..q] == Bytes(ws[a..b])
  {
    HeldSlice(bs, flags, ws, a, b);
  }

  lemma HeldHeader(bs: seq<byte>, flags: nat, ws: seq<word>)
    requires Holds(bs, flags, ws)
    ensures var hdr := Decode(bs, 0);
            && PgFlags(hdr) == flags && PgSize(hdr) == |bs| && PgNKeys(hdr) == |ws| / 2
            && PgUsed(hdr) == PgEnd(hdr) == HDR + WORD * |ws|
            && PgFree(hdr) == |bs| - (HDR + WORD * |ws|)
  {
    HeaderFields(flags, |bs|, |ws| / 2, HDR + WORD * |ws|);
  }
}
