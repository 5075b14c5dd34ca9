/** Big-endian 64-bit words laid out in a byte sequence, as src/db/store/store.h reads and
    writes them. `Encode` and `Decode` are stated by recursion on the number of bytes; the
    methods of `Store` spell out the shifts. */
module Words {
  type byte = b: int | 0 <= b < 256

  const TWO63: nat := 0x8000_0000_0000_0000
  const TWO64: nat := 0x1_0000_0000_0000_0000

  type word = n: int | 0 <= n < TWO64

  /** The low `k` bytes of `n`, most significant first. */
  function EncodeBytes(n: nat, k: nat): (bs: seq<byte>)
    ensures |bs| == k
  {
    if k == 0 then [] else EncodeBytes(n / 256, k - 1) + [n % 256]
  }

  function DecodeBytes(bs: seq<byte>): nat {
    if bs == [] then 0 else 256 * DecodeBytes(bs[..|bs| - 1]) + bs[|bs| - 1]
  }

  function Power256(k: nat): (p: nat)
    ensures p > 0
  {
    if k == 0 then 1 else 256 * Power256(k - 1)
  }

  lemma {:induction false} DecodeBound(bs: seq<byte>)
    ensures DecodeBytes(bs) < Power256(|bs|)
  {
    if bs != [] {
      DecodeBound(bs[..|bs| - 1]);
    }
  }

  lemma {:induction false} DecodeOfEncode(n: nat, k: nat)
    requires n < Power256(k)
    ensures DecodeBytes(EncodeBytes(n, k)) == n
  {
    if k > 0 {
      var bs := EncodeBytes(n, k);
      assert bs[..k - 1] == EncodeBytes(n / 256, k - 1);
      DecodeOfEncode(n / 256, k - 1);
    }
  }

  lemma {:induction false} EncodeOfDecode(bs: seq<byte>)
    ensures EncodeBytes(DecodeBytes(bs), |bs|) == bs
  {
    if bs != [] {
      EncodeOfDecode(bs[..|bs| - 1]);
      var n, last := DecodeBytes(bs[..|bs| - 1]), bs[|bs| - 1];
      assert (256 * n + last) / 256 == n && (256 * n + last) % 256 == last;
    }
  }

  lemma Power256Word()
    ensures Power256(8) == TWO64
  {
    assert Power256(2) == 0x1_0000;
    assert Power256(4) == 0x1_0000_0000;
    assert Power256(6) == 0x1_0000_0000_0000;
  }

  function Encode(n: word): (bs: seq<byte>)
    ensures |bs| == 8
  {
    EncodeBytes(n, 8)
  }

  /** The word stored in the eight bytes from `p`. */
  function Decode(bs: seq<byte>, p: nat): (n: word)
    requires p + 8 <= |bs|
  {
    DecodeBound(bs[p..p + 8]);
    Power256Word();
    DecodeBytes(bs[p..p + 8])
  }

  lemma DecodeAt(bs: seq<byte>, p: nat, n: word)
    requires p + 8 <= |bs| && bs[p..p + 8] == Encode(n)
    ensures Decode(bs, p) == n
  {
    Power256Word();
    DecodeOfEncode(n, 8);
  }

  /** Words laid end to end. */
  function Bytes(ws: seq<word>): (bs: seq<byte>)
    ensures |bs| == 8 * |ws|
  {
    if ws == [] then [] else Bytes(ws[..|ws| - 1]) + Encode(ws[|ws| - 1])
  }

  lemma {:induction false} BytesAppend(a: seq<word>, b: seq<word>)
    ensures Bytes(a + b) == Bytes(a) + Bytes(b)
  {
    if b == [] {
      assert a + b == a;
    } else {
      var init, last := b[..|b| - 1], b[|b| - 1];
      assert (a + b)[..|a + b| - 1] == a + init;
      BytesAppend(a, init);
      assert Bytes(a + b) == (Bytes(a) + Bytes(init)) + Encode(last);
    }
  }

  lemma SliceOfSlice<T>(s: seq<T>, a: nat, b: nat, i: nat, j: nat)
    requires a <= b <= |s| && i <= j <= b - a
    ensures s[a..b][i..j] == s[a + i..a + j]
  {
    assert forall k :: 0 <= k < j - i ==> s[a..b][i..j][k] == s[a..b][i + k] == s[a + i..a + j][k];
  }

  lemma SliceMiddle<T>(l: seq<T>, m: seq<T>, r: seq<T>)
    ensures (l + m + r)[|l|..|l| + |m|] == m
  {
  }

  lemma {:induction false} BytesSlice(ws: seq<word>, i: nat, j: nat)
    requires i <= j <= |ws|
    ensures Bytes(ws)[8 * i..8 * j] == Bytes(ws[i..j])
  {
    assert ws == ws[..i] + ws[i..j] + ws[j..];
    BytesAppend(ws[..i] + ws[i..j], ws[j..]);
    BytesAppend(ws[..i], ws[i..j]);
    SliceMiddle(Bytes(ws[..i]), Bytes(ws[i..j]), Bytes(ws[j..]));
  }

  lemma BytesOne(w: word)
    ensures Bytes([w]) == Encode(w)
  {
    assert [w][..0] == [];
    assert Bytes([w]) == Bytes([]) + Encode(w);
  }

  lemma {:induction false} BytesAt(ws: seq<word>, i: nat)
    requires i < |ws|
    ensures Decode(Bytes(ws), 8 * i) == ws[i]
  {
    BytesSlice(ws, i, i + 1);
    assert ws[i..i + 1] == [ws[i]];
    BytesOne(ws[i]);
    DecodeAt(Bytes(ws), 8 * i, ws[i]);
  }

  /** `bs` with the bytes from `p` on overwritten by `new`. */
  function Splice(bs: seq<byte>, p: nat, patch: seq<byte>): (r: seq<byte>)
    requires p + |patch| <= |bs|
    ensures |r| == |bs|
  {
    bs[..p] + patch + bs[p + |patch|..]
  }

  lemma {:induction false} SpliceAt(bs: seq<byte>, p: nat, patch: seq<byte>, k: nat)
    requires p + |patch| <= |bs| && k < |bs|
    ensures Splice(bs, p, patch)[k] == if p <= k < p + |patch| then patch[k - p] else bs[k]
  {
  }

  lemma {:induction false} SpliceApart(bs: seq<byte>, p: nat, patch: seq<byte>, i: nat, j: nat)
    requires p + |patch| <= |bs| && i <= j <= |bs| && (j <= p || p + |patch| <= i)
    ensures Splice(bs, p, patch)[i..j] == bs[i..j]
  {
    forall k | i <= k < j
      ensures Splice(bs, p, patch)[k] == bs[k]
    {
      SpliceAt(bs, p, patch, k);
    }
  }

  lemma {:induction false} SpliceHit(bs: seq<byte>, p: nat, patch: seq<byte>)
    requires p + |patch| <= |bs|
    ensures Splice(bs, p, patch)[p..p + |patch|] == patch
  {
    SliceMiddle(bs[..p], patch, bs[p + |patch|..]);
  }

  lemma {:induction false} SpliceInside(bs: seq<byte>, a: nat, b: nat, i: nat, patch: seq<byte>)
    requires a <= b <= |bs| && a + i + |patch| <= b
    ensures Splice(bs, a + i, patch)[a..b] == Splice(bs[a..b], i, patch)
  {
    var l, r := Splice(bs, a + i, patch)[a..b], Splice(bs[a..b], i, patch);
    forall k | 0 <= k < b - a
      ensures l[k] == r[k]
    {
      SpliceAt(bs, a + i, patch, a + k);
      SpliceAt(bs[a..b], i, patch, k);
    }
  }
}
