/** Filling one page of the store (the helpers at btree.c:49-80). While a page is being filled,
    `Filling` says what its header and body hold so far and that nothing else has changed since
    `m0`, the memory when its filling began. */
module PageOps {
  import opened Words
  import opened StoreModel
  import opened PageModel

  /** `mem` is `m0` except for the page being filled, which begins with `hdr` and `body`. */
  ghost predicate Filled(m0: seq<byte>, mem: seq<byte>, end: nat, unit: nat,
                         page: nat, hdr: seq<byte>, body: seq<byte>) {
    && (|hdr| == 0 || |hdr| == HDR) && HDR + |body| <= unit
    && page + unit <= |mem|
    && Slot(mem, page, unit)[..|hdr|] == hdr
    && Slot(mem, page, unit)[HDR..HDR + |body|] == body
    && Untouched(m0, mem, unit, end, {page})
  }

  ghost predicate Filling(s: Store, m0: seq<byte>, page: nat, hdr: seq<byte>, body: seq<byte>)
    reads s
  {
    && s.Ready() && IsPage(page, s.end, s.unit)
    && Filled(m0, s.mem, s.end, s.unit, page, hdr, body)
  }

  /** A write inside one page changes that page as if it were the whole file, and no other. */
  lemma {:induction false} WriteHitsPage(mem: seq<byte>, page: nat, unit: nat, i: nat, patch: seq<byte>)
    requires page + unit <= |mem| && i + |patch| <= unit
    ensures Slot(Splice(mem, page + i, patch), page, unit) == Splice(Slot(mem, page, unit), i, patch)
  {
    SpliceInside(mem, page, page + unit, i, patch);
  }

  lemma {:induction false} WriteMissesHeader(mem: seq<byte>, p: nat, patch: seq<byte>)
    requires HEADER_SIZE <= p && p + |patch| <= |mem|
    ensures Preamble(Splice(mem, p, patch)) == Preamble(mem)
  {
    SpliceApart(mem, p, patch, 0, END_FIELD);
    SpliceApart(mem, p, patch, END_FIELD + 8, HEADER_SIZE);
  }

  lemma {:induction false} WriteMissesOthers(mem: seq<byte>, end: nat, unit: nat, page: nat, i: nat, patch: seq<byte>)
    requires unit > 0 && IsPage(page, end, unit) && end <= |mem| && i + |patch| <= unit
    requires page + unit <= end
    ensures Untouched(mem, Splice(mem, page + i, patch), unit, end, {page})
  {
    WriteMissesHeader(mem, page + i, patch) by {
      PagesDisjoint(page, page, end, unit);
    }
    forall q: nat | IsPage(q, end, unit) && q != page
      ensures Slot(Splice(mem, page + i, patch), q, unit) == Slot(mem, q, unit)
    {
      PagesDisjoint(page, q, end, unit);
      PagesDisjoint(q, q, end, unit);
      SpliceApart(mem, page + i, patch, q, q + unit);
    }
  }

  /** Writing the bytes after what the body already holds extends it. */
  lemma {:induction false} BodyGrows(b: seq<byte>, hdr: seq<byte>, body: seq<byte>, patch: seq<byte>)
    requires |hdr| <= HDR && HDR + |body| + |patch| <= |b|
    requires b[..|hdr|] == hdr && b[HDR..HDR + |body|] == body
    ensures var b' := Splice(b, HDR + |body|, patch);
            b'[..|hdr|] == hdr && b'[HDR..HDR + |body + patch|] == body + patch
  {
    var p := HDR + |body|;
    SpliceApart(b, p, patch, 0, |hdr|);
    SpliceApart(b, p, patch, HDR, p);
    SpliceHit(b, p, patch);
    var b' := Splice(b, p, patch);
    assert b'[HDR..p + |patch|] == b'[HDR..p] + b'[p..p + |patch|];
  }

  lemma {:induction false} HeaderSet(b: seq<byte>, body: seq<byte>, hdr: seq<byte>)
    requires |hdr| == HDR && HDR + |body| <= |b| && b[HDR..HDR + |body|] == body
    ensures Splice(b, 0, hdr)[..|hdr|] == hdr
    ensures Splice(b, 0, hdr)[HDR..HDR + |body|] == body
  {
    SpliceApart(b, 0, hdr, HDR, HDR + |body|);
    SpliceHit(b, 0, hdr);
  }

  lemma {:induction false} UntouchedTrans(m0: seq<byte>, m1: seq<byte>, m2: seq<byte>, unit: nat,
                                          end: nat, written: set<nat>)
    requires unit > 0 && Untouched(m0, m1, unit, end, written) && Untouched(m1, m2, unit, end, written)
    ensures Untouched(m0, m2, unit, end, written)
  {
  }

  lemma {:induction false} FilledPatch(m0: seq<byte>, mem: seq<byte>, end: nat, unit: nat, page: nat,
                                       hdr: seq<byte>, body: seq<byte>, i: nat, patch: seq<byte>,
                                       hdr': seq<byte>, body': seq<byte>, at: nat)
    requires at == page + i
    requires unit > 0 && IsPage(page, end, unit) && end <= |mem| && i + |patch| <= unit
    requires Filled(m0, mem, end, unit, page, hdr, body)
    requires (|hdr'| == 0 || |hdr'| == HDR) && HDR + |body'| <= unit
    requires var b := Splice(Slot(mem, page, unit), i, patch);
             b[..|hdr'|] == hdr' && b[HDR..HDR + |body'|] == body'
    ensures Filled(m0, Splice(mem, at, patch), end, unit, page, hdr', body')
  {
    PagesDisjoint(page, page, end, unit);
    WriteHitsPage(mem, page, unit, i, patch);
    WriteMissesOthers(mem, end, unit, page, i, patch);
    UntouchedTrans(m0, mem, Splice(mem, page + i, patch), unit, end, {page});
  }

  lemma UntouchedBoth(m0: seq<byte>, m1: seq<byte>, m2: seq<byte>, unit: nat, end: nat, p: nat, q: nat)
    requires unit > 0 && Untouched(m0, m1, unit, end, {p}) && Untouched(m1, m2, unit, end, {q})
    ensures Untouched(m0, m2, unit, end, {p, q})
  {
  }

  lemma FillStart(s: Store, page: nat)
    requires s.Ready() && IsPage(page, s.end, s.unit) && HDR <= s.unit
    ensures Filling(s, s.mem, page, [], [])
  {
    s.PageInside(page);
  }

  /** `write_ui64` at the end of what the body of `page` holds. */
  method WriteUi64(s: Store, page: nat, i: nat, n: word, ghost m0: seq<byte>, ghost hdr: seq<byte>,
                   ghost body: seq<byte>)
    requires Filling(s, m0, page, hdr, body) && i == HDR + |body| && i + WORD <= s.unit
    modifies s`mem
    ensures Filling(s, m0, page, hdr, body + Encode(n))
  {
    s.PageInside(page);
    var d := page + i;
    BodyGrows(Slot(s.mem, page, s.unit), hdr, body, Encode(n));
    FilledPatch(m0, s.mem, s.end, s.unit, page, hdr, body, i, Encode(n), hdr, body + Encode(n), d);
    EndFieldApart(s.mem, d, Encode(n));
    s.WriteUi64(d, n);
  }

  lemma EndFieldApart(mem: seq<byte>, p: nat, patch: seq<byte>)
    requires HEADER_SIZE <= p && p + |patch| <= |mem| && |mem| >= INIT_FILE_SIZE
    ensures Decode(Splice(mem, p, patch), END_FIELD) == Decode(mem, END_FIELD)
  {
    SpliceApart(mem, p, patch, END_FIELD, END_FIELD + 8);
  }

  lemma {:induction false} CopiedBytes(m0: seq<byte>, mem: seq<byte>, end: nat, unit: nat,
                                       dest: nat, src: nat, i: nat, n: nat, at: nat)
    requires unit > 0 && Untouched(m0, mem, unit, end, {dest}) && IsPage(src, end, unit) && src != dest
    requires src + unit <= |mem| && i + n <= unit && at == src + i
    ensures |Slot(m0, src, unit)| == unit
    ensures Slot(mem, at, n) == Slot(Slot(m0, src, unit), i, n)
  {
    var end1, j := src + unit, i + n;
    assert Slot(mem, src, unit) == Slot(m0, src, unit) == mem[src..end1];
    SliceOfSlice(mem, src, end1, i, j);
  }

  /** `copy`: the bytes si..si + sz of page `src`, onto the end of what the body of `dest` holds. */
  method Copy(s: Store, dest: nat, di: nat, src: nat, si: nat, sz: nat,
              ghost m0: seq<byte>, ghost hdr: seq<byte>, ghost body: seq<byte>)
    requires Filling(s, m0, dest, hdr, body) && di == HDR + |body| && di + sz <= s.unit
    requires IsPage(src, s.end, s.unit) && src != dest && |Slot(m0, src, s.unit)| == s.unit && si + sz <= s.unit
    modifies s`mem
    ensures Filling(s, m0, dest, hdr, body + Slot(Slot(m0, src, s.unit), si, sz))
  {
    s.PageInside(dest);
    s.PageInside(src);
    var d, r := dest + di, src + si;
    ghost var m1, patch := s.mem, Slot(Slot(m0, src, s.unit), si, sz);
    CopiedBytes(m0, m1, s.end, s.unit, dest, src, si, sz, r);
    BodyGrows(Slot(m1, dest, s.unit), hdr, body, patch);
    FilledPatch(m0, m1, s.end, s.unit, dest, hdr, body, di, patch, hdr, body + patch, d);
    EndFieldApart(m1, d, patch);
    s.Copy(d, r, sz);
  }

  /** `btree_hdr_write`; the unused byte is 16. */
  method HdrWrite(s: Store, page: nat, flags: nat, size: nat, nKeys: nat, used: nat,
                  ghost m0: seq<byte>, ghost body: seq<byte>)
    requires Filling(s, m0, page, [], body)
    requires flags < 256 && size < MAX16 && nKeys < MAX16 && used < MAX16
    modifies s`mem
    ensures Filling(s, m0, page, Encode(PackHeader(flags, size, nKeys, used)), body)
  {
    var hdr := PackHeader(flags, size, nKeys, used);
    s.PageInside(page);
    HeaderSet(Slot(s.mem, page, s.unit), body, Encode(hdr));
    FilledPatch(m0, s.mem, s.end, s.unit, page, [], body, 0, Encode(hdr), Encode(hdr), body, page);
    EndFieldApart(s.mem, page, Encode(hdr));
    s.WriteUi64(page, hdr);
  }

  /** `read_ui64`: what a page holds is what the file holds at that place. */
  function ReadUi64(s: Store, page: nat, i: nat): (n: word)
    requires page + s.unit <= |s.mem| && i + WORD <= s.unit
    reads s
    ensures n == Decode(Slot(s.mem, page, s.unit), i)
  {
    SliceOfSlice(s.mem, page, page + s.unit, i, i + WORD);
    s.ReadUi64(page + i)
  }
}
