/** The page store (src/db/store/store.c, store.h): a growable file of bytes, an allocation mark
    `end` kept both in memory and in the file header, and a last-in first-out free list.

    `reuse` chooses between the two allocators of store.c: the active one, which hands freed pages
    out again, and the append-only one kept in its closing comment, whose free does nothing. */
module StoreModel {
  import opened Sequences
  import opened Words

  const HEADER_SIZE := 32
  const INIT_FILE_SIZE := 64
  const END_FIELD := 6

  /** "ADVDB!" */
  const MAGIC: seq<byte> := [65, 68, 86, 68, 66, 33]

  /** The `n` bytes from `p`, or nothing when they are not all inside the file. */
  function Slot(mem: seq<byte>, p: nat, n: nat): (b: seq<byte>)
    ensures p + n <= |mem| ==> |b| == n
  {
    if p + n <= |mem| then mem[p..p + n] else []
  }

  /** `end` can be reached from the header by stepping over whole pages of `unit` bytes. */
  ghost predicate Aligned(end: nat, unit: nat)
    requires unit > 0
  {
    end == HEADER_SIZE || (end >= HEADER_SIZE + unit && Aligned(end - unit, unit))
  }

  /** `p` is one of the pages between the header and `end`. */
  ghost predicate IsPage(p: nat, end: nat, unit: nat)
    requires unit > 0
  {
    end >= HEADER_SIZE + unit && (p == end - unit || IsPage(p, end - unit, unit))
  }

  /** Pages of one store never share a byte. */
  lemma {:induction false} PagesDisjoint(p: nat, q: nat, end: nat, unit: nat)
    requires unit > 0 && IsPage(p, end, unit)
    ensures HEADER_SIZE <= p && p + unit <= end
    ensures IsPage(q, end, unit) && p != q ==> p + unit <= q || q + unit <= p
    decreases end
  {
    if p != end - unit {
      PagesDisjoint(p, q, end - unit, unit);
    } else if q != end - unit && IsPage(q, end - unit, unit) {
      PagesDisjoint(q, p, end - unit, unit);
    }
  }

  /** The bytes of the file header around the stored `end`. */
  function Preamble(mem: seq<byte>): seq<byte> {
    Slot(mem, 0, END_FIELD) + Slot(mem, END_FIELD + 8, HEADER_SIZE - END_FIELD - 8)
  }

  /** Every page below `end` that is not in `written` holds the same bytes in `m1` as in `m0`, and the
      file header does too, apart from the stored `end`. */
  ghost predicate Untouched(m0: seq<byte>, m1: seq<byte>, unit: nat, end: nat, written: set<nat>)
    requires unit > 0
  {
    && Preamble(m1) == Preamble(m0)
    && forall q: nat :: IsPage(q, end, unit) && q !in written ==> Slot(m1, q, unit) == Slot(m0, q, unit)
  }

  /** `after` extends `before` and differs from it, at most, in the stored `end`. */
  ghost predicate SameButEnd(before: seq<byte>, after: seq<byte>) {
    && INIT_FILE_SIZE <= |before| <= |after|
    && forall i :: 0 <= i < |before| && !(END_FIELD <= i < END_FIELD + 8) ==> after[i] == before[i]
  }

  /** Every page below `end` is exactly one of free, owned and retired, and free at most once. */
  ghost predicate Accounted(free: seq<nat>, owned: set<nat>, retired: set<nat>, end: nat, unit: nat)
    requires unit > 0
  {
    && HEADER_SIZE <= end && Aligned(end, unit)
    && NoRepeats(free)
    && owned !! retired
    && (forall p: nat :: p in free ==> p !in owned && p !in retired)
    && (forall p: nat :: IsPage(p, end, unit) <==> p in free || p in owned || p in retired)
  }

  lemma PageGiven(free: seq<nat>, owned: set<nat>, retired: set<nat>, end: nat, unit: nat, p: nat)
    requires unit > 0 && Accounted(free, owned, retired, end, unit) && p in owned
    ensures Accounted([p] + free, owned - {p}, retired, end, unit)
    ensures Accounted(free, owned - {p}, retired + {p}, end, unit)
  {
    assert forall q: nat :: q in [p] + free <==> q == p || q in free;
  }

  /** Handing out a page keeps the account: the page was nobody's before. */
  lemma PageTaken(free: seq<nat>, owned: set<nat>, retired: set<nat>, end: nat, unit: nat)
    requires unit > 0 && Accounted(free, owned, retired, end, unit)
    ensures free == [] ==>
              && end !in owned && PagesGrow(end, end + unit, unit)
              && Accounted(free, owned + {end}, retired, end + unit, unit)
    ensures free != [] ==>
              && free[0] !in owned && free[0] >= HEADER_SIZE
              && Accounted(free[1..], owned + {free[0]}, retired, end, unit)
  {
    if free == [] {
      assert !IsPage(end, end, unit) by {
        if IsPage(end, end, unit) {
          PagesDisjoint(end, end, end, unit);
          assert false;
        }
      }
      assert forall p: nat :: IsPage(p, end + unit, unit) <==> p == end || IsPage(p, end, unit);
    } else {
      assert free[0] in free;
      PagesDisjoint(free[0], free[0], end, unit);
      assert forall q: nat :: q in free <==> q == free[0] || q in free[1..];
    }
  }

  lemma SlotBeyondEnd(before: seq<byte>, after: seq<byte>, q: nat, n: nat)
    requires SameButEnd(before, after) && HEADER_SIZE <= q && q + n <= |before|
    ensures Slot(after, q, n) == Slot(before, q, n)
  {
    assert after[q..q + n] == before[q..q + n];
  }

  lemma PreambleKept(before: seq<byte>, after: seq<byte>)
    requires SameButEnd(before, after)
    ensures Preamble(after) == Preamble(before)
  {
    assert after[0..END_FIELD] == before[0..END_FIELD];
    assert after[END_FIELD + 8..HEADER_SIZE] == before[END_FIELD + 8..HEADER_SIZE];
  }

  lemma PagesKept(before: seq<byte>, after: seq<byte>, end: nat, unit: nat)
    requires SameButEnd(before, after) && unit > 0 && end <= |before|
    ensures Untouched(before, after, unit, end, {})
  {
    PreambleKept(before, after);
    forall q: nat | IsPage(q, end, unit)
      ensures Slot(after, q, unit) == Slot(before, q, unit)
    {
      PagesDisjoint(q, q, end, unit);
      SlotBeyondEnd(before, after, q, unit);
    }
  }

  /** Every page of `e1` is a page of `e2`. */
  ghost predicate PagesGrow(e1: nat, e2: nat, unit: nat)
    requires unit > 0
  {
    forall q: nat :: IsPage(q, e1, unit) ==> IsPage(q, e2, unit)
  }

  /** The free list never grows past this during one edit. */
  function Max1(n: nat): nat {
    if n == 0 then 1 else n
  }

  /** Between `a` and `b` one page `p`, owned by nobody, was handed out; every page kept its bytes. */
  ghost predicate Taken(a: Snap, b: Snap, unit: nat, reuse: bool, p: nat)
    requires unit > 0
  {
    && p !in a.owned
    && b.owned == a.owned + {p} && b.handed == a.handed + {p}
    && a.end <= b.end <= a.end + unit
    && PagesGrow(a.end, b.end, unit)
    && (!reuse ==> p >= a.end)
    && Untouched(a.mem, b.mem, unit, a.end, {})
  }

  /** What the proofs compare between two moments of a store. */
  datatype Snap = Snap(mem: seq<byte>, end: nat, free: seq<nat>, owned: set<nat>,
                       retired: set<nat>, handed: set<nat>)

  /** Page conservation: when every allocation has `unit` bytes, each page below `end` is owned
      exactly once or free exactly once (or retired, under the append-only allocator). */
  ghost predicate Balanced(n: Snap, unit: nat, reuse: bool)
    requires unit > 0
  {
    && Accounted(n.free, n.owned, n.retired, n.end, unit)
    && (reuse ==> n.retired == {})
  }

  class Store {
    ghost const unit: nat
    const reuse: bool

    var mem: seq<byte>
    var end: nat
    var freeList: seq<nat>

    // Bookkeeping for the proofs: pages handed out and not freed, pages the append-only allocator
    // will never hand out again, and pages handed out since `handed` was last emptied.
    ghost var owned: set<nat>
    ghost var retired: set<nat>
    ghost var handed: set<nat>

    /** What every run keeps, whatever sizes are asked for. */
    ghost predicate Valid()
      reads this
    {
      && HEADER_SIZE <= end <= |mem| && end < TWO64
      && INIT_FILE_SIZE <= |mem|
      && Decode(mem, END_FIELD) == end
      && (!reuse ==> freeList == [])
    }

    /** Ready for page writes: these need no account of who owns what. */
    ghost predicate Ready()
      reads this
    {
      Valid() && unit > 0
    }

    ghost predicate Paged()
      reads this
    {
      Ready() && Balanced(Now(), unit, reuse)
    }

    ghost function Now(): Snap
      reads this
    {
      Snap(mem, end, freeList, owned, retired, handed)
    }

    constructor (reuse: bool, ghost unit: nat)
      requires unit > 0
      ensures Valid() && Paged()
      ensures this.reuse == reuse && this.unit == unit
      ensures end == 32 && |mem| == 64 && freeList == [] && owned == {}
      ensures mem[..14] == [65, 68, 86, 68, 66, 33, 0, 0, 0, 0, 0, 0, 0, 32]
    {
      this.reuse, this.unit := reuse, unit;
      var zeros := seq(INIT_FILE_SIZE, _ => 0);
      mem := Splice(Splice(zeros, 0, MAGIC), END_FIELD, Encode(HEADER_SIZE));
      end, freeList := HEADER_SIZE, [];
      owned, retired, handed := {}, {}, {};
      new;
      DecodeAt(mem, END_FIELD, HEADER_SIZE);
      EncodeShifts(HEADER_SIZE);
    }

    method WriteUi64(p: nat, n: word)
      requires p + 8 <= |mem|
      modifies this`mem
      ensures mem == Splice(old(mem), p, Encode(n))
    {
      ghost var was := mem;
      mem := mem[p := n / 0x100_0000_0000_0000 % 256];
      mem := mem[p + 1 := n / 0x1_0000_0000_0000 % 256];
      mem := mem[p + 2 := n / 0x100_0000_0000 % 256];
      mem := mem[p + 3 := n / 0x1_0000_0000 % 256];
      mem := mem[p + 4 := n / 0x100_0000 % 256];
      mem := mem[p + 5 := n / 0x1_0000 % 256];
      mem := mem[p + 6 := n / 0x100 % 256];
      mem := mem[p + 7 := n % 256];
      EncodeShifts(n);
      assert mem == Splice(was, p, [n / 0x100_0000_0000_0000 % 256, n / 0x1_0000_0000_0000 % 256,
        n / 0x100_0000_0000 % 256, n / 0x1_0000_0000 % 256, n / 0x100_0000 % 256, n / 0x1_0000 % 256,
        n / 0x100 % 256, n % 256]);
    }

    function ReadUi64(p: nat): (n: word)
      requires p + 8 <= |mem|
      reads this`mem
      ensures n == Decode(mem, p)
    {
      DecodeShifts(mem[p..p + 8]);
      var p0: nat, p1: nat, p2: nat, p3: nat := mem[p], mem[p + 1], mem[p + 2], mem[p + 3];
      var p4: nat, p5: nat, p6: nat, p7: nat := mem[p + 4], mem[p + 5], mem[p + 6], mem[p + 7];
      p0 * 0x100_0000_0000_0000 + p1 * 0x1_0000_0000_0000 + p2 * 0x100_0000_0000 + p3 * 0x1_0000_0000 +
      p4 * 0x100_0000 + p5 * 0x1_0000 + p6 * 0x100 + p7
    }

    method Copy(dest: nat, src: nat, size: nat)
      requires dest + size <= |mem| && src + size <= |mem|
      modifies this`mem
      ensures mem == Splice(old(mem), dest, Slot(old(mem), src, size))
    {
      if size > 0 {
        mem := mem[..dest] + mem[src..src + size] + mem[dest + size..];
      }
    }

    method Resize(size: nat)
      modifies this`mem
      ensures |mem| == if size < |old(mem)| then |old(mem)| else size
      ensures mem[..|old(mem)|] == old(mem)
    {
      if size < |mem| {
      } else {
        mem := mem + seq(size - |mem|, _ => 0);
      }
    }

    method Extend()
      modifies this`mem
      ensures |mem| == 2 * |old(mem)| && mem[..|old(mem)|] == old(mem)
    {
      Resize(|mem| * 2);
    }

    /** Terminates for every size: doubling a non-empty file closes the gap to `end + size`. */
    method Alloc(size: nat) returns (p: nat)
      requires Valid()
      requires end + size < TWO64
      modifies this
      ensures Valid()
      ensures p == if old(freeList) == [] then old(end) else old(freeList)[0]
      ensures freeList == if old(freeList) == [] then [] else old(freeList)[1..]
      ensures end == if old(freeList) == [] then old(end) + size else old(end)
      ensures old(end) + size <= |mem|
      ensures if old(end) + size <= |old(mem)| then |mem| == |old(mem)|
              else |old(mem)| < |mem| < 2 * (old(end) + size)
      ensures SameButEnd(old(mem), mem)
      ensures owned == old(owned) + {p} && retired == old(retired)
      ensures handed == old(handed) + {p}
      decreases if end + size > |mem| then end + size - |mem| else 0
    {
      ghost var was := mem;
      var freeSpace := |mem| - end;
      if size > freeSpace {
        Extend();
        EndFieldKept(was, mem);
        p := Alloc(size);
        return;
      }
      if |freeList| == 0 {
        p := end;
        end := end + size;
        WriteUi64(END_FIELD, end);
        EndFieldWritten(was, end);
      } else {
        p := freeList[0];
        freeList := freeList[1..];
      }
      owned, handed := owned + {p}, handed + {p};
    }

    lemma OwnedPage(p: nat)
      requires Paged() && p in owned
      ensures IsPage(p, end, unit)
    {
    }

    /** A page lies between the header and `end`. */
    lemma PageInside(p: nat)
      requires Ready() && IsPage(p, end, unit)
      ensures HEADER_SIZE <= p && p + unit <= end && p + unit <= |mem|
    {
      PagesDisjoint(p, p, end, unit);
    }

    /** `Alloc` on a store where every page has the same size, as the B-tree calls it. */
    method AllocPage(size: nat) returns (p: nat)
      requires Paged() && size == unit
      requires end + size < TWO64
      modifies this
      ensures Paged() && p >= HEADER_SIZE
      ensures |freeList| + 1 <= Max1(|old(freeList)|)
      ensures Taken(old(Now()), Now(), unit, reuse, p)
    {
      PageTaken(freeList, owned, retired, end, unit);
      p := Alloc(size);
      PagesKept(old(mem), mem, old(end), unit);
    }

    method Free(p: nat)
      requires Valid()
      modifies this
      ensures Valid()
      ensures mem == old(mem) && end == old(end) && handed == old(handed)
      ensures freeList == if reuse then [p] + old(freeList) else []
      ensures |freeList| <= |old(freeList)| + 1
      ensures owned == old(owned) - {p}
      ensures old(Paged() && p in owned) ==> Paged()
    {
      if unit > 0 && p in owned && Accounted(freeList, owned, retired, end, unit) {
        PageGiven(freeList, owned, retired, end, unit, p);
      }
      if reuse {
        freeList := [p] + freeList;
      } else {
        retired := retired + {p};
      }
      owned := owned - {p};
    }
  }

  /** The eight shifts of `store_write_ui64` are the big-endian encoding. */
  lemma EncodeShifts(n: word)
    ensures Encode(n) == [n / 0x100_0000_0000_0000 % 256, n / 0x1_0000_0000_0000 % 256,
                          n / 0x100_0000_0000 % 256, n / 0x1_0000_0000 % 256, n / 0x100_0000 % 256,
                          n / 0x1_0000 % 256, n / 0x100 % 256, n % 256]
  {
    var n1 := n / 256; var n2 := n1 / 256; var n3 := n2 / 256; var n4 := n3 / 256;
    var n5 := n4 / 256; var n6 := n5 / 256; var n7 := n6 / 256;
    assert EncodeBytes(n7, 1) == EncodeBytes(n7 / 256, 0) + [n7 % 256] == [n7 % 256];
    assert EncodeBytes(n6, 2) == EncodeBytes(n7, 1) + [n6 % 256];
    assert EncodeBytes(n5, 3) == EncodeBytes(n6, 2) + [n5 % 256];
    assert EncodeBytes(n4, 4) == EncodeBytes(n5, 3) + [n4 % 256];
    assert EncodeBytes(n3, 5) == EncodeBytes(n4, 4) + [n3 % 256];
    assert EncodeBytes(n2, 6) == EncodeBytes(n3, 5) + [n2 % 256];
    assert EncodeBytes(n1, 7) == EncodeBytes(n2, 6) + [n1 % 256];
    assert EncodeBytes(n, 8) == EncodeBytes(n1, 7) + [n % 256];
    assert n2 == n / 0x1_0000 && n3 == n / 0x100_0000 && n4 == n / 0x1_0000_0000;
    assert n5 == n / 0x100_0000_0000 && n6 == n / 0x1_0000_0000_0000 && n7 == n / 0x100_0000_0000_0000;
    assert n7 < 256;
  }

  /** The eight shifts of `store_read_ui64` add up to the big-endian reading. */
  lemma DecodeShifts(b: seq<byte>)
    requires |b| == 8
    ensures DecodeBytes(b) ==
            b[0] as int * 0x100_0000_0000_0000 + b[1] as int * 0x1_0000_0000_0000 +
            b[2] as int * 0x100_0000_0000 + b[3] as int * 0x1_0000_0000 + b[4] as int * 0x100_0000 +
            b[5] as int * 0x1_0000 + b[6] as int * 0x100 + b[7]
  {
    assert b[..1] == [b[0]] && b[..1][..0] == [];
    assert b[..2][..1] == b[..1] && b[..3][..2] == b[..2] && b[..4][..3] == b[..3];
    assert b[..5][..4] == b[..4] && b[..6][..5] == b[..5] && b[..7][..6] == b[..6];
    assert DecodeBytes(b[..1]) == b[0];
    assert DecodeBytes(b[..2]) == 256 * DecodeBytes(b[..1]) + b[1];
    assert DecodeBytes(b[..3]) == 256 * DecodeBytes(b[..2]) + b[2];
    assert DecodeBytes(b[..4]) == 256 * DecodeBytes(b[..3]) + b[3];
    assert DecodeBytes(b[..5]) == 256 * DecodeBytes(b[..4]) + b[4];
    assert DecodeBytes(b[..6]) == 256 * DecodeBytes(b[..5]) + b[5];
    assert DecodeBytes(b[..7]) == 256 * DecodeBytes(b[..6]) + b[6];
  }

  lemma PrefixSlice<T>(s: seq<T>, t: seq<T>, i: nat, j: nat)
    requires s <= t && i <= j <= |s|
    ensures t[i..j] == s[i..j]
  {
  }

  lemma EndFieldKept(was: seq<byte>, now: seq<byte>)
    requires INIT_FILE_SIZE <= |was| && was <= now
    ensures Decode(now, END_FIELD) == Decode(was, END_FIELD)
    ensures SameButEnd(was, now)
  {
    PrefixSlice(was, now, END_FIELD, END_FIELD + 8);
  }

  lemma EndFieldWritten(was: seq<byte>, end: word)
    requires INIT_FILE_SIZE <= |was|
    ensures Decode(Splice(was, END_FIELD, Encode(end)), END_FIELD) == end
    ensures SameButEnd(was, Splice(was, END_FIELD, Encode(end)))
  {
    DecodeAt(Splice(was, END_FIELD, Encode(end)), END_FIELD, end);
  }
}
