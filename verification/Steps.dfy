/** How a store changes while a tree is being edited: which pages the edit gave up, which it took,
    and that it wrote nowhere else. */
module StoreSteps {
  import opened Words
  import opened StoreModel

  /** From `a` to `b` the pages `gone` were freed and the pages `taken` handed out; only pages of `written`,
      all handed out on the way, changed. None of them was owned by anyone but the edit, and under the
      append-only allocator none of them existed before. */
  ghost predicate Step(a: Snap, b: Snap, unit: nat, reuse: bool,
                       gone: set<nat>, taken: set<nat>, written: set<nat>)
    requires unit > 0
  {
    && gone <= a.owned
    && b.owned == a.owned - gone + taken
    && a.end <= b.end
    && PagesGrow(a.end, b.end, unit)
    && b.handed == a.handed + written
    && (forall w :: w in written ==> w !in a.owned - gone)
    && (forall w :: w in taken ==> w !in a.owned - gone)
    && (!reuse ==> forall w :: w in written ==> w >= a.end)
    && Untouched(a.mem, b.mem, unit, a.end, written)
  }

  lemma StepStart(a: Snap, unit: nat, reuse: bool)
    requires unit > 0
    ensures Step(a, a, unit, reuse, {}, {}, {})
  {
  }

  lemma StepAlloc(a: Snap, b: Snap, c: Snap, unit: nat, reuse: bool,
                  gone: set<nat>, taken: set<nat>, written: set<nat>, p: nat)
    requires unit > 0 && Step(a, b, unit, reuse, gone, taken, written) && Taken(b, c, unit, reuse, p)
    ensures Step(a, c, unit, reuse, gone, taken + {p}, written + {p})
  {
  }

  lemma StepFill(a: Snap, b: Snap, c: Snap, unit: nat, reuse: bool,
                 gone: set<nat>, taken: set<nat>, written: set<nat>, p: nat)
    requires unit > 0 && Step(a, b, unit, reuse, gone, taken, written) && p in written
    requires c == b.(mem := c.mem) && Untouched(b.mem, c.mem, unit, b.end, {p})
    ensures Step(a, c, unit, reuse, gone, taken, written)
  {
  }

  lemma StepFree(a: Snap, b: Snap, c: Snap, unit: nat, reuse: bool,
                 gone: set<nat>, taken: set<nat>, written: set<nat>, q: nat)
    requires unit > 0 && Step(a, b, unit, reuse, gone, taken, written)
    requires q in a.owned - gone && c.owned == b.owned - {q}
    requires c.mem == b.mem && c.end == b.end && c.handed == b.handed
    ensures Step(a, c, unit, reuse, gone + {q}, taken, written)
  {
  }

  /** Two edits in a row: the second may give up what the first took. */
  lemma StepJoin(a: Snap, b: Snap, c: Snap, unit: nat, reuse: bool,
                 gone1: set<nat>, taken1: set<nat>, written1: set<nat>,
                 gone2: set<nat>, taken2: set<nat>, written2: set<nat>,
                 gone: set<nat>, taken: set<nat>)
    requires unit > 0 && Step(a, b, unit, reuse, gone1, taken1, written1)
    requires Step(b, c, unit, reuse, gone2, taken2, written2)
    requires gone1 <= gone <= a.owned && c.owned == a.owned - gone + taken
    requires a.owned - gone <= b.owned - gone2 && taken !! (a.owned - gone)
    ensures Step(a, c, unit, reuse, gone, taken, written1 + written2)
  {
  }

  /** One page copied elsewhere and freed. */
  lemma StepReplace(a: Snap, b: Snap, c: Snap, d: Snap, unit: nat, reuse: bool, page: nat, copy: nat)
    requires unit > 0 && page in a.owned && Taken(a, b, unit, reuse, copy)
    requires c == b.(mem := c.mem) && Untouched(b.mem, c.mem, unit, b.end, {copy})
    requires d.owned == c.owned - {page} && d.mem == c.mem && d.end == c.end && d.handed == c.handed
    ensures Step(a, d, unit, reuse, {page}, {copy}, {copy})
  {
    StepStart(a, unit, reuse);
    StepAlloc(a, a, b, unit, reuse, {}, {}, {}, copy);
    StepFill(a, b, c, unit, reuse, {}, {copy}, {copy}, copy);
    StepFree(a, c, d, unit, reuse, {}, {copy}, {copy}, page);
  }

  /** One page split over two others and freed. */
  lemma StepSplit(a: Snap, c: Snap, d: Snap, e: Snap, unit: nat, reuse: bool, page: nat, orig: nat, split: nat)
    requires unit > 0 && page in a.owned
    requires Step(a, c, unit, reuse, {}, {orig, split}, {orig, split})
    requires d == c.(mem := d.mem) && Untouched(c.mem, d.mem, unit, c.end, {orig, split})
    requires e.owned == d.owned - {page} && e.mem == d.mem && e.end == d.end && e.handed == d.handed
    ensures Step(a, e, unit, reuse, {page}, {orig, split}, {orig, split})
  {
    assert Step(a, d, unit, reuse, {}, {orig, split}, {orig, split});
    StepFree(a, d, e, unit, reuse, {}, {orig, split}, {orig, split}, page);
  }

  lemma KeptPage(m0: seq<byte>, m1: seq<byte>, unit: nat, end: nat, written: set<nat>, page: nat)
    requires unit > 0 && Untouched(m0, m1, unit, end, written) && IsPage(page, end, unit) && page !in written
    ensures Slot(m1, page, unit) == Slot(m0, page, unit)
  {
  }

  lemma TwoTaken(a: Snap, b: Snap, c: Snap, unit: nat, reuse: bool, page: nat, orig: nat, split: nat)
    requires unit > 0 && page in a.owned && IsPage(page, a.end, unit)
    requires Taken(a, b, unit, reuse, orig) && IsPage(orig, b.end, unit)
    requires Taken(b, c, unit, reuse, split)
    ensures page in c.owned && orig in c.owned && split in c.owned
    ensures IsPage(page, c.end, unit) && IsPage(orig, c.end, unit)
    ensures orig != page && split != page && orig != split
    ensures Slot(c.mem, page, unit) == Slot(a.mem, page, unit)
  {
    assert page in b.owned && orig in b.owned;
  }

  lemma StepTwoAllocs(a: Snap, b: Snap, c: Snap, unit: nat, reuse: bool, orig: nat, split: nat)
    requires unit > 0 && Taken(a, b, unit, reuse, orig) && Taken(b, c, unit, reuse, split)
    ensures Step(a, c, unit, reuse, {}, {orig, split}, {orig, split})
  {
    StepStart(a, unit, reuse);
    StepAlloc(a, a, b, unit, reuse, {}, {}, {}, orig);
    assert {} + {orig} == {orig} && {} + {orig} == {orig};
    StepAlloc(a, b, c, unit, reuse, {}, {orig}, {orig}, split);
    assert {orig} + {split} == {orig, split} && {orig} + {split} == {orig, split};
  }
}
