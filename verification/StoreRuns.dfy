/** Any run of `store_alloc` and `store_free` calls, whatever sizes are asked for. */
module StoreRuns {
  import opened Words
  import opened StoreModel

  /** `Give(i)` frees the page returned by the `i`-th allocation of the run. */
  datatype Call = Take(size: nat) | Give(i: nat)

  /** No allocation asks for more than `max` bytes, and only returned pages are freed. */
  predicate Sound(calls: seq<Call>, max: nat, taken: nat)
    decreases |calls|
  {
    calls == [] ||
    match calls[0]
    case Take(size) => size <= max && Sound(calls[1..], max, taken + 1)
    case Give(i) => i < taken && Sound(calls[1..], max, taken)
  }

  function Asked(calls: seq<Call>): (n: nat)
    decreases |calls|
  {
    if calls == [] then 0 else (if calls[0].Take? then calls[0].size else 0) + Asked(calls[1..])
  }

  predicate AboveHeader(ps: seq<nat>) {
    forall p :: p in ps ==> p >= HEADER_SIZE
  }

  /** What holds between any two calls: the file covers `end` and is less than twice as large as it
      need be, the stored `end` is the one in memory, and no page on the free list or in use overlaps
      the header. */
  ghost predicate Roomy(s: Store, max: nat, pages: seq<nat>)
    reads s
  {
    && s.Valid()
    && s.end <= |s.mem| < 2 * (s.end + max)
    && Decode(s.mem, END_FIELD) == s.end
    && AboveHeader(pages) && AboveHeader(s.freeList)
  }

  method TakeOne(s: Store, size: nat, max: nat, pages: seq<nat>) returns (p: nat)
    requires Roomy(s, max, pages) && size <= max && s.end + size < TWO64
    modifies s
    ensures Roomy(s, max, pages + [p]) && s.end <= old(s.end) + size
  {
    ghost var free := s.freeList;
    p := s.Alloc(size);
    assert forall q :: q in s.freeList ==> q in free;
    assert free != [] ==> p in free;
    assert forall q :: q in pages + [p] ==> q in pages || q == p;
  }

  method GiveOne(s: Store, i: nat, max: nat, pages: seq<nat>)
    requires Roomy(s, max, pages) && i < |pages|
    modifies s
    ensures Roomy(s, max, pages) && s.end == old(s.end)
  {
    ghost var free := s.freeList;
    assert pages[i] in pages;
    s.Free(pages[i]);
    assert forall q :: q in [pages[i]] + free ==> q == pages[i] || q in free;
  }

  /** Starting from a fresh store, the bound holds after every call of the run. */
  method RunCalls(s: Store, calls: seq<Call>, max: nat, pages: seq<nat>) returns (pages': seq<nat>)
    requires Roomy(s, max, pages) && Sound(calls, max, |pages|) && s.end + Asked(calls) < TWO64
    modifies s
    ensures Roomy(s, max, pages') && pages <= pages'
    decreases |calls|
  {
    pages' := pages;
    if |calls| > 0 {
      match calls[0]
      case Take(size) =>
        var p := TakeOne(s, size, max, pages);
        pages' := RunCalls(s, calls[1..], max, pages + [p]);
      case Give(i) =>
        GiveOne(s, i, max, pages);
        pages' := RunCalls(s, calls[1..], max, pages);
    }
  }

  method FreshRun(reuse: bool, calls: seq<Call>, max: nat) returns (s: Store, pages: seq<nat>)
    requires max > 0 && Sound(calls, max, 0) && HEADER_SIZE + Asked(calls) < TWO64
    ensures Roomy(s, max, pages)
  {
    s := new Store(reuse, 1);
    pages := RunCalls(s, calls, max, []);
  }
}
