/** The hash map of src/struct/hashmap.c on values: what each operation does to the stacks of values
    that its buckets hold, one stack per key. */
module HashModel {
  import opened Sequences
  import opened LinkedList

  /** The two functions a map is created with. */
  datatype Keys<!K> = Keys(hash: K -> nat, same: (K, K) -> bool)

  /** `compare(a, b) == 0` is an equivalence, and equal keys hash alike. */
  ghost predicate Agree<K(!new)>(ks: Keys<K>) {
    && (forall a :: ks.same(a, a))
    && (forall a, b :: ks.same(a, b) ==> ks.same(b, a) && ks.hash(a) == ks.hash(b))
    && (forall a, b, c :: ks.same(a, b) && ks.same(b, c) ==> ks.same(a, c))
  }

  datatype Entry<K, V> = Entry(key: K, val: V, hash: nat)

  type Bucket<K, V> = seq<Entry<K, V>>

  predicate Hits<K, V>(e: Entry<K, V>, ks: Keys<K>, key: K) {
    e.hash == ks.hash(key) && ks.same(e.key, key)
  }

  /** `hmap_get_entry`: the index of the first entry for the key, or the length. */
  function Find<K, V>(b: Bucket<K, V>, ks: Keys<K>, key: K): (i: nat)
    ensures i <= |b| && (i < |b| ==> Hits(b[i], ks, key))
    ensures forall j :: 0 <= j < i ==> !Hits(b[j], ks, key)
  {
    if b == [] || Hits(b[0], ks, key) then 0 else 1 + Find(b[1..], ks, key)
  }

  /** The values of a key, the one in force first. */
  function Stack<K, V>(b: Bucket<K, V>, ks: Keys<K>, key: K): seq<V> {
    if b == [] then [] else (if Hits(b[0], ks, key) then [b[0].val] else []) + Stack(b[1..], ks, key)
  }

  function Top<V>(s: seq<V>): Option<V> {
    if s == [] then None else Some(s[0])
  }

  function Rest<V>(s: seq<V>): seq<V> {
    if s == [] then [] else s[1..]
  }

  function SetVal<K, V>(b: Bucket<K, V>, i: nat, val: V): Bucket<K, V>
    requires i < |b|
  {
    b[i := b[i].(val := val)]
  }

  // ---- One bucket ----

  lemma {:induction false} StackAppend<K, V>(a: Bucket<K, V>, b: Bucket<K, V>, ks: Keys<K>, key: K)
    ensures Stack(a + b, ks, key) == Stack(a, ks, key) + Stack(b, ks, key)
  {
    if a == [] {
      assert a + b == b;
    } else {
      assert (a + b)[1..] == a[1..] + b;
      StackAppend(a[1..], b, ks, key);
    }
  }

  lemma {:induction false} StackOne<K, V>(e: Entry<K, V>, ks: Keys<K>, key: K)
    ensures Stack([e], ks, key) == if Hits(e, ks, key) then [e.val] else []
  {
    var b: Bucket<K, V> := [e];
    assert b[1..] == [];
  }

  lemma {:induction false} NoHits<K, V>(b: Bucket<K, V>, ks: Keys<K>, key: K)
    requires forall e :: e in b ==> !Hits(e, ks, key)
    ensures Stack(b, ks, key) == []
  {
    if b != [] {
      assert b[0] in b;
      NoHits(b[1..], ks, key);
    }
  }

  lemma {:induction false} StackSplit<K, V>(b: Bucket<K, V>, i: nat, ks: Keys<K>, key: K)
    requires i < |b|
    ensures Stack(b, ks, key)
            == Stack(b[..i], ks, key) + Stack([b[i]], ks, key) + Stack(b[i + 1..], ks, key)
  {
    assert b == b[..i] + [b[i]] + b[i + 1..];
    StackAppend(b[..i] + [b[i]], b[i + 1..], ks, key);
    StackAppend(b[..i], [b[i]], ks, key);
  }

  /** The entry found is the top of the key's stack. */
  lemma {:induction false} FindIsTop<K, V>(b: Bucket<K, V>, ks: Keys<K>, key: K)
    ensures var i := Find(b, ks, key);
            if i == |b| then Stack(b, ks, key) == []
            else Stack(b, ks, key) == [b[i].val] + Stack(b[i + 1..], ks, key) && Stack(b[..i], ks, key) == []
  {
    var i := Find(b, ks, key);
    NoHits(b[..i], ks, key);
    if i < |b| {
      StackSplit(b, i, ks, key);
      StackOne(b[i], ks, key);
    } else {
      assert b[..i] == b;
    }
  }

  /** Pushing an entry pushes its value on the stack of its key and on no other. */
  lemma {:induction false} StackPush<K, V>(b: Bucket<K, V>, e: Entry<K, V>, ks: Keys<K>, key: K)
    ensures Stack([e] + b, ks, key) == if Hits(e, ks, key) then [e.val] + Stack(b, ks, key) else Stack(b, ks, key)
  {
    StackAppend([e], b, ks, key);
    StackOne(e, ks, key);
  }

  /** Two keys hit the same entry only if they are the same key. */
  lemma HitsOne<K(!new), V>(e: Entry<K, V>, ks: Keys<K>, k1: K, k2: K)
    requires Agree(ks) && Hits(e, ks, k1)
    ensures Hits(e, ks, k2) <==> ks.same(k1, k2)
  {
    assert ks.same(k1, e.key);
    if ks.same(k1, k2) {
      assert ks.same(e.key, k2);
    }
  }

  lemma {:induction false} StackSet<K(!new), V>(b: Bucket<K, V>, ks: Keys<K>, key: K, val: V, other: K)
    requires Agree(ks) && Find(b, ks, key) < |b|
    ensures var b' := SetVal(b, Find(b, ks, key), val);
            Stack(b', ks, other)
            == if ks.same(key, other) then [val] + Rest(Stack(b, ks, other)) else Stack(b, ks, other)
    ensures ks.same(key, other) ==> Stack(b, ks, other) != []
  {
    var i := Find(b, ks, key);
    HitsOne(b[i], ks, key, other);
    SetSplit(b, i, ks, val, other);
    if ks.same(key, other) {
      SameStack(b[..i], ks, key, other);
      FindIsTop(b, ks, key);
    }
  }

  lemma {:induction false} SetSplit<K, V>(b: Bucket<K, V>, i: nat, ks: Keys<K>, val: V, key: K)
    requires i < |b|
    ensures Stack(b, ks, key)
            == Stack(b[..i], ks, key) + (if Hits(b[i], ks, key) then [b[i].val] else []) + Stack(b[i + 1..], ks, key)
    ensures Stack(SetVal(b, i, val), ks, key)
            == Stack(b[..i], ks, key) + (if Hits(b[i], ks, key) then [val] else []) + Stack(b[i + 1..], ks, key)
  {
    var b' := SetVal(b, i, val);
    StackSplit(b, i, ks, key);
    StackSplit(b', i, ks, key);
    StackOne(b[i], ks, key);
    StackOne(b'[i], ks, key);
    assert b'[..i] == b[..i] && b'[i + 1..] == b[i + 1..];
  }

  lemma {:induction false} StackRemove<K(!new), V>(b: Bucket<K, V>, ks: Keys<K>, key: K, other: K)
    requires Agree(ks) && Find(b, ks, key) < |b|
    ensures var b' := Without(b, Find(b, ks, key));
            Stack(b', ks, other) == if ks.same(key, other) then Rest(Stack(b, ks, other)) else Stack(b, ks, other)
    ensures ks.same(key, other) ==> Stack(b, ks, other) != []
  {
    var i := Find(b, ks, key);
    HitsOne(b[i], ks, key, other);
    StackSplit(b, i, ks, other);
    StackOne(b[i], ks, other);
    StackAppend(b[..i], b[i + 1..], ks, other);
    if ks.same(key, other) {
      SameStack(b[..i], ks, key, other);
      FindIsTop(b, ks, key);
    }
  }

  /** The same key has the same stack. */
  lemma {:induction false} SameStack<K(!new), V>(b: Bucket<K, V>, ks: Keys<K>, k1: K, k2: K)
    requires Agree(ks) && ks.same(k1, k2)
    ensures Stack(b, ks, k1) == Stack(b, ks, k2)
  {
    if b != [] {
      SameStack(b[1..], ks, k1, k2);
      if Hits(b[0], ks, k1) {
        HitsOne(b[0], ks, k1, k2);
      } else if Hits(b[0], ks, k2) {
        assert ks.same(k2, k1);
        HitsOne(b[0], ks, k2, k1);
      }
    }
  }

  // ---- All buckets ----

  type Table<K, V> = seq<Bucket<K, V>>

  function Slot<K, V>(t: Table<K, V>, ks: Keys<K>, key: K): (i: nat)
    requires t != []
    ensures i < |t|
  {
    ks.hash(key) % |t|
  }

  function Lookup<K, V>(t: Table<K, V>, ks: Keys<K>, key: K): seq<V>
    requires t != []
  {
    Stack(t[Slot(t, ks, key)], ks, key)
  }

  predicate AtHome<K, V>(e: Entry<K, V>, ks: Keys<K>, i: nat, size: nat)
    requires size > 0
  {
    e.hash == ks.hash(e.key) && e.hash % size == i
  }

  /** Every entry remembers its key's hash and is in the bucket of that hash. */
  ghost predicate Homed<K, V>(t: Table<K, V>, ks: Keys<K>) {
    t != [] && forall i, e :: 0 <= i < |t| && e in t[i] ==> AtHome(e, ks, i, |t|)
  }

  function Inserted<K, V>(t: Table<K, V>, ks: Keys<K>, key: K, val: V): (r: Table<K, V>)
    requires t != []
    ensures |r| == |t|
  {
    var i := Slot(t, ks, key);
    t[i := [Entry(key, val, ks.hash(key))] + t[i]]
  }

  function WithSet<K, V>(t: Table<K, V>, ks: Keys<K>, key: K, val: V): (r: Table<K, V>)
    requires t != []
    ensures |r| == |t|
  {
    var i := Slot(t, ks, key);
    var j := Find(t[i], ks, key);
    if j < |t[i]| then t[i := SetVal(t[i], j, val)] else Inserted(t, ks, key, val)
  }

  function Removed<K, V>(t: Table<K, V>, ks: Keys<K>, key: K): (r: Table<K, V>)
    requires t != []
    ensures |r| == |t|
  {
    var i := Slot(t, ks, key);
    var j := Find(t[i], ks, key);
    if j < |t[i]| then t[i := Without(t[i], j)] else t
  }

  function Empty<K, V>(size: nat): (t: Table<K, V>)
    ensures |t| == size && forall i :: 0 <= i < size ==> t[i] == []
  {
    seq(size, _ => [])
  }

  /** `hmap_rehash` of one bucket: its entries inserted front to back. */
  function Refilled<K, V>(out: Table<K, V>, ks: Keys<K>, b: Bucket<K, V>): (r: Table<K, V>)
    requires out != []
    ensures |r| == |out|
  {
    if b == [] then out else
      var last := b[|b| - 1];
      Inserted(Refilled(out, ks, b[..|b| - 1]), ks, last.key, last.val)
  }

  /** `hmap_rehash`: the buckets in order. */
  function Rehashed<K, V>(out: Table<K, V>, ks: Keys<K>, t: Table<K, V>): (r: Table<K, V>)
    requires out != []
    ensures |r| == |out|
  {
    if t == [] then out else Refilled(Rehashed(out, ks, t[..|t| - 1]), ks, t[|t| - 1])
  }

  function Resized<K, V>(t: Table<K, V>, ks: Keys<K>, size: nat): Table<K, V>
    requires size > 0
  {
    Rehashed(Empty(size), ks, t)
  }

  /** The stack of the inserted key grows by the value, no other changes. */
  lemma {:induction false} InsertedStacks<K(!new), V>(t: Table<K, V>, ks: Keys<K>, key: K, val: V, other: K)
    requires Agree(ks) && Homed(t, ks)
    ensures Homed(Inserted(t, ks, key, val), ks)
    ensures Lookup(Inserted(t, ks, key, val), ks, other)
            == if ks.same(key, other) then [val] + Lookup(t, ks, other) else Lookup(t, ks, other)
  {
    var e := Entry(key, val, ks.hash(key));
    var i := Slot(t, ks, key);
    StackPush(t[i], e, ks, other);
    assert ks.same(key, key);
    HitsOne(e, ks, key, other);
    HomedChange(t, ks, i, [e] + t[i]);
  }

  lemma {:induction false} HomedChange<K(!new), V>(t: Table<K, V>, ks: Keys<K>, i: nat, b: Bucket<K, V>)
    requires Homed(t, ks) && i < |t|
    requires forall e :: e in b ==> e in t[i] || AtHome(e, ks, i, |t|)
    ensures Homed(t[i := b], ks)
  {
  }

  lemma {:induction false} HomedPush<K(!new), V>(t: Table<K, V>, ks: Keys<K>, i: nat, e: Entry<K, V>)
    requires Homed(t, ks) && i < |t| && AtHome(e, ks, i, |t|)
    ensures Homed(t[i := [e] + t[i]], ks)
  {
    HomedChange(t, ks, i, [e] + t[i]);
  }

  lemma {:induction false} HomedWithout<K(!new), V>(t: Table<K, V>, ks: Keys<K>, i: nat, j: nat)
    requires Homed(t, ks) && i < |t| && j < |t[i]|
    ensures Homed(t[i := Without(t[i], j)], ks)
  {
    HomedChange(t, ks, i, Without(t[i], j));
  }

  lemma {:induction false} HomedSetVal<K(!new), V>(t: Table<K, V>, ks: Keys<K>, i: nat, j: nat, val: V)
    requires Homed(t, ks) && i < |t| && j < |t[i]|
    ensures Homed(t[i := SetVal(t[i], j, val)], ks)
  {
    assert t[i][j] in t[i];
    HomedChange(t, ks, i, SetVal(t[i], j, val));
  }

  /** Setting replaces the top of the key's stack, or starts the stack. */
  lemma {:induction false} SetStacks<K(!new), V>(t: Table<K, V>, ks: Keys<K>, key: K, val: V, other: K)
    requires Agree(ks) && Homed(t, ks)
    ensures Homed(WithSet(t, ks, key, val), ks)
    ensures Lookup(WithSet(t, ks, key, val), ks, other)
            == if ks.same(key, other) then [val] + Rest(Lookup(t, ks, other)) else Lookup(t, ks, other)
  {
    var i := Slot(t, ks, key);
    var b := t[i];
    var j := Find(b, ks, key);
    if j < |b| {
      StackSet(b, ks, key, val, other);
      HomedSetVal(t, ks, i, j, val);
    } else {
      InsertedStacks(t, ks, key, val, other);
      FindIsTop(b, ks, key);
      if ks.same(key, other) {
        SameStack(b, ks, key, other);
      }
    }
  }

  /** Removing uncovers what the top of the key's stack shadowed. */
  lemma {:induction false} RemovedStacks<K(!new), V>(t: Table<K, V>, ks: Keys<K>, key: K, other: K)
    requires Agree(ks) && Homed(t, ks)
    ensures Homed(Removed(t, ks, key), ks)
    ensures Lookup(Removed(t, ks, key), ks, other)
            == if ks.same(key, other) then Rest(Lookup(t, ks, other)) else Lookup(t, ks, other)
  {
    var i := Slot(t, ks, key);
    var b := t[i];
    var j := Find(b, ks, key);
    if j < |b| {
      StackRemove(b, ks, key, other);
      HomedWithout(t, ks, i, j);
    } else {
      FindIsTop(b, ks, key);
      if ks.same(key, other) {
        SameStack(b, ks, key, other);
      }
    }
  }

  // ---- Resizing ----

  function Reverse<V>(s: seq<V>): (r: seq<V>)
    ensures |r| == |s|
  {
    if s == [] then [] else Reverse(s[1..]) + [s[0]]
  }

  lemma {:induction false} ReverseAppend<V>(a: seq<V>, b: seq<V>)
    ensures Reverse(a + b) == Reverse(b) + Reverse(a)
  {
    if a == [] {
      assert a + b == b;
    } else {
      assert (a + b)[1..] == a[1..] + b;
      ReverseAppend(a[1..], b);
    }
  }

  lemma {:induction false} ReverseLast<V>(a: seq<V>, v: V, rest: seq<V>)
    ensures Reverse(a + [v]) + rest == [v] + (Reverse(a) + rest)
  {
    var one: seq<V> := [v];
    assert one[1..] == [];
    ReverseAppend(a, one);
  }

  lemma {:induction false} ReverseTwice<V>(s: seq<V>)
    ensures Reverse(Reverse(s)) == s
  {
    if s != [] {
      ReverseAppend(Reverse(s[1..]), [s[0]]);
      ReverseTwice(s[1..]);
      var one: seq<V> := [s[0]];
      assert one[1..] == [];
      assert s == [s[0]] + s[1..];
    }
  }

  ghost predicate HashKept<K, V>(b: Bucket<K, V>, ks: Keys<K>) {
    forall e :: e in b ==> e.hash == ks.hash(e.key)
  }

  lemma {:induction false} StackLast<K, V>(b: Bucket<K, V>, ks: Keys<K>, key: K)
    requires b != []
    ensures var init, last := b[..|b| - 1], b[|b| - 1];
            Stack(b, ks, key) == Stack(init, ks, key) + if Hits(last, ks, key) then [last.val] else []
  {
    var init, last := b[..|b| - 1], b[|b| - 1];
    assert b == init + [last];
    StackAppend(init, [last], ks, key);
    StackOne(last, ks, key);
  }

  /** Refilling reverses what a bucket holds of a key, in front of what was there. */
  lemma {:induction false} RefilledStacks<K(!new), V>(out: Table<K, V>, ks: Keys<K>, b: Bucket<K, V>, key: K)
    requires Agree(ks) && Homed(out, ks) && HashKept(b, ks)
    ensures Homed(Refilled(out, ks, b), ks)
    ensures Lookup(Refilled(out, ks, b), ks, key) == Reverse(Stack(b, ks, key)) + Lookup(out, ks, key)
    decreases |b|
  {
    if b != [] {
      var init, last := b[..|b| - 1], b[|b| - 1];
      var mid := Refilled(out, ks, init);
      RefilledStacks(out, ks, init, key);
      assert last in b;
      InsertedStacks(mid, ks, last.key, last.val, key);
      StackLast(b, ks, key);
      assert Hits(last, ks, key) <==> ks.same(last.key, key);
      assert Refilled(out, ks, b) == Inserted(mid, ks, last.key, last.val);
      if ks.same(last.key, key) {
        ReverseLast(Stack(init, ks, key), last.val, Lookup(out, ks, key));
      } else {
        assert Stack(b, ks, key) == Stack(init, ks, key);
      }
    } else {
      assert Reverse(Stack(b, ks, key)) == [];
    }
  }

  lemma {:induction false} RehashedStacks<K(!new), V>(out: Table<K, V>, ks: Keys<K>, t: Table<K, V>, n: nat, key: K)
    requires Agree(ks) && Homed(out, ks) && Homed(t, ks) && n <= |t|
    ensures Homed(Rehashed(out, ks, t[..n]), ks)
    ensures Lookup(Rehashed(out, ks, t[..n]), ks, key)
            == (if Slot(t, ks, key) < n then Reverse(Lookup(t, ks, key)) else []) + Lookup(out, ks, key)
  {
    if n > 0 {
      var m := n - 1;
      RehashedStacks(out, ks, t, m, key);
      assert t[..n][..m] == t[..m];
      RefilledStacks(Rehashed(out, ks, t[..m]), ks, t[m], key);
      if m != Slot(t, ks, key) {
        NoHits(t[m], ks, key);
      }
    }
  }

  lemma {:induction false} EmptyStacks<K(!new), V>(size: nat, ks: Keys<K>, key: K)
    requires size > 0
    ensures Homed<K, V>(Empty(size), ks) && Lookup<K, V>(Empty(size), ks, key) == []
  {
  }

  /** Resizing turns each key's stack over. */
  lemma {:induction false} ResizedStacks<K(!new), V>(t: Table<K, V>, ks: Keys<K>, size: nat, key: K)
    requires Agree(ks) && Homed(t, ks) && size > 0
    ensures Resized(t, ks, size) != [] && Homed(Resized(t, ks, size), ks)
    ensures Lookup(Resized(t, ks, size), ks, key) == Reverse(Lookup(t, ks, key))
  {
    EmptyStacks<K, V>(size, ks, key);
    RehashedStacks(Empty(size), ks, t, |t|, key);
    assert t[..|t|] == t;
  }

  /** The entries of a table, with their keys, whatever bucket they are in. */
  ghost function EntriesOf<K, V>(t: Table<K, V>): multiset<Entry<K, V>> {
    if t == [] then multiset{} else EntriesOf(t[..|t| - 1]) + multiset(t[|t| - 1])
  }

  lemma {:induction false} EntriesChange<K, V>(t: Table<K, V>, i: nat, e: Entry<K, V>)
    requires i < |t|
    ensures EntriesOf(t[i := [e] + t[i]]) == EntriesOf(t) + multiset{e}
  {
    var n := |t| - 1;
    var r := t[i := [e] + t[i]];
    if i == n {
      assert r[..n] == t[..n];
    } else {
      assert r[..n] == t[..n][i := [e] + t[..n][i]];
      EntriesChange(t[..n], i, e);
    }
  }

  lemma {:induction false} RefilledEntries<K, V>(out: Table<K, V>, ks: Keys<K>, b: Bucket<K, V>)
    requires out != [] && HashKept(b, ks)
    ensures EntriesOf(Refilled(out, ks, b)) == EntriesOf(out) + multiset(b)
    decreases |b|
  {
    if b != [] {
      var init, last := b[..|b| - 1], b[|b| - 1];
      var mid := Refilled(out, ks, init);
      RefilledEntries(out, ks, init);
      InsertedEntries(mid, ks, last) by {
        assert last in b;
      }
      MultisetLast(b);
    }
  }

  lemma MultisetLast<T>(b: seq<T>)
    requires b != []
    ensures multiset(b) == multiset(b[..|b| - 1]) + multiset{b[|b| - 1]}
  {
    assert b == b[..|b| - 1] + [b[|b| - 1]];
  }

  lemma {:induction false} InsertedEntries<K, V>(t: Table<K, V>, ks: Keys<K>, e: Entry<K, V>)
    requires t != [] && e.hash == ks.hash(e.key)
    ensures EntriesOf(Inserted(t, ks, e.key, e.val)) == EntriesOf(t) + multiset{e}
  {
    EntriesChange(t, Slot(t, ks, e.key), e);
  }

  lemma {:induction false} RehashedEntries<K, V>(out: Table<K, V>, ks: Keys<K>, t: Table<K, V>)
    requires out != [] && forall i :: 0 <= i < |t| ==> HashKept(t[i], ks)
    ensures EntriesOf(Rehashed(out, ks, t)) == EntriesOf(out) + EntriesOf(t)
    decreases |t|
  {
    if t != [] {
      var init := t[..|t| - 1];
      RehashedEntries(out, ks, init);
      RefilledEntries(Rehashed(out, ks, init), ks, t[|t| - 1]);
    }
  }

  lemma {:induction false} EmptyEntries<K, V>(size: nat)
    ensures EntriesOf<K, V>(Empty(size)) == multiset{}
  {
    if size > 0 {
      EmptyEntries<K, V>(size - 1);
      assert Empty<K, V>(size)[..size - 1] == Empty<K, V>(size - 1);
    }
  }

  /** Resizing loses no entry and makes none: the entries, keys and values, are the same. */
  lemma {:induction false} ResizedEntries<K, V>(t: Table<K, V>, ks: Keys<K>, size: nat)
    requires Homed(t, ks) && size > 0
    ensures EntriesOf(Resized(t, ks, size)) == EntriesOf(t)
  {
    EmptyEntries<K, V>(size);
    RehashedEntries(Empty(size), ks, t);
  }

  lemma {:induction false} ResizedTwice<K(!new), V>(t: Table<K, V>, ks: Keys<K>, size1: nat, size2: nat, key: K)
    requires Agree(ks) && Homed(t, ks) && size1 > 0 && size2 > 0
    ensures Resized(t, ks, size1) != [] && Resized(Resized(t, ks, size1), ks, size2) != []
    ensures Lookup(Resized(Resized(t, ks, size1), ks, size2), ks, key) == Lookup(t, ks, key)
  {
    ResizedStacks(t, ks, size1, key);
    ResizedStacks(Resized(t, ks, size1), ks, size2, key);
    ReverseTwice(Lookup(t, ks, key));
  }

  // ---- Whole runs ----

  datatype Op<K, V> = Insert(key: K, val: V) | Set(key: K, val: V) | Remove(key: K) | Resize(size: nat)

  predicate Sound<K, V>(ops: seq<Op<K, V>>) {
    forall i :: 0 <= i < |ops| && ops[i].Resize? ==> ops[i].size > 0
  }

  function Perform<K, V>(t: Table<K, V>, ks: Keys<K>, op: Op<K, V>): Table<K, V>
    requires t != [] && (op.Resize? ==> op.size > 0)
  {
    match op
    case Insert(key, val) => Inserted(t, ks, key, val)
    case Set(key, val) => WithSet(t, ks, key, val)
    case Remove(key) => Removed(t, ks, key)
    case Resize(size) => Resized(t, ks, size)
  }

  function Run<K, V>(t: Table<K, V>, ks: Keys<K>, ops: seq<Op<K, V>>): (r: Table<K, V>)
    requires t != [] && Sound(ops)
    ensures r != []
    decreases |ops|
  {
    if ops == [] then t else Perform(Run(t, ks, ops[..|ops| - 1]), ks, ops[|ops| - 1])
  }

  /** What one operation does to the stack of one key. */
  function OnStack<K, V>(s: seq<V>, ks: Keys<K>, op: Op<K, V>, key: K): seq<V> {
    match op
    case Insert(k, val) => if ks.same(k, key) then [val] + s else s
    case Set(k, val) => if ks.same(k, key) then [val] + Rest(s) else s
    case Remove(k) => if ks.same(k, key) then Rest(s) else s
    case Resize(_) => Reverse(s)
  }

  function StackAfter<K, V>(s: seq<V>, ks: Keys<K>, ops: seq<Op<K, V>>, key: K): seq<V>
    decreases |ops|
  {
    if ops == [] then s else OnStack(StackAfter(s, ks, ops[..|ops| - 1], key), ks, ops[|ops| - 1], key)
  }

  lemma {:induction false} PerformStacks<K(!new), V>(t: Table<K, V>, ks: Keys<K>, op: Op<K, V>, key: K)
    requires Agree(ks) && Homed(t, ks) && (op.Resize? ==> op.size > 0)
    ensures Homed(Perform(t, ks, op), ks)
    ensures Lookup(Perform(t, ks, op), ks, key) == OnStack(Lookup(t, ks, key), ks, op, key)
  {
    match op
    case Insert(k, val) => InsertedStacks(t, ks, k, val, key);
    case Set(k, val) => SetStacks(t, ks, k, val, key);
    case Remove(k) => RemovedStacks(t, ks, k, key);
    case Resize(size) => ResizedStacks(t, ks, size, key);
  }

  /** After any run the map holds, for every key, the stack the run describes. */
  lemma {:induction false} RunStacks<K(!new), V>(t: Table<K, V>, ks: Keys<K>, ops: seq<Op<K, V>>, key: K)
    requires Agree(ks) && Homed(t, ks) && Sound(ops)
    ensures Homed(Run(t, ks, ops), ks)
    ensures Lookup(Run(t, ks, ops), ks, key) == StackAfter(Lookup(t, ks, key), ks, ops, key)
    decreases |ops|
  {
    if ops != [] {
      var init := ops[..|ops| - 1];
      RunStacks(t, ks, init, key);
      PerformStacks(Run(t, ks, init), ks, ops[|ops| - 1], key);
    }
  }

  /** The last value set for a key and not removed since. */
  function Latest<K, V>(ops: seq<Op<K, V>>, ks: Keys<K>, key: K): Option<V>
    decreases |ops|
  {
    if ops == [] then None else
      match ops[|ops| - 1]
      case Set(k, val) => if ks.same(k, key) then Some(val) else Latest(ops[..|ops| - 1], ks, key)
      case Remove(k) => if ks.same(k, key) then None else Latest(ops[..|ops| - 1], ks, key)
      case _ => Latest(ops[..|ops| - 1], ks, key)
  }

  /** Without `hmap_insert` no key is shadowed, and the map is an ordinary one: resizes, whenever they
      happen and to whatever size, change nothing. */
  lemma {:induction false} SetRunsIgnoreResize<K(!new), V>(ks: Keys<K>, size: nat, ops: seq<Op<K, V>>, key: K)
    requires Agree(ks) && size > 0 && Sound(ops) && forall i :: 0 <= i < |ops| ==> !ops[i].Insert?
    ensures var s := Lookup(Run(Empty(size), ks, ops), ks, key); |s| <= 1 && Top(s) == Latest(ops, ks, key)
  {
    EmptyStacks<K, V>(size, ks, key);
    RunStacks(Empty(size), ks, ops, key);
    ShortStacks(ks, ops, key);
  }

  lemma {:induction false} ShortStacks<K, V>(ks: Keys<K>, ops: seq<Op<K, V>>, key: K)
    requires forall i :: 0 <= i < |ops| ==> !ops[i].Insert?
    ensures var s := StackAfter([], ks, ops, key); |s| <= 1 && Top(s) == Latest(ops, ks, key)
    decreases |ops|
  {
    if ops != [] {
      var s := StackAfter([], ks, ops[..|ops| - 1], key);
      ShortStacks(ks, ops[..|ops| - 1], key);
      assert |s| == 1 ==> s == [s[0]] && Reverse(s[1..]) == [];
    }
  }
}
