/** src/struct/hashmap.c as it is written: an array of buckets, each a doubly linked list that is
    created when first needed. Every operation is proved to do to the buckets what `HashModel` says. */
module HashMap {
  import opened Sequences
  import opened LinkedList
  import opened Footprints
  import opened HashModel

  /** `l` is a list within the objects `foot` that holds `b`; a bucket not created yet is empty. */
  ghost predicate Holds<K, V>(l: List?<Entry<K, V>>, foot: set<object>, b: Bucket<K, V>)
    reads foot
  {
    if l == null then b == []
    else l in foot && (forall e :: e in l.nodes ==> e in foot) && l.Valid() && l.contents == b
  }

  // ---- One bucket ----

  method NewBucket<K, V>() returns (l: List<Entry<K, V>>, ghost foot: set<object>)
    ensures Holds(l, foot, []) && fresh(foot)
  {
    l := new List();
    foot := {l};
  }

  method Unshift<K, V>(l: List<Entry<K, V>>, e: Entry<K, V>, ghost foot: set<object>, ghost b: Bucket<K, V>)
    returns (ghost foot': set<object>)
    requires Holds(l, foot, b)
    modifies foot
    ensures Holds(l, foot', [e] + b) && foot <= foot' && fresh(foot' - foot)
  {
    ghost var elem := l.Unshift(e);
    foot' := foot + {elem};
  }

  method Drop<K, V>(l: List<Entry<K, V>>, elem: Elem<Entry<K, V>>, ghost j: nat, ghost foot: set<object>,
                    ghost b: Bucket<K, V>)
    requires Holds(l, foot, b) && j < |l.nodes| && l.nodes[j] == elem
    modifies foot
    ensures j < |b| && Holds(l, foot, Without(b, j))
  {
    ghost var was := l.nodes;
    var e := l.Remove(elem, j);
    assert forall x :: x in l.nodes ==> x in was;
  }

  method Assign<K, V>(l: List<Entry<K, V>>, elem: Elem<Entry<K, V>>, ghost j: nat, val: V, ghost foot: set<object>,
                      ghost b: Bucket<K, V>)
    requires Holds(l, foot, b) && j < |l.nodes| && l.nodes[j] == elem
    modifies l`contents, elem`val
    ensures j < |b| && Holds(l, foot, SetVal(b, j, val))
  {
    l.Assign(elem, j, elem.val.(val := val));
  }

  /** `hmap_get_entry` */
  method GetEntry<K, V>(l: List<Entry<K, V>>, keys: Keys<K>, key: K, hash: nat, ghost foot: set<object>,
                        ghost b: Bucket<K, V>)
    returns (elem: Elem?<Entry<K, V>>, ghost j: nat)
    requires Holds(l, foot, b) && hash == keys.hash(key)
    ensures j == Find(b, keys, key) && |l.nodes| == |b|
    ensures elem == null <==> Find(b, keys, key) == |b|
    ensures elem != null ==> elem == l.nodes[Find(b, keys, key)] && elem in foot && elem.val == b[Find(b, keys, key)]
  {
    elem, j := l.first, 0;
    while elem != null
      invariant j <= |b| && elem == if j < |b| then l.nodes[j] else null
      invariant forall k :: 0 <= k < j ==> !Hits(b[k], keys, key)
      decreases |b| - j
    {
      if elem.val.hash == hash && keys.same(elem.val.key, key) {
        break;
      }
      assert LinkedAt(l.nodes, j);
      elem, j := elem.next, j + 1;
    }
    FindIs(b, keys, key, j);
  }

  lemma {:induction false} FindIs<K, V>(b: Bucket<K, V>, ks: Keys<K>, key: K, j: nat)
    requires j <= |b| && (forall k :: 0 <= k < j ==> !Hits(b[k], ks, key)) && (j < |b| ==> Hits(b[j], ks, key))
    ensures Find(b, ks, key) == j
  {
    var i := Find(b, ks, key);
  }

  // ---- All buckets ----

  /** Every bucket holds its entries, and no two share an object. */
  ghost predicate AllHold<K, V>(bs: seq<List?<Entry<K, V>>>, feet: seq<set<object>>, t: Table<K, V>)
    reads Union(feet)
  {
    && |bs| == |feet| == |t| && Disjoint(feet)
    && forall i :: 0 <= i < |bs| ==> Holds(bs[i], feet[i], t[i])
  }

  /** Changing the objects of one bucket leaves the others as they were. */
  lemma {:induction false} OneHolds<K, V>(bs: seq<List?<Entry<K, V>>>, feet: seq<set<object>>, t: Table<K, V>,
                                          i: nat, foot: set<object>, b: Bucket<K, V>)
    requires |bs| == |feet| == |t| && Disjoint(feet) && i < |bs| && (foot - feet[i]) !! Union(feet)
    requires forall j :: 0 <= j < |bs| && j != i ==> Holds(bs[j], feet[j], t[j])
    requires Holds(bs[i], foot, b)
    ensures AllHold(bs, feet[i := foot], t[i := b])
  {
    FootChange(feet, i, foot);
  }

  method PutFirst<K, V>(ghost bs: seq<List?<Entry<K, V>>>, ghost i: nat, bucket: List<Entry<K, V>>, e: Entry<K, V>,
                        ghost feet: seq<set<object>>, ghost t: Table<K, V>)
    returns (ghost foot: set<object>)
    requires AllHold(bs, feet, t) && i < |bs| && bs[i] == bucket
    modifies feet[i]
    ensures AllHold(bs, feet[i := foot], t[i := [e] + t[i]]) && fresh(Union(feet[i := foot]) - Union(feet))
  {
    UnionHas(feet, i);
    foot := Unshift(bucket, e, feet[i], t[i]);
    forall j | 0 <= j < |bs| && j != i
      ensures Holds(bs[j], feet[j], t[j])
    {
      assert feet[j] !! feet[i];
    }
    FootChange(feet, i, foot);
    OneHolds(bs, feet, t, i, foot, [e] + t[i]);
  }

  method DropAt<K, V>(ghost bs: seq<List?<Entry<K, V>>>, ghost i: nat, bucket: List<Entry<K, V>>,
                      elem: Elem<Entry<K, V>>, ghost j: nat,
                      ghost feet: seq<set<object>>, ghost t: Table<K, V>)
    requires AllHold(bs, feet, t) && i < |bs| && bs[i] == bucket
    requires j < |t[i]| == |bucket.nodes| && bucket.nodes[j] == elem
    modifies feet[i]
    ensures AllHold(bs, feet, t[i := Without(t[i], j)])
  {
    UnionHas(feet, i);
    Drop(bucket, elem, j, feet[i], t[i]);
    forall k | 0 <= k < |bs| && k != i
      ensures Holds(bs[k], feet[k], t[k])
    {
      assert feet[k] !! feet[i];
    }
    OneHolds(bs, feet, t, i, feet[i], Without(t[i], j));
    assert feet[i := feet[i]] == feet;
  }

  method AssignAt<K, V>(ghost bs: seq<List?<Entry<K, V>>>, ghost i: nat, bucket: List<Entry<K, V>>,
                        elem: Elem<Entry<K, V>>, ghost j: nat,
                        val: V, ghost feet: seq<set<object>>, ghost t: Table<K, V>)
    requires AllHold(bs, feet, t) && i < |bs| && bs[i] == bucket
    requires j < |t[i]| == |bucket.nodes| && bucket.nodes[j] == elem
    modifies feet[i]
    ensures AllHold(bs, feet, t[i := SetVal(t[i], j, val)])
  {
    UnionHas(feet, i);
    Assign(bucket, elem, j, val, feet[i], t[i]);
    forall k | 0 <= k < |bs| && k != i
      ensures Holds(bs[k], feet[k], t[k])
    {
      assert feet[k] !! feet[i];
    }
    OneHolds(bs, feet, t, i, feet[i], SetVal(t[i], j, val));
    assert feet[i := feet[i]] == feet;
  }

  lemma {:induction false} RefillNext<K, V>(out: Table<K, V>, ks: Keys<K>, b: Bucket<K, V>, j: nat)
    requires out != [] && j < |b|
    ensures Refilled(out, ks, b[..j + 1]) == Inserted(Refilled(out, ks, b[..j]), ks, b[j].key, b[j].val)
  {
    assert b[..j + 1][..j] == b[..j];
  }

  lemma {:induction false} RehashNext<K, V>(out: Table<K, V>, ks: Keys<K>, t: Table<K, V>, i: nat)
    requires out != [] && i < |t|
    ensures Rehashed(out, ks, t[..i + 1]) == Refilled(Rehashed(out, ks, t[..i]), ks, t[i])
  {
    assert t[..i + 1][..i] == t[..i];
  }

  lemma {:induction false} RunNext<K, V>(t: Table<K, V>, ks: Keys<K>, ops: seq<Op<K, V>>, i: nat)
    requires t != [] && Sound(ops) && i < |ops|
    ensures Sound(ops[..i + 1]) && Sound(ops[..i])
    ensures HashModel.Run(t, ks, ops[..i + 1]) == Perform(HashModel.Run(t, ks, ops[..i]), ks, ops[i])
  {
    assert ops[..i + 1][..i] == ops[..i];
  }

  // ---- The map ----

  class Map<K(!new), V> {
    const keys: Keys<K>
    var buckets: array<List?<Entry<K, V>>>
    ghost var model: Table<K, V>
    ghost var feet: seq<set<object>>

    /** The buckets hold the model, and every entry is in the bucket of its key's hash. */
    ghost predicate Valid()
      reads this, buckets, Union(feet)
    {
      && buckets.Length > 0 && this !in Union(feet) && buckets !in Union(feet)
      && AllHold(buckets[..], feet, model)
      && Homed(model, keys)
    }

    /** `hmap_create` */
    constructor (keys: Keys<K>, size: nat)
      requires size > 0
      ensures Valid() && this.keys == keys && model == Empty(size) && fresh(buckets) && fresh(Union(feet))
    {
      this.keys := keys;
      var b := new List?<Entry<K, V>>[size](_ => null);
      buckets, model, feet := b, Empty(size), seq(size, _ => {});
    }

    /** `hmap_get_bucket`: the bucket, created when there is none. */
    method GetBucket(i: nat) returns (bucket: List<Entry<K, V>>)
      requires Valid() && i < buckets.Length
      modifies this`feet, buckets
      ensures Valid() && buckets[i] == bucket && fresh(Union(feet) - old(Union(feet)))
      ensures buckets.Length == old(buckets.Length)
    {
      if buckets[i] == null {
        var l, foot := NewBucket<K, V>();
        UnionHas(feet, i);
        OneHolds(buckets[..][i := l], feet, model, i, foot, []);
        FootChange(feet, i, foot);
        assert model[i := []] == model;
        buckets[i] := l;
        feet := feet[i := foot];
        assert buckets[..] == old(buckets[..])[i := l];
      }
      bucket := buckets[i];
    }

    method Insert(key: K, val: V)
      requires Valid()
      modifies this`feet, this`model, buckets, Union(feet)
      ensures Valid() && model == Inserted(old(model), keys, key, val)
      ensures fresh(Union(feet) - old(Union(feet)))
    {
      var hash := keys.hash(key);
      var i := hash % buckets.Length;
      var bucket := GetBucket(i);
      Prepend(i, bucket, Entry(key, val, hash));
    }

    /** A new entry at the front of its bucket. */
    method Prepend(i: nat, bucket: List<Entry<K, V>>, e: Entry<K, V>)
      requires Valid() && i < buckets.Length && buckets[i] == bucket && AtHome(e, keys, i, buckets.Length)
      modifies this`feet, this`model, Union(feet)
      ensures Valid() && i < |old(model)| && model == old(model)[i := [e] + old(model)[i]]
      ensures fresh(Union(feet) - old(Union(feet)))
    {
      ghost var bs, f, t := buckets[..], feet, model;
      UnionHas(f, i);
      HomedPush(t, keys, i, e);
      ghost var foot := PutFirst(bs, i, bucket, e, f, t);
      assert buckets[..] == bs;
      model, feet := t[i := [e] + t[i]], f[i := foot];
    }

    method Get(key: K) returns (val: Option<V>)
      requires Valid()
      ensures |model| > 0 && val == Top(Lookup(model, keys, key))
    {
      var hash := keys.hash(key);
      var i := hash % buckets.Length;
      var bucket := buckets[i];
      FindIsTop(model[i], keys, key);
      if bucket == null {
        return None;
      }
      var elem, j := GetEntry(bucket, keys, key, hash, feet[i], model[i]);
      if elem == null {
        return None;
      }
      return Some(elem.val.val);
    }

    method Contains(key: K) returns (found: bool)
      requires Valid()
      ensures |model| > 0 && (found <==> Lookup(model, keys, key) != [])
    {
      var hash := keys.hash(key);
      var i := hash % buckets.Length;
      var bucket := buckets[i];
      FindIsTop(model[i], keys, key);
      if bucket == null {
        return false;
      }
      var elem, j := GetEntry(bucket, keys, key, hash, feet[i], model[i]);
      return elem != null;
    }

    method Remove(key: K) returns (val: Option<V>)
      requires Valid()
      modifies this`model, Union(feet)
      ensures Valid() && model == Removed(old(model), keys, key) && val == Top(Lookup(old(model), keys, key))
    {
      var hash := keys.hash(key);
      var i := hash % buckets.Length;
      var bucket := buckets[i];
      FindIsTop(model[i], keys, key);
      UnionHas(feet, i);
      if bucket == null {
        return None;
      }
      var elem, j := GetEntry(bucket, keys, key, hash, feet[i], model[i]);
      if elem == null {
        return None;
      }
      val := Some(elem.val.val);
      TakeOut(i, bucket, elem, j);
    }

    method TakeOut(ghost i: nat, bucket: List<Entry<K, V>>, elem: Elem<Entry<K, V>>, ghost j: nat)
      requires Valid() && i < buckets.Length && buckets[i] == bucket
      requires j < |model[i]| == |bucket.nodes| && bucket.nodes[j] == elem
      modifies this`model, Union(feet)
      ensures Valid() && i < |old(model)| && j < |old(model)[i]| && model == old(model)[i := Without(old(model)[i], j)]
    {
      UnionHas(feet, i);
      HomedWithout(model, keys, i, j);
      DropAt(buckets[..], i, bucket, elem, j, feet, model);
      model := model[i := Without(model[i], j)];
    }

    method Set(key: K, val: V)
      requires Valid()
      modifies this`feet, this`model, buckets, Union(feet)
      ensures Valid() && model == WithSet(old(model), keys, key, val)
      ensures fresh(Union(feet) - old(Union(feet)))
    {
      var hash := keys.hash(key);
      var i := hash % buckets.Length;
      var bucket := GetBucket(i);
      var elem, j := GetEntry(bucket, keys, key, hash, feet[i], model[i]);
      if elem != null {
        Overwrite(i, bucket, elem, j, val);
      } else {
        Prepend(i, bucket, Entry(key, val, hash));
      }
    }

    method Overwrite(ghost i: nat, bucket: List<Entry<K, V>>, elem: Elem<Entry<K, V>>, ghost j: nat, val: V)
      requires Valid() && i < buckets.Length && buckets[i] == bucket
      requires j < |model[i]| == |bucket.nodes| && bucket.nodes[j] == elem
      modifies this`model, Union(feet)
      ensures Valid() && i < |old(model)| && j < |old(model)[i]|
              && model == old(model)[i := SetVal(old(model)[i], j, val)]
    {
      UnionHas(feet, i);
      HomedSetVal(model, keys, i, j, val);
      AssignAt(buckets[..], i, bucket, elem, j, val, feet, model);
      model := model[i := SetVal(model[i], j, val)];
    }

    /** Another table's objects are none of this map's. */
    ghost predicate Beside(oldFeet: seq<set<object>>)
      reads this
    {
      Union(oldFeet) !! {this, buckets} + Union(feet)
    }

    /** An insertion beside another table. */
    method InsertBeside(key: K, val: V, ghost bs: seq<List?<Entry<K, V>>>, ghost oldFeet: seq<set<object>>,
                        ghost t: Table<K, V>)
      requires Valid() && AllHold(bs, oldFeet, t) && Beside(oldFeet)
      modifies this`feet, this`model, buckets, Union(feet)
      ensures Valid() && model == Inserted(old(model), keys, key, val)
      ensures fresh(Union(feet) - old(Union(feet))) && AllHold(bs, oldFeet, t) && Beside(oldFeet)
    {
      Insert(key, val);
    }

    /** `hmap_rehash` of one old bucket, front to back. */
    method RehashBucket(l: List<Entry<K, V>>, ghost i: nat, ghost bs: seq<List?<Entry<K, V>>>,
                        ghost oldFeet: seq<set<object>>, ghost t: Table<K, V>)
      requires Valid() && AllHold(bs, oldFeet, t) && Beside(oldFeet) && i < |bs| && bs[i] == l
      modifies this`feet, this`model, buckets, Union(feet)
      ensures Valid() && model == Refilled(old(model), keys, t[i])
      ensures fresh(Union(feet) - old(Union(feet))) && AllHold(bs, oldFeet, t) && Beside(oldFeet)
    {
      var cur := l.first;
      ghost var b, j := t[i], 0;
      assert Holds(l, oldFeet[i], b) && b[..0] == [];
      while cur != null
        invariant j <= |b| == |l.nodes| && cur == (if j < |b| then l.nodes[j] else null)
        invariant Valid() && AllHold(bs, oldFeet, t) && Beside(oldFeet) && fresh(Union(feet) - old(Union(feet)))
        invariant model == Refilled(old(model), keys, b[..j])
        decreases |b| - j
      {
        RefillNext(old(model), keys, b, j);
        InsertBeside(cur.val.key, cur.val.val, bs, oldFeet, t);
        assert Holds(l, oldFeet[i], b) && LinkedAt(l.nodes, j);
        cur, j := cur.next, j + 1;
      }
      assert b[..j] == b;
    }

    /** `hmap_rehash`: the old buckets in order; nothing of theirs is changed. */
    method Rehash(oldBuckets: array<List?<Entry<K, V>>>, ghost oldFeet: seq<set<object>>, ghost t: Table<K, V>)
      requires Valid() && AllHold(oldBuckets[..], oldFeet, t) && Beside(oldFeet)
      requires oldBuckets != buckets && oldBuckets !in Union(feet)
      modifies this`feet, this`model, buckets, Union(feet)
      ensures Valid() && model == Rehashed(old(model), keys, t)
      ensures fresh(Union(feet) - old(Union(feet)))
    {
      ghost var bs := oldBuckets[..];
      var i := 0;
      assert t[..0] == [];
      while i < oldBuckets.Length
        invariant i <= oldBuckets.Length && oldBuckets[..] == bs && oldBuckets !in Union(feet)
        invariant Valid() && AllHold(bs, oldFeet, t) && Beside(oldFeet) && fresh(Union(feet) - old(Union(feet)))
        invariant model == Rehashed(old(model), keys, t[..i])
      {
        RehashNext(old(model), keys, t, i);
        var bucket := oldBuckets[i];
        assert Holds(bs[i], oldFeet[i], t[i]);
        if bucket != null {
          RehashBucket(bucket, i, bs, oldFeet, t);
        }
        i := i + 1;
      }
      assert t[..i] == t;
    }

    /** `hmap_resize` */
    method Resize(size: nat)
      requires Valid() && size > 0
      modifies this
      ensures Valid() && model == Resized(old(model), keys, size)
      ensures fresh(buckets) && fresh(Union(feet))
    {
      ghost var feet0, model0 := feet, model;
      var oldBuckets := buckets;
      var b := new List?<Entry<K, V>>[size](_ => null);
      buckets, model, feet := b, Empty(size), seq(size, _ => {});
      Rehash(oldBuckets, feet0, model0);
    }

    /** A value inserted is the one found and the one removed, and then the map is as it was for every key. */
    method InsertAndRemove(key: K, val: V) returns (found: Option<V>, removed: Option<V>)
      requires Valid() && Agree(keys)
      modifies this`feet, this`model, buckets, Union(feet)
      ensures Valid() && found == Some(val) && removed == Some(val)
      ensures |old(model)| > 0 && forall other :: Lookup(model, keys, other) == Lookup(old(model), keys, other)
    {
      ghost var t := model;
      Insert(key, val);
      ghost var t1 := model;
      found := Get(key);
      removed := Remove(key);
      assert keys.same(key, key);
      forall other
        ensures Lookup(model, keys, other) == Lookup(t, keys, other)
      {
        InsertedStacks(t, keys, key, val, other);
        RemovedStacks(t1, keys, key, other);
      }
      InsertedStacks(t, keys, key, val, key);
    }

    /** A value set is the one found, and the stack of no other key changes. */
    method SetAndGet(key: K, val: V) returns (found: Option<V>)
      requires Valid() && Agree(keys)
      modifies this`feet, this`model, buckets, Union(feet)
      ensures Valid() && found == Some(val) && |old(model)| > 0
      ensures forall other :: !keys.same(key, other) ==>
                                Lookup(model, keys, other) == Lookup(old(model), keys, other)
    {
      ghost var t := model;
      Set(key, val);
      found := Get(key);
      assert keys.same(key, key);
      SetStacks(t, keys, key, val, key);
      forall other | !keys.same(key, other)
        ensures Lookup(model, keys, other) == Lookup(t, keys, other)
      {
        SetStacks(t, keys, key, val, other);
      }
    }

    /** One operation of a run; what it returns is dropped. */
    method Do(op: Op<K, V>)
      requires Valid() && (op.Resize? ==> op.size > 0)
      modifies this, buckets, Union(feet)
      ensures Valid() && |old(model)| > 0 && model == Perform(old(model), keys, op)
      ensures (buckets == old(buckets) || fresh(buckets)) && fresh(Union(feet) - old(Union(feet)))
    {
      match op
      case Insert(key, val) => Insert(key, val);
      case Set(key, val) => Set(key, val);
      case Remove(key) => var v := Remove(key);
      case Resize(size) => Resize(size);
    }

    /** Any run of operations leaves each key, given keys that agree, the stack the run describes. */
    method RunOps(ops: seq<Op<K, V>>)
      requires Valid() && Sound(ops)
      modifies this, buckets, Union(feet)
      ensures Valid() && |old(model)| > 0 && model == HashModel.Run(old(model), keys, ops)
      ensures Agree(keys) ==>
                forall key :: Lookup(model, keys, key) == StackAfter(Lookup(old(model), keys, key), keys, ops, key)
    {
      ghost var t := model;
      var i := 0;
      assert ops[..0] == [];
      while i < |ops|
        invariant i <= |ops| && Valid() && |t| > 0 && Sound(ops[..i]) && model == HashModel.Run(t, keys, ops[..i])
        invariant (buckets == old(buckets) || fresh(buckets)) && fresh(Union(feet) - old(Union(feet)))
      {
        RunNext(t, keys, ops, i);
        Do(ops[i]);
        i := i + 1;
      }
      assert ops[..i] == ops;
      if Agree(keys) {
        forall key
          ensures Lookup(model, keys, key) == StackAfter(Lookup(t, keys, key), keys, ops, key)
        {
          RunStacks(t, keys, ops, key);
        }
      }
    }
  }
}
