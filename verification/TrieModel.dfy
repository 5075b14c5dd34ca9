/** The prefix trie of src/struct/trie.c as a value, and what runs of `trie_add` leave in it. Every
    node carries the whole prefix it stands for. */
module TrieModel {
  import opened Sequences
  import opened LinkedList

  datatype Trie<V> = Node(key: string, val: Option<V>, children: seq<Trie<V>>)

  /** A child's key is its parent's and one character more, and no two children share it. */
  ghost predicate Shaped<V>(t: Trie<V>) {
    && (forall i :: 0 <= i < |t.children| ==> ChildOf(t.key, t.children[i]) && Shaped(t.children[i]))
    && (forall i, j :: 0 <= i < j < |t.children| ==> t.children[i].key != t.children[j].key)
  }

  predicate ChildOf<V>(key: string, c: Trie<V>) {
    |c.key| == |key| + 1 && key <= c.key && c.val.Some?
  }

  /** The index of the child on the way to `key`, or the number of children. */
  function ChildFor<V>(cs: seq<Trie<V>>, key: string): (i: nat)
    ensures i <= |cs| && (i < |cs| ==> cs[i].key <= key)
    ensures forall j :: 0 <= j < i ==> !(cs[j].key <= key)
  {
    if cs == [] || cs[0].key <= key then 0 else 1 + ChildFor(cs[1..], key)
  }

  /** `trie_add` below a node whose key is a prefix of the added one. */
  function AddTo<V>(t: Trie<V>, key: string, val: V): (r: Trie<V>)
    requires Shaped(t) && t.key <= key
    ensures r.key == t.key && r.val == t.val
    decreases |key| - |t.key|
  {
    if |t.key| == |key| then t else
      var i := ChildFor(t.children, key);
      if i < |t.children| then t.(children := t.children[i := AddTo(t.children[i], key, val)])
      else t.(children := t.children + [AddTo(Node(key[..|t.key| + 1], Some(val), []), key, val)])
  }

  /** `trie_get_subtrie` */
  function GetSub<V>(t: Trie<V>, key: string): Option<Trie<V>>
    decreases t, 0
  {
    if !(t.key <= key) then None
    else if t.children == [] then (if |t.key| == |key| then Some(t) else None)
    else FirstSub(t.children, key)
  }

  function FirstSub<V>(cs: seq<Trie<V>>, key: string): Option<Trie<V>>
    decreases cs
  {
    if cs == [] then None else
      var r := GetSub(cs[0], key);
      if r.Some? then r else FirstSub(cs[1..], key)
  }

  /** `trie_get` */
  function Get<V>(t: Trie<V>, key: string): Option<V> {
    match GetSub(t, key)
    case None => None
    case Some(n) => n.val
  }

  /** `trie_get_keys` */
  function Keys<V>(t: Trie<V>, prefix: string): seq<string>
    decreases t, 0
  {
    if |t.key| <= |prefix| && !(t.key <= prefix) then []
    else if t.children == [] then [t.key]
    else KeysOf(t.children, prefix)
  }

  function KeysOf<V>(cs: seq<Trie<V>>, prefix: string): seq<string>
    decreases cs
  {
    if cs == [] then [] else KeysOf(cs[..|cs| - 1], prefix) + Keys(cs[|cs| - 1], prefix)
  }

  // ---- Where a key stands ----

  /** The node for `key`, reached by going down one character at a time. */
  function Find<V>(t: Trie<V>, key: string): (r: Option<Trie<V>>)
    decreases t
  {
    if !(t.key <= key) then None
    else if |t.key| == |key| then Some(t)
    else
      var i := ChildFor(t.children, key);
      if i < |t.children| then Find(t.children[i], key) else None
  }

  lemma SamePrefix(a: string, b: string, key: string)
    requires a <= key && b <= key && |a| == |b|
    ensures a == b
  {
  }

  lemma PrefixCut(k: string, key: string, n: nat)
    requires n <= |k| && n <= |key|
    ensures k <= key ==> key[..n] <= k
  {
  }

  lemma {:induction false} ChildIs<V>(t: Trie<V>, i: nat, key: string)
    requires Shaped(t) && i < |t.children| && t.children[i].key <= key
    ensures ChildFor(t.children, key) == i
  {
    var j := ChildFor(t.children, key);
    SamePrefix(t.children[i].key, t.children[j].key, key);
  }

  /** The retrieval walks to the node for the key, and takes it only when it is a leaf. */
  lemma {:induction false} GetSubFinds<V>(t: Trie<V>, key: string)
    requires Shaped(t)
    ensures GetSub(t, key) == match Find(t, key)
                              case None => None
                              case Some(n) => if n.children == [] then Some(n) else None
    decreases t
  {
    if t.key <= key && t.children != [] {
      var i := ChildFor(t.children, key);
      forall j | 0 <= j < |t.children| && j != i
        ensures GetSub(t.children[j], key) == None
      {
        if t.children[j].key <= key {
          ChildIs(t, j, key);
        }
      }
      FirstSubIs(t.children, key, i);
      if i < |t.children| {
        GetSubFinds(t.children[i], key);
      }
    }
  }

  lemma {:induction false} FirstSubIs<V>(cs: seq<Trie<V>>, key: string, i: nat)
    requires i <= |cs| && forall j :: 0 <= j < |cs| && j != i ==> GetSub(cs[j], key) == None
    ensures FirstSub(cs, key) == if i < |cs| then GetSub(cs[i], key) else None
  {
    if cs != [] {
      var rest := cs[1..];
      forall j | 0 <= j < |rest| && (i == 0 || j != i - 1)
        ensures GetSub(rest[j], key) == None
      {
        assert rest[j] == cs[j + 1];
      }
      FirstSubIs(rest, key, if i == 0 then |rest| else i - 1);
    }
  }

  // ---- What one addition changes ----

  lemma {:induction false} AddShaped<V>(t: Trie<V>, key: string, val: V)
    requires Shaped(t) && t.key <= key
    ensures Shaped(AddTo(t, key, val))
    decreases |key| - |t.key|
  {
    if |t.key| < |key| {
      var i := ChildFor(t.children, key);
      if i < |t.children| {
        AddShaped(t.children[i], key, val);
      } else {
        AddShaped(Node(key[..|t.key| + 1], Some(val), []), key, val);
      }
    }
  }

  /** The node for `k` after adding `key`: a node there was stays, with its value, and stays a leaf
      unless `key` goes on below it; the prefixes of `key` that had no node get one. */
  ghost predicate Standing<V>(before: Option<Trie<V>>, after: Option<Trie<V>>, k: string, key: string, val: V) {
    match before
    case Some(n) => after.Some? && after.value.val == n.val
                    && (after.value.children == [] <==> n.children == [] && !(k < key))
    case None =>
      if k <= key then after.Some? && after.value.val == Some(val) && (after.value.children == [] <==> k == key)
      else after == None
  }

  lemma {:induction false} AddFinds<V>(t: Trie<V>, key: string, val: V, k: string)
    requires Shaped(t) && t.key <= key && t.key <= k
    ensures Standing(Find(t, k), Find(AddTo(t, key, val), k), k, key, val)
    decreases |key| - |t.key|
  {
    var r := AddTo(t, key, val);
    AddShaped(t, key, val);
    if |t.key| == |key| {
      assert key == t.key;
    } else if |k| == |t.key| {
      assert k == t.key;
      AddHere(t, key, val);
    } else {
      AddBelow(t, key, val, k);
    }
  }

  lemma {:induction false} AddHere<V>(t: Trie<V>, key: string, val: V)
    requires Shaped(t) && t.key < key
    ensures AddTo(t, key, val).children != []
  {
  }

  lemma {:induction false} AddBelow<V>(t: Trie<V>, key: string, val: V, k: string)
    requires Shaped(t) && t.key < key && t.key < k
    ensures Standing(Find(t, k), Find(AddTo(t, key, val), k), k, key, val)
    decreases |key| - |t.key|, 0
  {
    var r := AddTo(t, key, val);
    var n := |t.key| + 1;
    AddShaped(t, key, val);
    var i := ChildFor(t.children, key);
    var c := if i < |t.children| then t.children[i] else Node(key[..n], Some(val), []);
    assert r.children[i] == AddTo(c, key, val) && c.key == key[..n];
    if c.key <= k {
      AddFinds(c, key, val, k);
      OnTheWay(t, r, i, c, k);
    } else {
      PrefixCut(k, key, n);
      OffTheWay(t, r, i, k);
    }
  }

  /** Where `r` is `t` with its child `i`, or a new child, changed: a key below that child. */
  lemma {:induction false} OnTheWay<V>(t: Trie<V>, r: Trie<V>, i: nat, c: Trie<V>, k: string)
    requires Shaped(t) && Shaped(r) && t.key == r.key && t.key < k && c.key <= k && |c.key| == |t.key| + 1
    requires i < |r.children| && r.children[i].key == c.key
    requires if i < |t.children| then c == t.children[i]
             else ChildFor(t.children, c.key) == |t.children| && c.children == []
    requires i >= |t.children| ==> c.val.Some?
    ensures Find(r, k) == Find(r.children[i], k)
    ensures i < |t.children| ==> Find(t, k) == Find(c, k)
    ensures i >= |t.children| ==> Find(t, k) == None && Find(c, k) == if c.key == k then Some(c) else None
  {
    ChildIs(r, i, k);
    if i < |t.children| {
      ChildIs(t, i, k);
    } else {
      NewFinds(c, k);
      NoSibling(t, c.key, k);
    }
  }

  lemma {:induction false} NoSibling<V>(t: Trie<V>, key: string, k: string)
    requires Shaped(t) && |key| == |t.key| + 1 && key <= k && ChildFor(t.children, key) == |t.children|
    ensures ChildFor(t.children, k) == |t.children|
  {
    var j := ChildFor(t.children, k);
    if j < |t.children| {
      assert ChildOf(t.key, t.children[j]);
      SamePrefix(t.children[j].key, key, k);
      assert false;
    }
  }

  /** A key that is not below it. */
  lemma {:induction false} OffTheWay<V>(t: Trie<V>, r: Trie<V>, i: nat, k: string)
    requires Shaped(t) && Shaped(r) && t.key == r.key && t.key < k
    requires i < |r.children| && |t.children| <= |r.children| <= |t.children| + 1 && !(r.children[i].key <= k)
    requires i < |t.children| ==> |r.children| == |t.children| && !(t.children[i].key <= k)
    requires forall j :: 0 <= j < |r.children| && j != i ==> j < |t.children| && r.children[j] == t.children[j]
    ensures Find(r, k) == Find(t, k)
  {
    var j := ChildFor(t.children, k);
    if j < |t.children| {
      ChildIs(r, j, k);
    } else {
      NoChild(r.children, k, t.children, i);
    }
  }

  lemma {:induction false} NewFinds<V>(c: Trie<V>, k: string)
    requires c.children == [] && c.key <= k
    ensures Find(c, k) == if c.key == k then Some(c) else None
  {
  }

  lemma {:induction false} NoChild<V>(rs: seq<Trie<V>>, k: string, cs: seq<Trie<V>>, i: nat)
    requires i < |rs| && |cs| <= |rs| <= |cs| + 1 && !(rs[i].key <= k) && ChildFor(cs, k) == |cs|
             && (i < |cs| ==> |rs| == |cs|)
    requires forall j :: 0 <= j < |rs| && j != i ==> j < |cs| && rs[j] == cs[j]
    ensures ChildFor(rs, k) == |rs|
  {
    var j := ChildFor(rs, k);
  }

  // ---- Whole runs ----

  type Pair<V> = (string, V)

  const ROOT_KEY := ""

  function EmptyTrie<V>(): Trie<V> {
    Node(ROOT_KEY, None, [])
  }

  /** `trie_add` of each pair in turn. */
  function AddAll<V>(es: seq<Pair<V>>): (t: Trie<V>)
    ensures Shaped(t) && t.key == ROOT_KEY && t.val == None
    decreases |es|
  {
    if es == [] then EmptyTrie() else
      var t := AddAll(es[..|es| - 1]);
      var e := es[|es| - 1];
      AddShaped(t, e.0, e.1);
      AddTo(t, e.0, e.1)
  }

  /** `k` is a prefix of an added key. */
  predicate Reached<V>(es: seq<Pair<V>>, k: string) {
    exists i :: 0 <= i < |es| && k <= es[i].0
  }

  /** An added key goes on beyond `k`. */
  predicate Extended<V>(es: seq<Pair<V>>, k: string) {
    exists i :: 0 <= i < |es| && k < es[i].0
  }

  /** The value of the first added key that begins with `k`. */
  function FirstVal<V>(es: seq<Pair<V>>, k: string): (r: Option<V>)
    ensures r.Some? <==> Reached(es, k)
    decreases |es|
  {
    if es == [] then None else
      var r := FirstVal(es[..|es| - 1], k);
      ReachedNext(es, k);
      if r.Some? then r else if k <= es[|es| - 1].0 then Some(es[|es| - 1].1) else None
  }

  lemma {:induction false} ReachedNext<V>(es: seq<Pair<V>>, k: string)
    requires es != []
    ensures Reached(es, k) <==> Reached(es[..|es| - 1], k) || k <= es[|es| - 1].0
    ensures Extended(es, k) <==> Extended(es[..|es| - 1], k) || k < es[|es| - 1].0
  {
    var init := es[..|es| - 1];
    if i :| 0 <= i < |es| && k <= es[i].0 {
      assert i < |init| ==> init[i] == es[i];
    }
    if i :| 0 <= i < |es| && k < es[i].0 {
      assert i < |init| ==> init[i] == es[i];
    }
  }

  /** After any run, exactly the prefixes of the added keys have a node, with the value of the first
      addition that reached it; it is a leaf when no added key goes on beyond it. */
  lemma {:induction false} RunFinds<V>(es: seq<Pair<V>>, k: string)
    requires k != ROOT_KEY
    ensures var r := Find(AddAll(es), k);
            && (r.Some? <==> Reached(es, k))
            && (r.Some? ==> r.value.val == FirstVal(es, k) && (r.value.children == [] <==> !Extended(es, k)))
    decreases |es|
  {
    if es != [] {
      var init, e := es[..|es| - 1], es[|es| - 1];
      RunFinds(init, k);
      ReachedNext(es, k);
      AddFinds(AddAll(init), e.0, e.1, k);
      assert k <= e.0 ==> (k == e.0 <==> !(k < e.0));
      if !Reached(init, k) {
        NotExtended(init, k);
      }
    }
  }

  lemma NotExtended<V>(es: seq<Pair<V>>, k: string)
    requires !Reached(es, k)
    ensures !Extended(es, k)
  {
  }

  predicate Added<V>(es: seq<Pair<V>>, k: string) {
    exists i :: 0 <= i < |es| && es[i].0 == k
  }

  /** The value of the first addition of `k` itself. */
  function FirstAdd<V>(es: seq<Pair<V>>, k: string): Option<V>
    decreases |es|
  {
    if es == [] then None else
      var r := FirstAdd(es[..|es| - 1], k);
      if r.Some? then r else if k == es[|es| - 1].0 then Some(es[|es| - 1].1) else None
  }

  lemma {:induction false} FirstAddIs<V>(es: seq<Pair<V>>, k: string)
    requires !Extended(es, k)
    ensures FirstAdd(es, k) == FirstVal(es, k)
    decreases |es|
  {
    if es != [] {
      ReachedNext(es, k);
      FirstAddIs(es[..|es| - 1], k);
    }
  }

  /** `trie_get` after any run of `trie_add`: the first value added for the key, except that a key
      which another added key goes on from is not found, and neither is the empty key. */
  lemma {:induction false} GetAfterRun<V>(es: seq<Pair<V>>, k: string)
    ensures Get(AddAll(es), k) == if k != ROOT_KEY && !Extended(es, k) then FirstAdd(es, k) else None
  {
    var t := AddAll(es);
    GetSubFinds(t, k);
    if k == ROOT_KEY {
      assert Find(t, k) == Some(t);
    } else {
      RunFinds(es, k);
      if !Extended(es, k) {
        FirstAddIs(es, k);
      }
    }
  }

  /** No added key is empty or goes on from another. */
  ghost predicate PrefixFree<V>(es: seq<Pair<V>>) {
    forall i :: 0 <= i < |es| ==> es[i].0 != ROOT_KEY && !Extended(es, es[i].0)
  }

  /** For a prefix-free set of non-empty keys the trie is a map in which the first addition wins. */
  lemma {:induction false} GetIsMap<V>(es: seq<Pair<V>>, k: string)
    requires PrefixFree(es)
    ensures Get(AddAll(es), k) == FirstAdd(es, k)
    ensures FirstAdd(es, k).Some? <==> Added(es, k)
  {
    GetAfterRun(es, k);
    FirstAddAdded(es, k);
  }

  lemma {:induction false} FirstAddAdded<V>(es: seq<Pair<V>>, k: string)
    ensures FirstAdd(es, k).Some? <==> Added(es, k)
    decreases |es|
  {
    if es != [] {
      var init := es[..|es| - 1];
      FirstAddAdded(init, k);
      if i :| 0 <= i < |es| && es[i].0 == k {
        assert i < |init| ==> init[i] == es[i];
      }
      if Added(init, k) {
        var i :| 0 <= i < |init| && init[i].0 == k;
        assert es[i].0 == k;
      }
    }
  }

  // ---- Listing keys ----

  ghost predicate LeafAt<V>(t: Trie<V>, k: string) {
    Find(t, k).Some? && Find(t, k).value.children == []
  }

  /** One of two strings begins with the other. */
  predicate Compatible(a: string, b: string) {
    a <= b || b <= a
  }

  lemma {:induction false} KeysOfHas<V>(cs: seq<Trie<V>>, p: string, k: string)
    ensures k in KeysOf(cs, p) <==> exists i :: 0 <= i < |cs| && k in Keys(cs[i], p)
    decreases |cs|
  {
    if cs != [] {
      var init := cs[..|cs| - 1];
      KeysOfHas(init, p, k);
      if k in KeysOf(init, p) {
        var i :| 0 <= i < |init| && k in Keys(init[i], p);
        assert k in Keys(cs[i], p);
      }
      if i :| 0 <= i < |cs| && k in Keys(cs[i], p) {
        assert i < |init| ==> k in Keys(init[i], p);
      }
    }
  }

  lemma {:induction false} LeafBelow<V>(t: Trie<V>, k: string)
    requires Shaped(t) && t.children != []
    ensures LeafAt(t, k) <==> exists i :: 0 <= i < |t.children| && LeafAt(t.children[i], k)
  {
    var j := ChildFor(t.children, k);
    if i :| 0 <= i < |t.children| && LeafAt(t.children[i], k) {
      assert t.children[i].key <= k;
      ChildIs(t, i, k);
    }
    if LeafAt(t, k) {
      assert LeafAt(t.children[j], k);
    }
  }

  lemma PrefixOfPrefix(a: string, b: string, c: string)
    ensures a <= b && b <= c ==> a <= c
    ensures a <= c && b <= c && |a| <= |b| ==> a <= b
  {
  }

  /** The listing has exactly the leaves that agree with the prefix as far as both go. */
  lemma {:induction false} KeysHas<V>(t: Trie<V>, p: string, k: string)
    requires Shaped(t) && (|t.key| > |p| ==> p <= t.key)
    ensures k in Keys(t, p) <==> LeafAt(t, k) && Compatible(p, k)
    decreases t
  {
    PrefixOfPrefix(t.key, k, p);
    PrefixOfPrefix(p, t.key, k);
    PrefixOfPrefix(t.key, p, k);
    if |t.key| > |p| || t.key <= p {
      if t.children != [] {
        KeysOfHas(t.children, p, k);
        LeafBelow(t, k);
        forall i | 0 <= i < |t.children|
          ensures k in Keys(t.children[i], p) <==> LeafAt(t.children[i], k) && Compatible(p, k)
        {
          KeysHasChild(t, p, k, i);
        }
      } else if t.key <= k {
        NewFinds(t, k);
      }
    }
  }

  lemma {:induction false} KeysHasChild<V>(t: Trie<V>, p: string, k: string, i: nat)
    requires Shaped(t) && i < |t.children| && (|t.key| > |p| ==> p <= t.key)
    requires |t.key| > |p| || t.key <= p
    ensures k in Keys(t.children[i], p) <==> LeafAt(t.children[i], k) && Compatible(p, k)
    decreases t, 0
  {
    var c := t.children[i];
    PrefixOfPrefix(p, t.key, c.key);
    if |c.key| > |p| {
      if |t.key| == |p| {
        assert t.key == p;
      }
    }
    KeysHas(c, p, k);
  }

  /** No key is listed under two children. */
  lemma {:induction false} KeysApart<V>(t: Trie<V>, p: string, k: string, i: nat, m: nat)
    requires Shaped(t) && i < m < |t.children| && (|t.key| > |p| ==> p <= t.key) && (|t.key| > |p| || t.key <= p)
    ensures !(k in Keys(t.children[i], p) && k in Keys(t.children[m], p))
  {
    KeysHasChild(t, p, k, i);
    KeysHasChild(t, p, k, m);
    if LeafAt(t.children[i], k) && LeafAt(t.children[m], k) {
      SamePrefix(t.children[i].key, t.children[m].key, k);
      assert false;
    }
  }

  lemma {:induction false} KeysOnce<V>(t: Trie<V>, p: string)
    requires Shaped(t) && (|t.key| > |p| ==> p <= t.key)
    ensures NoRepeats(Keys(t, p))
    decreases t, 1
  {
    if (|t.key| > |p| || t.key <= p) && t.children != [] {
      KeysOfOnce(t, p, |t.children|);
      assert t.children[..|t.children|] == t.children;
    }
  }

  lemma {:induction false} KeysOfOnce<V>(t: Trie<V>, p: string, n: nat)
    requires Shaped(t) && n <= |t.children| && (|t.key| > |p| ==> p <= t.key) && (|t.key| > |p| || t.key <= p)
    ensures NoRepeats(KeysOf(t.children[..n], p))
    decreases t, 0, n
  {
    if n > 0 {
      var m := n - 1;
      var cs, init, c := t.children[..n], t.children[..m], t.children[m];
      assert cs[..m] == init;
      KeysOfOnce(t, p, m);
      PrefixOfPrefix(p, t.key, c.key);
      KeysOnce(c, p);
      forall k | k in KeysOf(init, p)
        ensures k !in Keys(c, p)
      {
        KeysOfHas(init, p, k);
        var i :| 0 <= i < |init| && k in Keys(init[i], p);
        KeysApart(t, p, k, i, m);
      }
      NoRepeatsJoin(KeysOf(init, p), Keys(c, p));
    }
  }

  /** `k` ends the branch it is on: it was added, or is the root, and no added key goes on from it. */
  predicate Final<V>(es: seq<Pair<V>>, k: string) {
    (k == ROOT_KEY || Added(es, k)) && !Extended(es, k)
  }

  /** `trie_get_keys` after any run lists, once each, the final keys that begin with the prefix or that
      the prefix goes on from. The root's own key is among them only while no other key was added. */
  lemma {:induction false} KeysAfterRun<V>(es: seq<Pair<V>>, p: string, k: string)
    ensures k in Keys(AddAll(es), p) <==> Final(es, k) && (p <= k || k < p)
    ensures NoRepeats(Keys(AddAll(es), p))
  {
    var t := AddAll(es);
    KeysHas(t, p, k);
    KeysOnce(t, p);
    LeafAfterRun(es, k);
  }

  lemma {:induction false} LeafAfterRun<V>(es: seq<Pair<V>>, k: string)
    ensures LeafAt(AddAll(es), k) <==> Final(es, k)
  {
    if k == ROOT_KEY {
      RootLeafAfterRun(es);
    } else {
      RunFinds(es, k);
      if Reached(es, k) && !Extended(es, k) {
        var i :| 0 <= i < |es| && k <= es[i].0;
        assert !(k < es[i].0);
        assert es[i].0 == k;
      }
      if i :| 0 <= i < |es| && es[i].0 == k {
        assert k <= es[i].0;
      }
    }
  }

  lemma {:induction false} RootLeafAfterRun<V>(es: seq<Pair<V>>)
    ensures AddAll(es).children == [] <==> !Extended(es, ROOT_KEY)
    decreases |es|
  {
    if es != [] {
      var init, e := es[..|es| - 1], es[|es| - 1];
      RootLeafAfterRun(init);
      ReachedNext(es, ROOT_KEY);
      AddFinds(AddAll(init), e.0, e.1, ROOT_KEY);
    }
  }

  /** When the listing is what its name says: no added key with the prefix goes on in another, every
      added key that the prefix goes on from does, and some key is not empty, so that the root's null
      key is not listed. */
  ghost predicate Completes<V>(es: seq<Pair<V>>, p: string) {
    && (forall i :: 0 <= i < |es| && p <= es[i].0 ==> !Extended(es, es[i].0))
    && (forall i :: 0 <= i < |es| && es[i].0 < p ==> Extended(es, es[i].0))
    && Extended(es, ROOT_KEY)
  }

  /** The listing is exactly the added keys with the prefix. A root without children lists its null key,
      which is no added key, not even the empty one. */
  ghost predicate ListsCompletions<V>(es: seq<Pair<V>>, p: string) {
    && AddAll(es).children != []
    && forall k :: k in Keys(AddAll(es), p) <==> Added(es, k) && p <= k
  }

  lemma {:induction false} KeysAreCompletions<V>(es: seq<Pair<V>>, p: string)
    ensures ListsCompletions(es, p) <==> Completes(es, p)
  {
    RootLeafAfterRun(es);
    forall k
      ensures k in Keys(AddAll(es), p) <==> Final(es, k) && (p <= k || k < p)
    {
      KeysAfterRun(es, p, k);
    }
    if ListsCompletions(es, p) {
      forall i | 0 <= i < |es|
        ensures p <= es[i].0 ==> !Extended(es, es[i].0)
        ensures es[i].0 < p ==> Extended(es, es[i].0)
      {
        assert Added(es, es[i].0);
      }
    }
    if Completes(es, p) {
      forall k
        ensures k in Keys(AddAll(es), p) <==> Added(es, k) && p <= k
      {
        if i :| 0 <= i < |es| && es[i].0 == k {
          assert p <= k ==> !Extended(es, es[i].0);
        }
      }
    }
  }

  /** For prefix-free keys: exactly when no key is a proper prefix of the prefix. */
  lemma {:induction false} PrefixFreeCompletions<V>(es: seq<Pair<V>>, p: string)
    requires PrefixFree(es) && es != []
    ensures ListsCompletions(es, p) <==> forall i :: 0 <= i < |es| ==> !(es[i].0 < p)
  {
    KeysAreCompletions(es, p);
    assert ROOT_KEY < es[0].0;
  }

  lemma {:induction false} NewBranch<V>(t: Trie<V>, key: string, val: V, child: string)
    requires t.children == [] && t.key < key && child == key[..|t.key| + 1]
    ensures AddTo(t, key, val) == t.(children := [AddTo(Node(child, Some(val), []), key, val)])
  {
  }

  lemma {:induction false} OneKeyTrie(v: int)
    ensures AddAll([("ab", v)]) == Node("", None, [Node("a", Some(v), [Node("ab", Some(v), [])])])
  {
    var es: seq<Pair<int>> := [("ab", v)];
    assert es[..0] == [];
    assert "ab"[..1] == "a" && "ab"[..2] == "ab";
    NewBranch(Node("a", Some(v), []), "ab", v, "ab");
    NewBranch(EmptyTrie(), "ab", v, "a");
    assert AddAll(es) == AddTo(EmptyTrie(), "ab", v);
  }

  lemma {:induction false} KeysOfOne<V>(c: Trie<V>, prefix: string)
    ensures KeysOf([c], prefix) == Keys(c, prefix)
  {
    var cs: seq<Trie<V>> := [c];
    assert cs[..0] == [];
  }

  /** A key too short for the prefix is listed: completing `abc` among the keys {`ab`} yields `ab`. */
  lemma {:induction false} ShortKeyListed(v: int)
    ensures Keys(AddAll([("ab", v)]), "abc") == ["ab"]
  {
    OneKeyTrie(v);
    var leaf := Node("ab", Some(v), []);
    KeysOfOne(leaf, "abc");
    KeysOfOne(Node("a", Some(v), [leaf]), "abc");
  }

  /** An added key that another added key goes on from is not found. */
  lemma {:induction false} ShadowedKeyNotFound(u: int, v: int)
    ensures Get(AddAll([("a", u), ("ab", v)]), "a") == None
    ensures FirstAdd([("a", u), ("ab", v)], "a") == Some(u)
  {
    var es: seq<Pair<int>> := [("a", u), ("ab", v)];
    assert es[1].0 == "ab" && "a" < "ab";
    GetAfterRun(es, "a");
    var one: seq<Pair<int>> := [("a", u)];
    assert one[..0] == [] && FirstAdd(one, "a") == Some(u);
    assert es[..1] == one;
  }

  /** A trie without keys lists the key of its root, which is none. */
  lemma {:induction false} EmptyTrieLists<V>(p: string)
    ensures Keys<V>(EmptyTrie(), p) == [ROOT_KEY]
  {
  }

  /** Adding the empty key stores nothing: the listing is still the null key of the root. */
  lemma {:induction false} EmptyKeyNotListed<V>(v: V)
    ensures AddAll([(ROOT_KEY, v)]) == EmptyTrie() && Keys(AddAll([(ROOT_KEY, v)]), ROOT_KEY) == [ROOT_KEY]
    ensures !ListsCompletions([(ROOT_KEY, v)], ROOT_KEY)
  {
    var es: seq<Pair<V>> := [(ROOT_KEY, v)];
    assert es[..0] == [];
  }
}
