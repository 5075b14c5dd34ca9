/** The order in which `trie_get_keys` lists: of two keys, the one first whose branch, where the two
    part, was added first. */
module TrieOrder {
  import opened LinkedList
  import opened TrieModel

  /** The first addition whose key begins with `k`, or their number. */
  function FirstWith<V>(es: seq<Pair<V>>, k: string): (i: nat)
    ensures i <= |es| && (i < |es| ==> k <= es[i].0)
    ensures forall j :: 0 <= j < i ==> !(k <= es[j].0)
  {
    if es == [] || k <= es[0].0 then 0 else 1 + FirstWith(es[1..], k)
  }

  lemma {:induction false} FirstWithIs<V>(es: seq<Pair<V>>, k: string, n: nat)
    requires n < |es| && k <= es[n].0 && forall j :: 0 <= j < n ==> !(k <= es[j].0)
    ensures FirstWith(es, k) == n
  {
    var i := FirstWith(es, k);
  }

  predicate PartAt<V>(es: seq<Pair<V>>, a: string, b: string, m: nat) {
    && m < |a| && m < |b| && a[..m] == b[..m] && a[m] != b[m]
    && FirstWith(es, a[..m + 1]) < FirstWith(es, b[..m + 1])
  }

  /** Where the two keys part, the branch of `a` was added before that of `b`. */
  predicate Before<V>(es: seq<Pair<V>>, a: string, b: string) {
    exists m :: 0 <= m < |a| && PartAt(es, a, b, m)
  }

  predicate HasChild<V>(cs: seq<Trie<V>>, k: string) {
    exists i :: 0 <= i < |cs| && cs[i].key <= k
  }

  /** Every one of the first `n` additions below `key` went to one of the children. */
  predicate Covered<V>(es: seq<Pair<V>>, n: nat, key: string, cs: seq<Trie<V>>)
    requires n <= |es|
  {
    forall j :: 0 <= j < n && key < es[j].0 ==> HasChild(cs, es[j].0)
  }

  /** The children stand in the order of the additions that made them, all among the first `n`. */
  predicate Ranked<V>(es: seq<Pair<V>>, n: nat, cs: seq<Trie<V>>) {
    && (forall i :: 0 <= i < |cs| ==> FirstWith(es, cs[i].key) < n)
    && (forall i, j :: 0 <= i < j < |cs| ==> FirstWith(es, cs[i].key) < FirstWith(es, cs[j].key))
  }

  /** The first `n` additions are in the trie, and the children of every node stand in order. */
  ghost predicate Grown<V>(es: seq<Pair<V>>, n: nat, t: Trie<V>)
    requires n <= |es|
  {
    && Covered(es, n, t.key, t.children) && Ranked(es, n, t.children)
    && (forall i :: 0 <= i < |t.children| ==> Grown(es, n, t.children[i]))
  }

  /** A key that does not go below a node changes nothing there. */
  lemma {:induction false} GrownBeside<V>(es: seq<Pair<V>>, n: nat, t: Trie<V>)
    requires n < |es| && Shaped(t) && Grown(es, n, t) && !(t.key < es[n].0)
    ensures Grown(es, n + 1, t)
    decreases t
  {
    forall i | 0 <= i < |t.children|
      ensures Grown(es, n + 1, t.children[i])
    {
      assert ChildOf(t.key, t.children[i]);
      PrefixOfPrefix(t.key, t.children[i].key, es[n].0);
      GrownBeside(es, n, t.children[i]);
    }
  }

  /** The children the key does not go to. */
  lemma {:induction false} Beside<V>(es: seq<Pair<V>>, n: nat, t: Trie<V>, j: nat, key: string)
    requires n < |es| && es[n].0 == key && Shaped(t) && Grown(es, n, t)
    requires j < |t.children| && j != ChildFor(t.children, key)
    ensures Grown(es, n + 1, t.children[j])
  {
    if t.children[j].key <= key {
      ChildIs(t, j, key);
    }
    GrownBeside(es, n, t.children[j]);
  }

  lemma {:induction false} RankedAfter<V>(es: seq<Pair<V>>, n: nat, n1: nat, cs: seq<Trie<V>>, i: nat, c: Trie<V>)
    requires Ranked(es, n, cs) && n <= n1 && i < |cs| && c.key == cs[i].key
    ensures Ranked(es, n1, cs[i := c])
  {
    var rs := cs[i := c];
    assert forall j :: 0 <= j < |rs| ==> rs[j].key == cs[j].key;
  }

  lemma {:induction false} RankedMore<V>(es: seq<Pair<V>>, n: nat, n1: nat, cs: seq<Trie<V>>, c: Trie<V>)
    requires Ranked(es, n, cs) && FirstWith(es, c.key) == n && n1 == n + 1
    ensures Ranked(es, n1, cs + [c])
  {
    var rs := cs + [c];
    forall i, j | 0 <= i < j < |rs|
      ensures FirstWith(es, rs[i].key) < FirstWith(es, rs[j].key)
    {
      assert rs[i] == cs[i];
    }
  }

  /** `rs` has the children's keys, and one of them is on the way to the new addition. */
  lemma {:induction false} CoveredMore<V>(es: seq<Pair<V>>, n: nat, n1: nat, key: string, cs: seq<Trie<V>>,
                                          rs: seq<Trie<V>>)
    requires n < |es| && n1 == n + 1 && Covered(es, n, key, cs) && HasChild(rs, es[n].0)
    requires |cs| <= |rs| && forall i :: 0 <= i < |cs| ==> rs[i].key == cs[i].key
    ensures Covered(es, n1, key, rs)
  {
    forall j | 0 <= j < n && key < es[j].0
      ensures HasChild(rs, es[j].0)
    {
      var k :| 0 <= k < |cs| && cs[k].key <= es[j].0;
      assert rs[k].key <= es[j].0;
    }
  }

  lemma {:induction false} CoveredAfter<V>(es: seq<Pair<V>>, n: nat, n1: nat, key: string, cs: seq<Trie<V>>, i: nat,
                                           c: Trie<V>)
    requires n < |es| && n1 == n + 1 && Covered(es, n, key, cs) && i < |cs| && c.key == cs[i].key <= es[n].0
    ensures Covered(es, n1, key, cs[i := c])
  {
    var rs := cs[i := c];
    assert forall j :: 0 <= j < |cs| ==> rs[j].key == cs[j].key;
    assert rs[i].key <= es[n].0;
    CoveredMore(es, n, n1, key, cs, rs);
  }

  lemma {:induction false} OthersGrown<V>(es: seq<Pair<V>>, n: nat, n1: nat, t: Trie<V>, i: nat)
    requires n < |es| && n1 == n + 1 && Shaped(t) && Grown(es, n, t) && i == ChildFor(t.children, es[n].0)
    ensures forall j :: 0 <= j < |t.children| && j != i ==> Grown(es, n1, t.children[j])
  {
    forall j | 0 <= j < |t.children| && j != i
      ensures Grown(es, n1, t.children[j])
    {
      Beside(es, n, t, j, es[n].0);
    }
  }

  /** The child on the way to the new addition has changed. */
  lemma {:induction false} ReplaceGrown<V>(es: seq<Pair<V>>, n: nat, n1: nat, t: Trie<V>, i: nat, c: Trie<V>,
                                           r: Trie<V>)
    requires n < |es| && n1 == n + 1 && Shaped(t) && Grown(es, n, t) && i < |t.children|
    requires i == ChildFor(t.children, es[n].0) && Grown(es, n1, c) && c.key == t.children[i].key
    requires r == t.(children := t.children[i := c])
    ensures Grown(es, n1, r)
  {
    var cs := t.children;
    OthersGrown(es, n, n1, t, i);
    RankedAfter(es, n, n1, cs, i, c);
    CoveredAfter(es, n, n1, t.key, cs, i, c);
  }

  /** The new addition made a child. */
  lemma {:induction false} AppendGrown<V>(es: seq<Pair<V>>, n: nat, n1: nat, t: Trie<V>, c: Trie<V>, r: Trie<V>)
    requires n < |es| && n1 == n + 1 && Shaped(t) && Grown(es, n, t) && ChildFor(t.children, es[n].0) == |t.children|
    requires Grown(es, n1, c) && c.key <= es[n].0 && FirstWith(es, c.key) == n
    requires r == t.(children := t.children + [c])
    ensures Grown(es, n1, r)
  {
    var cs, rs := t.children, r.children;
    OthersGrown(es, n, n1, t, |cs|);
    RankedMore(es, n, n1, cs, c);
    assert rs[|cs|].key <= es[n].0;
    CoveredMore(es, n, n1, t.key, cs, rs);
  }

  lemma AddBelowIs<V>(t: Trie<V>, key: string, val: V, i: nat, c: Trie<V>)
    requires Shaped(t) && t.key <= key && |t.key| < |key| && i == ChildFor(t.children, key) < |t.children|
    requires c == AddTo(t.children[i], key, val)
    ensures AddTo(t, key, val) == t.(children := t.children[i := c]) && c.key == t.children[i].key
  {
  }

  lemma AddNewIs<V>(t: Trie<V>, key: string, val: V, child: string, c: Trie<V>)
    requires Shaped(t) && t.key <= key && |t.key| < |key| && ChildFor(t.children, key) == |t.children|
    requires child == key[..|t.key| + 1] && c == AddTo(Node(child, Some(val), []), key, val)
    ensures AddTo(t, key, val) == t.(children := t.children + [c]) && c.key == child
  {
  }

  /** No earlier addition went where the new child is. */
  lemma {:induction false} NewIsFirst<V>(es: seq<Pair<V>>, n: nat, t: Trie<V>, key: string, child: string)
    requires n < |es| && es[n].0 == key && Shaped(t) && t.key <= key && |t.key| < |key| && Grown(es, n, t)
    requires ChildFor(t.children, key) == |t.children| && child == key[..|t.key| + 1]
    ensures forall j :: 0 <= j < n ==> !(child <= es[j].0)
    ensures FirstWith(es, child) == n
  {
    forall j | 0 <= j < n
      ensures !(child <= es[j].0)
    {
      if child <= es[j].0 {
        NotBelow(t, key, child, es[j].0);
      }
    }
    FirstWithIs(es, child, n);
  }

  lemma {:induction false} NotBelow<V>(t: Trie<V>, key: string, child: string, k: string)
    requires Shaped(t) && t.key <= key && |t.key| < |key| && child == key[..|t.key| + 1] && child <= k
    requires ChildFor(t.children, key) == |t.children|
    ensures t.key < k && !HasChild(t.children, k)
  {
    PrefixOfPrefix(t.key, child, k);
    if i :| 0 <= i < |t.children| && t.children[i].key <= k {
      assert ChildOf(t.key, t.children[i]);
      SamePrefix(t.children[i].key, child, k);
    }
  }

  /** An addition keeps the order at every node. */
  lemma {:induction false} AddGrown<V>(es: seq<Pair<V>>, n: nat, n1: nat, t: Trie<V>, key: string, val: V)
    requires n < |es| && n1 == n + 1 && es[n].0 == key && Shaped(t) && t.key <= key && Grown(es, n, t)
    ensures Grown(es, n1, AddTo(t, key, val))
    decreases |key| - |t.key|
  {
    var i := ChildFor(t.children, key);
    if |t.key| == |key| {
      GrownBeside(es, n, t);
    } else if i < |t.children| {
      var c := AddTo(t.children[i], key, val);
      AddGrown(es, n, n1, t.children[i], key, val);
      AddBelowIs(t, key, val, i, c);
      ReplaceGrown(es, n, n1, t, i, c, AddTo(t, key, val));
    } else {
      var child := key[..|t.key| + 1];
      var c := AddTo(Node(child, Some(val), []), key, val);
      NewIsFirst(es, n, t, key, child);
      AddGrown(es, n, n1, Node(child, Some(val), []), key, val);
      AddNewIs(t, key, val, child, c);
      AppendGrown(es, n, n1, t, c, AddTo(t, key, val));
    }
  }

  lemma {:induction false} RunGrown<V>(es: seq<Pair<V>>, n: nat)
    requires n <= |es|
    ensures Grown(es, n, AddAll(es[..n]))
    decreases n
  {
    if n > 0 {
      var m := n - 1;
      RunGrown(es, m);
      assert es[..n][..m] == es[..m];
      AddGrown(es, m, n, AddAll(es[..m]), es[m].0, es[m].1);
    }
  }

  // ---- The listing ----

  lemma {:induction false} ListedBelow<V>(t: Trie<V>, p: string, k: string)
    requires Shaped(t) && k in Keys(t, p)
    ensures t.key <= k
    decreases t
  {
    if t.children != [] {
      KeysOfHas(t.children, p, k);
      var i :| 0 <= i < |t.children| && k in Keys(t.children[i], p);
      assert ChildOf(t.key, t.children[i]);
      ListedBelow(t.children[i], p, k);
    }
  }

  lemma {:induction false} StringsPart(key: string, ka: string, kb: string, a: string, b: string, m: nat)
    requires m == |key| && |ka| == |kb| == m + 1 && key <= ka && key <= kb && ka <= a && kb <= b && ka != kb
    ensures m < |a| && m < |b| && a[..m] == b[..m] && a[..m + 1] == ka && b[..m + 1] == kb && a[m] != b[m]
  {
    assert a[..m] == ka[..m] == key && b[..m] == kb[..m] == key;
    assert a[m] == ka[m] && b[m] == kb[m];
    assert ka == key + [ka[m]] && kb == key + [kb[m]];
  }

  lemma {:induction false} PartHere<V>(es: seq<Pair<V>>, n: nat, t: Trie<V>, i: nat, j: nat, a: string, b: string)
    requires n <= |es| && Shaped(t) && Grown(es, n, t) && i < j < |t.children|
    requires t.children[i].key <= a && t.children[j].key <= b
    ensures Before(es, a, b)
  {
    var ci, cj := t.children[i], t.children[j];
    assert ChildOf(t.key, ci) && ChildOf(t.key, cj);
    StringsPart(t.key, ci.key, cj.key, a, b, |t.key|);
    assert PartAt(es, a, b, |t.key|);
  }

  predicate InOrder<V>(es: seq<Pair<V>>, ks: seq<string>) {
    forall i, j :: 0 <= i < j < |ks| ==> Before(es, ks[i], ks[j])
  }

  lemma {:induction false} OrderJoins<V>(es: seq<Pair<V>>, a: seq<string>, b: seq<string>)
    requires InOrder(es, a) && InOrder(es, b) && forall x, y :: x in a && y in b ==> Before(es, x, y)
    ensures InOrder(es, a + b)
  {
    var s := a + b;
    forall i, j | 0 <= i < j < |s|
      ensures Before(es, s[i], s[j])
    {
      if i < |a| <= j {
        assert s[i] in a && s[j] in b;
      }
    }
  }

  lemma {:induction false} ListedInOrder<V>(es: seq<Pair<V>>, n: nat, t: Trie<V>, p: string)
    requires n <= |es| && Shaped(t) && Grown(es, n, t)
    ensures InOrder(es, Keys(t, p))
    decreases t, 1
  {
    if t.children != [] {
      ChildrenInOrder(es, n, t, p, |t.children|);
      assert t.children[..|t.children|] == t.children;
    }
  }

  lemma {:induction false} ChildrenInOrder<V>(es: seq<Pair<V>>, n: nat, t: Trie<V>, p: string, c: nat)
    requires n <= |es| && Shaped(t) && Grown(es, n, t) && c <= |t.children|
    ensures InOrder(es, KeysOf(t.children[..c], p))
    decreases t, 0, c
  {
    if c > 0 {
      var m := c - 1;
      var init, last := t.children[..m], t.children[m];
      assert t.children[..c][..m] == init;
      ChildrenInOrder(es, n, t, p, m);
      ListedInOrder(es, n, last, p);
      forall x, y | x in KeysOf(init, p) && y in Keys(last, p)
        ensures Before(es, x, y)
      {
        KeysOfHas(init, p, x);
        var i :| 0 <= i < |init| && x in Keys(init[i], p);
        ListedBelow(t.children[i], p, x);
        ListedBelow(last, p, y);
        PartHere(es, n, t, i, m, x, y);
      }
      OrderJoins(es, KeysOf(init, p), Keys(last, p));
    }
  }

  /** After any run, of two listed keys the one comes first whose branch, where they part, was added
      first. */
  lemma {:induction false} KeysInOrder<V>(es: seq<Pair<V>>, p: string)
    ensures var ks := Keys(AddAll(es), p);
            forall i, j :: 0 <= i < j < |ks| ==> Before(es, ks[i], ks[j])
  {
    RunGrown(es, |es|);
    assert es[..|es|] == es;
    ListedInOrder(es, |es|, AddAll(es), p);
  }
}
