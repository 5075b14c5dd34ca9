/** src/struct/trie.c as it is written: nodes with a list of children that additions extend. */
module PrefixTrie {
  import opened LinkedList
  import opened Footprints
  import opened TrieModel

  /** The node `n` and everything below it, within the objects `foot`, is the trie `t`. */
  ghost predicate Holds<V>(n: TrieNode<V>, foot: set<object>, t: Trie<V>)
    reads foot
    decreases t, 1
  {
    && n in foot && n.key == t.key && n.val == t.val
    && Union(n.feet) <= foot && n !in Union(n.feet)
    && KidsHold(n.children, n.feet, t.children)
  }

  ghost predicate KidsHold<V>(cs: seq<TrieNode<V>>, feet: seq<set<object>>, ts: seq<Trie<V>>)
    reads Union(feet)
    decreases ts, 0
  {
    && |cs| == |feet| == |ts| && Disjoint(feet)
    && forall i :: 0 <= i < |cs| ==> Holds(cs[i], feet[i], ts[i])
  }

  lemma {:induction false} OneKidHolds<V>(cs: seq<TrieNode<V>>, feet: seq<set<object>>, ts: seq<Trie<V>>,
                                          i: nat, foot: set<object>, t: Trie<V>)
    requires |cs| == |feet| == |ts| && Disjoint(feet) && i < |cs| && (foot - feet[i]) !! Union(feet)
    requires forall j :: 0 <= j < |cs| && j != i ==> Holds(cs[j], feet[j], ts[j])
    requires Holds(cs[i], foot, t)
    ensures KidsHold(cs, feet[i := foot], ts[i := t])
  {
    FootChange(feet, i, foot);
  }

  lemma {:induction false} OneMoreHolds<V>(cs: seq<TrieNode<V>>, feet: seq<set<object>>, ts: seq<Trie<V>>,
                                           c: TrieNode<V>, foot: set<object>, t: Trie<V>)
    requires KidsHold(cs, feet, ts) && Holds(c, foot, t) && foot !! Union(feet)
    ensures KidsHold(cs + [c], feet + [foot], ts + [t])
  {
    FootMore(feet, foot);
  }

  lemma AddToNew<V>(t: Trie<V>, key: string, val: V, c: Trie<V>)
    requires Shaped(t) && t.key < key && ChildFor(t.children, key) == |t.children|
    requires c == Node(key[..|t.key| + 1], Some(val), [])
    ensures c.key <= key && AddTo(t, key, val) == t.(children := t.children + [AddTo(c, key, val)])
  {
  }

  function Depth(n: string, key: string): nat {
    if |n| <= |key| then |key| - |n| else 0
  }

  class TrieNode<V> {
    const key: string
    const val: Option<V>
    var children: seq<TrieNode<V>>
    ghost var feet: seq<set<object>>

    /** `trie_make_node` */
    constructor (key: string, val: Option<V>)
      ensures Holds(this, {this}, Node(key, val, [])) && this.key == key
    {
      this.key, this.val, children, feet := key, val, [], [];
    }

    /** `trie_add`: -1 when the key does not begin with this node's. */
    method Add(key: string, val: V, ghost foot: set<object>, ghost t: Trie<V>)
      returns (r: int, ghost foot': set<object>)
      requires Holds(this, foot, t) && Shaped(t)
      modifies foot
      ensures foot <= foot' && fresh(foot' - foot)
      ensures if t.key <= key then r == 0 && Holds(this, foot', AddTo(t, key, val))
              else r == -1 && foot' == foot && unchanged(foot)
      decreases Depth(this.key, key), 2
    {
      foot' := foot;
      if !(this.key <= key) {
        return -1, foot;
      }
      if |this.key| == |key| {
        return 0, foot;
      }
      var found;
      found, foot' := AddToChildren(key, val, foot, t);
      if found {
        return 0, foot';
      }
      r, foot' := AddChild(key, val, foot, t);
    }

    /** The loop over the children: at most one takes the key. */
    method AddToChildren(key: string, val: V, ghost foot: set<object>, ghost t: Trie<V>)
      returns (found: bool, ghost foot': set<object>)
      requires Holds(this, foot, t) && Shaped(t) && t.key < key
      modifies foot
      ensures foot <= foot' && fresh(foot' - foot)
      ensures found <==> ChildFor(t.children, key) < |t.children|
      ensures if found then Holds(this, foot', AddTo(t, key, val)) else foot' == foot && unchanged(foot)
      decreases Depth(this.key, key), 1
    {
      foot' := foot;
      var i := 0;
      while i < |children|
        invariant i <= |children| && unchanged(foot)
        invariant forall j :: 0 <= j < i ==> !(t.children[j].key <= key)
      {
        found, foot' := TryChild(i, key, val, foot, t);
        if found {
          ChildIs(t, i, key);
          return;
        }
        i := i + 1;
      }
      return false, foot;
    }

    /** An addition leaves nodes elsewhere as they are. */
    method AddBeside(key: string, val: V, ghost foot: set<object>, ghost t: Trie<V>,
                     ghost cs: seq<TrieNode<V>>, ghost otherFeet: seq<set<object>>, ghost ts: seq<Trie<V>>)
      returns (r: int, ghost foot': set<object>)
      requires Holds(this, foot, t) && Shaped(t) && t.key <= key
      requires KidsHold(cs, otherFeet, ts) && foot !! Union(otherFeet)
      modifies foot
      ensures foot <= foot' && fresh(foot' - foot) && r == 0 && Holds(this, foot', AddTo(t, key, val))
      ensures KidsHold(cs, otherFeet, ts) && foot' !! Union(otherFeet)
      decreases Depth(this.key, key), 3
    {
      r, foot' := Add(key, val, foot, t);
    }

    method TryChild(i: nat, key: string, val: V, ghost foot: set<object>, ghost t: Trie<V>)
      returns (found: bool, ghost foot': set<object>)
      requires Holds(this, foot, t) && Shaped(t) && t.key < key && i < |t.children|
      modifies foot
      ensures foot <= foot' && fresh(foot' - foot)
      ensures found <==> t.children[i].key <= key
      ensures if found then Holds(this, foot', t.(children := t.children[i := AddTo(t.children[i], key, val)]))
              else foot' == foot && unchanged(foot)
      decreases Depth(this.key, key), 0
    {
      UnionHas(feet, i);
      assert Holds(children[i], feet[i], t.children[i]);
      assert ChildOf(t.key, t.children[i]);
      ghost var f;
      var r;
      r, f := children[i].Add(key, val, feet[i], t.children[i]);
      if r != 0 {
        return false, foot;
      }
      forall j | 0 <= j < |children| && j != i
        ensures Holds(children[j], feet[j], t.children[j])
      {
        UnionHas(feet, j);
        assert feet[i] !! feet[j];
      }
      FootChange(feet, i, f);
      OneKidHolds(children, feet, t.children, i, f, AddTo(t.children[i], key, val));
      feet := feet[i := f];
      return true, foot + f;
    }

    /** The new node, first in the list of children, then with the rest of the key below it. */
    method PushChild(key: string, val: V, ghost foot: set<object>, ghost t: Trie<V>, ghost c: Trie<V>)
      returns (r: int, node: TrieNode<V>, ghost f: set<object>)
      requires Holds(this, foot, t) && t.key < key && c == Node(key[..|t.key| + 1], Some(val), [])
      modifies this`children
      ensures r == 0 && children == old(children) + [node] && c.key <= key
      ensures KidsHold(old(children), feet, t.children) && Holds(node, f, AddTo(c, key, val)) && fresh(f)
      decreases Depth(this.key, key), 0
    {
      node := new TrieNode(key[..|this.key| + 1], Some(val));
      ghost var kids := children;
      children := children + [node];
      r, f := node.AddBeside(key, val, {node}, c, kids, feet, t.children);
    }

    /** A new child, one character longer than this node, and the rest of the key below it. */
    method AddChild(key: string, val: V, ghost foot: set<object>, ghost t: Trie<V>)
      returns (r: int, ghost foot': set<object>)
      requires Holds(this, foot, t) && Shaped(t) && t.key < key && ChildFor(t.children, key) == |t.children|
      modifies foot
      ensures foot <= foot' && fresh(foot' - foot) && r == 0 && Holds(this, foot', AddTo(t, key, val))
      decreases Depth(this.key, key), 1
    {
      ghost var kids, f, c := children, {}, Node(key[..|this.key| + 1], Some(val), []);
      var node;
      r, node, f := PushChild(key, val, foot, t, c);
      foot' := foot + f;
      OneMoreHolds(kids, feet, t.children, node, f, AddTo(c, key, val));
      FootMore(feet, f);
      feet := feet + [f];
      AddToNew(t, key, val, c);
    }

    /** `trie_get_subtrie` */
    method GetSubtrie(key: string, ghost foot: set<object>, ghost t: Trie<V>)
      returns (sub: TrieNode?<V>, ghost sfoot: set<object>)
      requires Holds(this, foot, t)
      ensures match GetSub(t, key)
              case None => sub == null
              case Some(n) => sub != null && sub.key == n.key && sub.val == n.val && sfoot <= foot
                              && Holds(sub, sfoot, n)
      decreases t
    {
      sfoot := foot;
      if !(this.key <= key) {
        return null, foot;
      }
      if |children| == 0 {
        return if |this.key| == |key| then this else null, foot;
      }
      var i := 0;
      while i < |children|
        invariant i <= |children| && FirstSub(t.children[i..], key) == FirstSub(t.children, key)
      {
        UnionHas(feet, i);
        assert t.children[i..][1..] == t.children[i + 1..];
        sub, sfoot := children[i].GetSubtrie(key, feet[i], t.children[i]);
        if sub != null {
          return;
        }
        i := i + 1;
      }
      return null, foot;
    }

    /** `trie_get` */
    method Get(key: string, ghost foot: set<object>, ghost t: Trie<V>) returns (val: Option<V>)
      requires Holds(this, foot, t)
      ensures val == TrieModel.Get(t, key)
    {
      var sub, sfoot := GetSubtrie(key, foot, t);
      if sub == null {
        return None;
      }
      return sub.val;
    }

    /** `trie_get_keys` */
    method GetKeys(prefix: string, list: List<string>, ghost keys: seq<string>, ghost lfoot: set<object>,
                   ghost foot: set<object>, ghost t: Trie<V>)
      returns (ghost lfoot': set<object>)
      requires Holds(this, foot, t) && Lists(list, lfoot, keys) && foot !! lfoot
      modifies lfoot
      ensures Lists(list, lfoot', keys + Keys(t, prefix)) && lfoot <= lfoot' && fresh(lfoot' - lfoot)
      decreases t
    {
      lfoot' := lfoot;
      if |this.key| <= |prefix| && !(this.key <= prefix) {
        assert keys + [] == keys;
        return;
      }
      if |children| == 0 {
        lfoot' := Append(list, this.key, lfoot, keys);
        return;
      }
      var i := 0;
      assert t.children[..0] == [] && keys + [] == keys;
      while i < |children|
        invariant i <= |children| && Holds(this, foot, t) && foot !! lfoot'
        invariant Lists(list, lfoot', keys + KeysOf(t.children[..i], prefix))
        invariant lfoot <= lfoot' && fresh(lfoot' - lfoot)
      {
        UnionHas(feet, i);
        KeysNext(t.children, i, prefix, keys);
        lfoot' := children[i].GetKeys(prefix, list, keys + KeysOf(t.children[..i], prefix), lfoot', feet[i],
                                      t.children[i]);
        i := i + 1;
      }
      assert t.children[..i] == t.children;
    }
  }

  /** A trie filled by any run of `trie_add`. */
  method Fill<V>(es: seq<Pair<V>>) returns (root: TrieNode<V>, ghost foot: set<object>)
    ensures fresh(foot) && Holds(root, foot, AddAll(es))
  {
    root := new TrieNode(ROOT_KEY, None);
    foot := {root};
    assert es[..0] == [];
    var i := 0;
    while i < |es|
      invariant i <= |es| && fresh(foot) && Holds(root, foot, AddAll(es[..i]))
    {
      AddNext(es, i);
      var r;
      r, foot := root.Add(es[i].0, es[i].1, foot, AddAll(es[..i]));
      i := i + 1;
    }
    assert es[..i] == es;
  }

  lemma AddNext<V>(es: seq<Pair<V>>, i: nat)
    requires i < |es|
    ensures AddAll(es[..i + 1]) == AddTo(AddAll(es[..i]), es[i].0, es[i].1)
  {
    assert es[..i + 1][..i] == es[..i];
  }

  /** After any run a look-up finds the first value added for the key, unless the key is empty or
      another added key goes on from it. */
  method FillAndGet<V>(es: seq<Pair<V>>, key: string) returns (val: Option<V>)
    ensures val == if key != ROOT_KEY && !Extended(es, key) then FirstAdd(es, key) else None
  {
    var root, foot := Fill(es);
    val := root.Get(key, foot, AddAll(es));
    GetAfterRun(es, key);
  }

  lemma KeysNext<V>(cs: seq<Trie<V>>, i: nat, prefix: string, keys: seq<string>)
    requires i < |cs|
    ensures keys + KeysOf(cs[..i + 1], prefix) == keys + KeysOf(cs[..i], prefix) + Keys(cs[i], prefix)
  {
    assert cs[..i + 1][..i] == cs[..i];
  }

  /** A list within the objects `foot`. */
  ghost predicate Lists(list: List<string>, foot: set<object>, keys: seq<string>)
    reads foot
  {
    list in foot && (forall e :: e in list.nodes ==> e in foot) && list.Valid() && list.contents == keys
  }

  method Append(list: List<string>, key: string, ghost foot: set<object>, ghost keys: seq<string>)
    returns (ghost foot': set<object>)
    requires Lists(list, foot, keys)
    modifies foot
    ensures Lists(list, foot', keys + [key]) && foot <= foot' && fresh(foot' - foot)
  {
    ghost var e := list.Push(key);
    foot' := foot + {e};
  }
}
