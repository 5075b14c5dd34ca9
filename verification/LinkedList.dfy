/** The doubly linked list of src/struct/list.c. */
module LinkedList {
  import opened Sequences

  datatype Option<T> = None | Some(value: T)

  class Elem<T> {
    var prev: Elem?<T>
    var next: Elem?<T>
    var val: T

    constructor (val: T)
      ensures this.val == val && prev == null && next == null
    {
      this.val, prev, next := val, null, null;
    }
  }

  function After<T>(s: seq<Elem<T>>, i: nat): Elem?<T> {
    if i + 1 < |s| then s[i + 1] else null
  }

  function Before<T>(s: seq<Elem<T>>, i: nat): Elem?<T> {
    if 0 < i <= |s| then s[i - 1] else null
  }

  /** Each element points to its neighbours, the first and the last to nothing. */
  ghost predicate Chained<T>(s: seq<Elem<T>>)
    reads s`next, s`prev
  {
    forall i :: 0 <= i < |s| ==> LinkedAt(s, i)
  }

  ghost predicate LinkedAt<T>(s: seq<Elem<T>>, i: nat)
    requires i < |s|
    reads s`next, s`prev
  {
    s[i].next == After(s, i) && s[i].prev == Before(s, i)
  }

  /** The elements hold these values. */
  ghost predicate Carries<T>(s: seq<Elem<T>>, vs: seq<T>)
    reads s`val
  {
    |vs| == |s| && forall i :: 0 <= i < |s| ==> s[i].val == vs[i]
  }

  // ---- Sequences of elements, before and after ----

  lemma {:induction false} PushedAt<T>(s: seq<Elem<T>>, e: Elem<T>, i: nat)
    requires i <= |s|
    ensures (s + [e])[i] == if i < |s| then s[i] else e
    ensures Before(s + [e], i) == Before(s, i)
    ensures After(s + [e], i) == if i + 1 == |s| then e else After(s, i)
  {
  }

  lemma {:induction false} UnshiftedAt<T>(s: seq<Elem<T>>, e: Elem<T>, i: nat)
    requires i <= |s|
    ensures ([e] + s)[i] == if i > 0 then s[i - 1] else e
    ensures After([e] + s, i) == if i > 0 then After(s, i - 1) else if |s| > 0 then s[0] else null
    ensures Before([e] + s, i) == if i == 0 then null else if i == 1 then e else Before(s, i - 1)
  {
  }

  lemma {:induction false} RemovedAt<T>(s: seq<Elem<T>>, i: nat, j: nat)
    requires i < |s| && j < |s| - 1
    ensures Without(s, i)[j] == if j < i then s[j] else s[j + 1]
    ensures After(Without(s, i), j) == if j + 1 == i then After(s, i) else After(s, if j < i then j else j + 1)
    ensures Before(Without(s, i), j) == if j == i then Before(s, i) else Before(s, if j < i then j else j + 1)
  {
  }

  lemma {:induction false} CarriesMore<T>(s: seq<Elem<T>>, vs: seq<T>, e: Elem<T>)
    requires Carries(s, vs)
    ensures Carries(s + [e], vs + [e.val]) && Carries([e] + s, [e.val] + vs)
  {
  }

  lemma {:induction false} CarriesWithout<T>(s: seq<Elem<T>>, vs: seq<T>, i: nat)
    requires Carries(s, vs) && i < |s|
    ensures Carries(Without(s, i), Without(vs, i))
  {
    forall j | 0 <= j < |s| - 1
      ensures Without(s, i)[j].val == Without(vs, i)[j]
    {
      WithoutAt(vs, i, j);
      WithoutAt(s, i, j);
    }
  }

  class List<T> {
    var count: nat
    var first: Elem?<T>
    var last: Elem?<T>
    ghost var nodes: seq<Elem<T>>
    ghost var contents: seq<T>

    ghost predicate Valid()
      reads this, nodes
    {
      && Carries(nodes, contents)
      && Linked()
    }

    /** The links alone, whatever the elements hold. */
    ghost predicate Linked()
      reads this`count, this`first, this`last, this`nodes, nodes`next, nodes`prev
    {
      && NoRepeats(nodes) && Chained(nodes)
      && count == |nodes|
      && first == (if nodes == [] then null else nodes[0])
      && last == (if nodes == [] then null else nodes[|nodes| - 1])
    }

    /** `list_create` */
    constructor ()
      ensures Valid() && contents == [] && nodes == []
    {
      count, first, last, nodes, contents := 0, null, null, [], [];
    }

    method LinkLast(elem: Elem<T>)
      requires Linked() && elem !in nodes && elem.prev == null && elem.next == null
      modifies this`count, this`first, this`last, this`nodes, nodes`next, elem`prev
      ensures Linked() && nodes == old(nodes) + [elem]
    {
      ghost var was := nodes;
      NoRepeatsMore(was, elem);
      if last != null {
        elem.prev := last;
        last.next := elem;
        last := elem;
      } else {
        first := elem;
        last := elem;
      }
      count := count + 1;
      nodes := was + [elem];
      forall i | 0 <= i < |nodes|
        ensures LinkedAt(nodes, i)
      {
        assert i < |was| ==> old(LinkedAt(was, i));
        PushedAt(was, elem, i);
      }
    }

    method LinkFirst(elem: Elem<T>)
      requires Linked() && elem !in nodes && elem.prev == null && elem.next == null
      modifies this`count, this`first, this`last, this`nodes, nodes`prev, elem`next
      ensures Linked() && nodes == [elem] + old(nodes)
    {
      ghost var was := nodes;
      NoRepeatsMore(was, elem);
      elem.next := first;
      if first != null {
        first.prev := elem;
        first := elem;
      } else {
        first := elem;
        last := elem;
      }
      count := count + 1;
      nodes := [elem] + was;
      forall i | 0 <= i < |nodes|
        ensures LinkedAt(nodes, i)
      {
        assert i > 0 ==> old(LinkedAt(was, i - 1));
        UnshiftedAt(was, elem, i);
      }
    }

    method Push(val: T) returns (ghost elem: Elem<T>)
      requires Valid()
      modifies this, nodes`next
      ensures Valid() && contents == old(contents) + [val]
      ensures nodes == old(nodes) + [elem] && fresh(elem)
    {
      var e := new Elem(val);
      ghost var was := nodes;
      LinkLast(e);
      CarriesMore(was, contents, e);
      contents := contents + [val];
      elem := e;
    }

    method Unshift(val: T) returns (ghost elem: Elem<T>)
      requires Valid()
      modifies this, nodes`prev
      ensures Valid() && contents == [val] + old(contents)
      ensures nodes == [elem] + old(nodes) && fresh(elem)
    {
      var e := new Elem(val);
      ghost var was := nodes;
      LinkFirst(e);
      CarriesMore(was, contents, e);
      contents := [val] + contents;
      elem := e;
    }

    /** The four cases of `list_remove`; only the links around the element change. */
    method UnlinkEnd(elem: Elem<T>, ghost i: nat)
      requires Linked() && i < |nodes| && nodes[i] == elem && (elem == first || elem == last)
      modifies this`count, this`first, this`last, this`nodes, nodes`next, nodes`prev
      ensures Linked() && nodes == Without(old(nodes), i)
    {
      ghost var was := nodes;
      assert LinkedAt(was, i);
      NoRepeatsLess(was, i);
      if elem == first && elem == last {
        first := null;
        last := null;
      } else if elem == last {
        last := elem.prev;
        last.next := null;
      } else {
        first := elem.next;
        first.prev := null;
      }
      count := count - 1;
      nodes := Without(was, i);
      forall j | 0 <= j < |nodes|
        ensures LinkedAt(nodes, j)
      {
        assert old(LinkedAt(was, if j < i then j else j + 1));
        RemovedAt(was, i, j);
      }
    }

    method UnlinkMiddle(elem: Elem<T>, ghost i: nat)
      requires Linked() && i < |nodes| && nodes[i] == elem && elem != first && elem != last
      modifies this`count, this`first, this`last, this`nodes, nodes`next, nodes`prev
      ensures Linked() && nodes == Without(old(nodes), i)
    {
      ghost var was := nodes;
      assert LinkedAt(was, i);
      NoRepeatsLess(was, i);
      elem.prev.next := elem.next;
      elem.next.prev := elem.prev;
      count := count - 1;
      nodes := Without(was, i);
      forall j | 0 <= j < |nodes|
        ensures LinkedAt(nodes, j)
      {
        assert old(LinkedAt(was, if j < i then j else j + 1));
        RemovedAt(was, i, j);
      }
    }

    method Unlink(elem: Elem<T>, ghost i: nat)
      requires Linked() && i < |nodes| && nodes[i] == elem
      modifies this`count, this`first, this`last, this`nodes, nodes`next, nodes`prev
      ensures Linked() && nodes == Without(old(nodes), i)
    {
      if elem == first || elem == last {
        UnlinkEnd(elem, i);
      } else {
        UnlinkMiddle(elem, i);
      }
    }

    /** `list_remove` of the element at index `i`; on an empty list nothing happens. */
    method Remove(elem: Elem?<T>, ghost i: nat) returns (val: Option<T>)
      requires Valid() && (nodes == [] || (i < |nodes| && nodes[i] == elem))
      modifies this, nodes`next, nodes`prev
      ensures Valid()
      ensures old(nodes) == [] ==> val == None && nodes == [] && contents == []
      ensures old(nodes) != [] ==> i < |old(contents)| && val == Some(old(contents)[i])
                                   && contents == Without(old(contents), i) && nodes == Without(old(nodes), i)
    {
      if first == null {
        return None;
      }
      ghost var was := nodes;
      Unlink(elem, i);
      val := Some(elem.val);
      CarriesWithout(was, contents, i);
      contents := Without(contents, i);
    }

    /** The value of one element is replaced, as callers that own the value do. */
    method Assign(elem: Elem<T>, ghost i: nat, val: T)
      requires Valid() && i < |nodes| && nodes[i] == elem
      modifies this`contents, elem`val
      ensures Valid() && contents == old(contents)[i := val]
    {
      elem.val := val;
      contents := contents[i := val];
    }

    /** `list_pop` */
    method Pop() returns (val: Option<T>)
      requires Valid()
      modifies this, nodes`next, nodes`prev
      ensures Valid()
      ensures var was := old(contents);
              if was == [] then val == None && contents == []
              else val == Some(was[|was| - 1]) && contents == was[..|was| - 1]
    {
      ghost var i := if nodes == [] then 0 else |nodes| - 1;
      val := Remove(last, i);
    }

    /** `list_shift` */
    method Shift() returns (val: Option<T>)
      requires Valid()
      modifies this, nodes`next, nodes`prev
      ensures Valid()
      ensures var was := old(contents);
              if was == [] then val == None && contents == []
              else val == Some(was[0]) && contents == was[1..]
    {
      val := Remove(first, 0);
    }
  }
}
