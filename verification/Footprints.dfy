/** Sets of heap objects, one for each part of a larger structure. */
module Footprints {

  ghost predicate Disjoint(feet: seq<set<object>>) {
    forall i, j :: 0 <= i < j < |feet| ==> feet[i] !! feet[j]
  }

  ghost function Union(feet: seq<set<object>>): set<object> {
    set i, o | 0 <= i < |feet| && o in feet[i] :: o
  }

  lemma {:induction false} UnionHas(feet: seq<set<object>>, i: nat)
    requires i < |feet|
    ensures feet[i] <= Union(feet)
  {
  }

  /** When one part changes only by new objects, the parts stay apart. */
  lemma {:induction false} FootChange(feet: seq<set<object>>, i: nat, foot: set<object>)
    requires Disjoint(feet) && i < |feet| && (foot - feet[i]) !! Union(feet)
    ensures Disjoint(feet[i := foot])
    ensures Union(feet[i := foot]) <= Union(feet) + (foot - feet[i])
  {
    forall j | 0 <= j < |feet|
      ensures feet[j] !! foot - feet[i]
    {
      UnionHas(feet, j);
    }
  }

  /** A new part of new objects. */
  lemma {:induction false} FootMore(feet: seq<set<object>>, foot: set<object>)
    requires Disjoint(feet) && foot !! Union(feet)
    ensures Disjoint(feet + [foot])
    ensures Union(feet + [foot]) == Union(feet) + foot
  {
    var all := feet + [foot];
    forall i | 0 <= i < |feet|
      ensures feet[i] !! foot
    {
      UnionHas(feet, i);
    }
    forall i | 0 <= i < |all|
      ensures all[i] <= Union(feet) + foot && all[i] <= Union(all)
    {
      UnionHas(all, i);
      if i < |feet| {
        UnionHas(feet, i);
      }
    }
    forall o | o in Union(feet)
      ensures o in Union(all)
    {
      var i :| 0 <= i < |feet| && o in feet[i];
      assert o in all[i];
    }
    forall o | o in Union(all)
      ensures o in Union(feet) + foot
    {
      var i :| 0 <= i < |all| && o in all[i];
    }
    assert all[|feet|] == foot;
  }
}
