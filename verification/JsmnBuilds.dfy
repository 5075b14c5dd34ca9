/** On which texts the two builds of jsmn differ, said of the text alone. */
module JsmnBuilds {
  import opened JsmnModel
  import opened JsmnTree
  import opened JsmnText
  import opened JsmnRuns

  /** The text begins with one or more complete values, for which the array has room, and then a
      closing bracket that closes nothing. */
  ghost predicate HasStray(js: string, cap: nat) {
    exists vs, k :: StrayAfter(js, vs, k, cap)
  }

  predicate StrayAfter(js: string, vs: seq<Val>, k: nat, cap: nat) {
    vs != [] && Covers(js, vs, 0, k) && k < |js| && (js[k] == '}' || js[k] == ']') && |List(vs)| <= cap
  }

  lemma {:induction false} ListEmpty(vs: seq<Val>)
    ensures List(vs) == [] <==> vs == []
  {
    if vs != [] {
      ListFirst(vs);
    }
  }

  /** A default parse that stops at a stray bracket has read complete values only. */
  lemma {:induction false} StrayIsOnText(js: string, cap: nat)
    requires Stray(js, Run(js, FRESH, cap, false).st)
    ensures HasStray(js, cap)
  {
    FreshIsEmpty();
    var st := Run(js, FRESH, cap, false).st;
    var p := EveryStop(js, 0, Top([]), cap);
    InnermostIsLastOpen(p);
    WithinCapacity(js, FRESH, cap);
    ListEmpty(p.vals);
    assert StrayAfter(js, p.vals, st.pos, cap);
  }

  lemma {:induction false} StopsAtStray(js: string, vs: seq<Val>, k: nat, cap: nat)
    requires StrayAfter(js, vs, k, cap)
    ensures Sane(Flat(k, Top(vs))) && Stray(js, Flat(k, Top(vs)))
    ensures Run(js, Flat(k, Top(vs)), cap, false) == Outcome(Inval, Flat(k, Top(vs)))
  {
    StepRefines(js, k, Top(vs), cap);
    InnermostIsLastOpen(Top(vs));
    ListEmpty(vs);
  }

  /** A default parse of complete values and a stray bracket stops there. */
  lemma {:induction false} TextStrayStops(js: string, vs: seq<Val>, k: nat, cap: nat)
    requires StrayAfter(js, vs, k, cap)
    ensures Run(js, FRESH, cap, false) == Outcome(Inval, Flat(k, Top(vs)))
    ensures Stray(js, Flat(k, Top(vs)))
  {
    FreshIsEmpty();
    RunCovers(js, vs, 0, k, Top([]), cap);
    PutAllTop([], vs);
    assert [] + vs == vs;
    StopsAtStray(js, vs, k, cap);
  }

  /** The two builds end alike on a text if and only if it does not begin with complete values and a
      stray closing bracket. */
  lemma {:induction false} BuildsAgree(js: string, cap: nat)
    ensures AlikeOutcomes(Run(js, FRESH, cap, false), Run(js, FRESH, cap, true)) <==> !HasStray(js, cap)
  {
    LinksAgree(js, FRESH, FRESH, cap);
    if HasStray(js, cap) {
      var vs, k :| StrayAfter(js, vs, k, cap);
      TextStrayStops(js, vs, k, cap);
    } else if Stray(js, Run(js, FRESH, cap, false).st) {
      StrayIsOnText(js, cap);
    }
  }
}
