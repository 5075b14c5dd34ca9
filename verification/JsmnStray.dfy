/** What the build with parent links makes of a closing bracket that closes nothing: behind some token
    it is a blank. */
module JsmnStray {
  import opened JsmnModel
  import JsmnTree
  import opened JsmnChars
  import opened JsmnRuns
  import opened JsmnBuilds

  // ---- Texts that agree in part ----

  predicate AgreeFrom(js: string, js2: string, p: nat) {
    |js| == |js2| && forall i :: p <= i < |js| ==> js[i] == js2[i]
  }

  lemma {:induction false} HexAlike(js: string, js2: string, p: nat, i: nat)
    requires AgreeFrom(js, js2, p) && p <= |js| && i <= 4
    ensures HexEnd(js, p, i) == HexEnd(js2, p, i)
    decreases 4 - i
  {
    if i < 4 && At(js, p) != NUL && IsHex(js[p]) {
      HexAlike(js, js2, p + 1, i + 1);
    }
  }

  lemma {:induction false} StringAlike(js: string, js2: string, p: nat)
    requires AgreeFrom(js, js2, p) && p <= |js|
    ensures StringEnd(js, p) == StringEnd(js2, p)
    decreases |js| - p
  {
    if More(js, p) && js[p] != QUOTE {
      if js[p] != '\\' {
        StringAlike(js, js2, p + 1);
      } else if p + 1 < |js| {
        HexAlike(js, js2, p + 2, 0);
        var h := HexEnd(js, p + 2, 0);
        StringAlike(js, js2, p + 2);
        if h.Found? {
          StringAlike(js, js2, h.end);
        }
      }
    }
  }

  lemma {:induction false} PrimitiveAlike(js: string, js2: string, p: nat)
    requires AgreeFrom(js, js2, p) && p <= |js|
    ensures PrimitiveEnd(js, p) == PrimitiveEnd(js2, p)
    decreases |js| - p
  {
    if More(js, p) && !IsDelimiter(js[p]) && IsPrintable(js[p]) {
      PrimitiveAlike(js, js2, p + 1);
    }
  }

  /** A parse only looks at the text that is left. */
  lemma {:induction false} RunAlike(js: string, js2: string, st: St, cap: nat, links: bool)
    requires Sane(st) && AgreeFrom(js, js2, st.pos)
    ensures Run(js, st, cap, links) == Run(js2, st, cap, links)
    decreases |js| - st.pos
  {
    if More(js, st.pos) {
      StepMoves(js, st, cap, links);
      StepAlike(js, js2, st, cap, links);
      var t := Step(js, st, cap, links);
      if t.On? {
        RunAlike(js, js2, t.st, cap, links);
      }
    }
  }

  lemma {:induction false} StepAlike(js: string, js2: string, st: St, cap: nat, links: bool)
    requires Sane(st) && AgreeFrom(js, js2, st.pos) && More(js, st.pos)
    ensures More(js2, st.pos) && Step(js, st, cap, links) == Step(js2, st, cap, links)
  {
    StringAlike(js, js2, st.pos + 1);
    PrimitiveAlike(js, js2, st.pos);
  }

  /** The texts differ at most at `k`, where a primitive ends in both. */
  predicate AgreeBut(js: string, js2: string, k: nat) {
    && |js| == |js2| && k < |js| && (forall i :: 0 <= i < |js| && i != k ==> js[i] == js2[i])
    && Follows(js, k) && Follows(js2, k)
  }

  lemma {:induction false} BodyAlike(js: string, js2: string, p: nat, q: nat)
    requires IsBody(js, p, q) && |js| == |js2| && forall i :: p <= i < q ==> js[i] == js2[i]
    ensures IsBody(js2, p, q)
    decreases q - p
  {
    if p < q {
      if js[p] != '\\' {
        BodyAlike(js, js2, p + 1, q);
      } else if p + 2 <= q && IsShort(js[p + 1]) {
        BodyAlike(js, js2, p + 2, q);
      } else {
        assert Digits16(js2, p + 2, p + 6);
        BodyAlike(js, js2, p + 6, q);
      }
    }
  }

  /** A turn that ends before `k`, or there, is the same on both texts. */
  lemma {:induction false} StepBefore(js: string, js2: string, k: nat, st: St, cap: nat, links: bool)
    requires Sane(st) && AgreeBut(js, js2, k) && st.pos < k && More(js, st.pos)
    requires Step(js, st, cap, links).On? && Step(js, st, cap, links).st.pos <= k
    ensures More(js2, st.pos) && Step(js2, st, cap, links) == Step(js, st, cap, links)
  {
    var p := st.pos;
    if js[p] == '\"' {
      var q := StringEnd(js, p + 1).end;
      StringsExactly(js, p + 1);
      BodyAlike(js, js2, p + 1, q);
      StringsExactly(js2, p + 1);
    } else if StartsPrimitive(js[p]) {
      var q := PrimitiveEnd(js, p).end;
      PrimitivesExactly(js, p);
      PrimitivesExactly(js2, p);
      assert IsPrimitive(js2, p, q);
    }
  }

  // ---- The stray bracket ----

  lemma {:induction false} RunForward(js: string, st: St, cap: nat, links: bool)
    requires Sane(st)
    ensures st.pos <= Run(js, st, cap, links).st.pos
    decreases |js| - st.pos
  {
    if More(js, st.pos) {
      StepMoves(js, st, cap, links);
      var t := Step(js, st, cap, links);
      if t.On? {
        RunForward(js, t.st, cap, links);
      }
    }
  }

  /** The linked build comes to where the default build stops at a stray bracket, on both texts. */
  lemma {:induction false} ComesToStray(js: string, js2: string, k: nat, a: St, b: St, cap: nat) returns (c: St)
    requires Same(a, b) && Sane(a) && Sane(b) && AgreeBut(js, js2, k)
    requires Run(js, a, cap, false).st.pos == k && Stray(js, Run(js, a, cap, false).st)
    ensures Sane(c) && c.pos == k && c.toks != [] && Linked(c.toks) && LastOpen(c.toks) == -1
    ensures Run(js, b, cap, true) == Run(js, c, cap, true) && Run(js2, b, cap, true) == Run(js2, c, cap, true)
    decreases |js| - a.pos
  {
    StripOpen(b.toks);
    StepMoves(js, a, cap, false);
    StepMoves(js, b, cap, true);
    var s, t := Step(js, a, cap, false), Step(js, b, cap, true);
    RunForward(js, a, cap, false);
    if Stray(js, a) {
      StrayHalts(js, a, cap);
      c := b;
    } else {
      StepsSame(js, a, b, cap);
      RunForward(js, s.st, cap, false);
      StepBefore(js, js2, k, b, cap, true);
      c := ComesToStray(js, js2, k, s.st, t.st, cap);
    }
  }

  lemma {:induction false} StrayHalts(js: string, a: St, cap: nat)
    requires Sane(a) && Stray(js, a)
    ensures Run(js, a, cap, false) == Outcome(Inval, a)
  {
  }

  lemma {:induction false} StraySkipped(js: string, js2: string, k: nat, c: St, cap: nat)
    requires Sane(c) && c.pos == k && c.toks != [] && Linked(c.toks) && LastOpen(c.toks) == -1
    requires k < |js| && (js[k] == '}' || js[k] == ']') && js2 == js[k := ' ']
    ensures Run(js, c, cap, true) == Run(js2, c, cap, true)
  {
    ClimbFromLast(c.toks);
    var d := c.(pos := k + 1);
    assert Step(js, c, cap, true) == On(d) && Step(js2, c, cap, true) == On(d);
    RunAlike(js, js2, d, cap, true);
  }

  /** Behind complete values, for which the array has room, the build with parent links reads a closing
      bracket that closes nothing like a space. */
  lemma {:induction false} StrayIsBlank(js: string, vs: seq<JsmnTree.Val>, k: nat, cap: nat)
    requires StrayAfter(js, vs, k, cap)
    ensures Run(js, FRESH, cap, true) == Run(js[k := ' '], FRESH, cap, true)
  {
    var js2 := js[k := ' '];
    TextStrayStops(js, vs, k, cap);
    var c := ComesToStray(js, js2, k, FRESH, FRESH, cap);
    StraySkipped(js, js2, k, c, cap);
  }
}
