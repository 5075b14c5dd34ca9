/** Parsing a text that arrives in pieces: when a parse of the first piece, continued on the longer
    text with the same parser and tokens, ends like one parse of the longer text. */
module JsmnPrefix {
  import opened JsmnModel
  import opened JsmnRuns

  // ---- Scanning a longer text ----

  lemma {:induction false} MoreExtends(js: string, js2: string, p: nat)
    requires js <= js2
    ensures p < |js| ==> js2[p] == js[p] && (More(js2, p) <==> More(js, p))
  {
  }

  /** A primitive that ends before the text does ends there in a longer text too; one that reaches the
      end goes on. */
  lemma {:induction false} PrimitiveExtends(js: string, js2: string, p: nat)
    requires js <= js2 && p <= |js|
    ensures PrimitiveEnd(js, p) != Found(|js|) ==> PrimitiveEnd(js2, p) == PrimitiveEnd(js, p)
    ensures PrimitiveEnd(js, p) == Found(|js|) ==> PrimitiveEnd(js2, p) == PrimitiveEnd(js2, |js|)
    decreases |js| - p
  {
    MoreExtends(js, js2, p);
    if More(js, p) && !IsDelimiter(js[p]) && IsPrintable(js[p]) {
      PrimitiveExtends(js, js2, p + 1);
    }
  }

  lemma {:induction false} HexExtends(js: string, js2: string, p: nat, i: nat)
    requires js <= js2 && p <= |js| && i <= 4
    ensures var h := HexEnd(js, p, i);
            (h.Failed? || h.end < |js|) ==> HexEnd(js2, p, i) == h
    decreases 4 - i
  {
    if p < |js| && i < 4 && js[p] != NUL && IsHex(js[p]) {
      HexExtends(js, js2, p + 1, i + 1);
    }
  }

  /** A string that is closed is closed at the same place in a longer text. */
  lemma {:induction false} StringExtends(js: string, js2: string, p: nat)
    requires js <= js2 && p <= |js| && StringEnd(js, p).Found?
    ensures StringEnd(js2, p) == StringEnd(js, p)
    decreases |js| - p
  {
    MoreExtends(js, js2, p);
    if js[p] != QUOTE {
      if js[p] != '\\' {
        StringExtends(js, js2, p + 1);
      } else {
        StringEscapeExtends(js, js2, p);
      }
    }
  }

  lemma {:induction false} StringEscapeExtends(js: string, js2: string, p: nat)
    requires js <= js2 && More(js, p) && js[p] == '\\' && StringEnd(js, p).Found?
    ensures StringEnd(js2, p) == StringEnd(js, p)
    decreases |js| - p, 0
  {
    var p1, p2 := p + 1, p + 2;
    if IsEscape(At(js, p1)) {
      StringExtends(js, js2, p2);
    } else {
      var h := HexEnd(js, p2, 0);
      HexExtends(js, js2, p2, 0);
      StringExtends(js, js2, h.end);
    }
  }

  // ---- Steps on a longer text ----

  predicate PrimitiveAt(js: string, p: nat) {
    More(js, p) && StartsPrimitive(js[p])
  }

  /** The last token is a primitive that reaches to the end of the text. */
  predicate CutToken(js: string, st: St) {
    st.toks != [] && st.toks[|st.toks| - 1].kind == Primitive && st.toks[|st.toks| - 1].end == |js|
  }

  /** The longer text goes on with a character that would have belonged to it. */
  predicate GoesOn(js2: string, p: nat) {
    More(js2, p) && !IsDelimiter(js2[p])
  }

  /** A primitive step that consumed all of the text. */
  predicate CutStep(js: string, st: St) {
    PrimitiveAt(js, st.pos) && PrimitiveEnd(js, st.pos) == Found(|js|)
  }

  lemma {:induction false} StepExtends(js: string, js2: string, st: St, cap: nat, links: bool)
    requires js <= js2 && Sane(st) && More(js, st.pos) && Step(js, st, cap, links).On?
    requires CutStep(js, st) ==> !GoesOn(js2, |js|)
    ensures More(js2, st.pos) && Step(js2, st, cap, links) == Step(js, st, cap, links)
  {
    var p := st.pos;
    MoreExtends(js, js2, p);
    if js[p] == QUOTE {
      StringExtends(js, js2, p + 1);
    } else if PrimitiveAt(js, p) {
      PrimitiveExtends(js, js2, p);
    }
  }

  lemma {:induction false} CutIsStep(js: string, st: St, cap: nat, links: bool)
    requires Sane(st) && More(js, st.pos) && Step(js, st, cap, links).On? && !CutToken(js, st)
    ensures CutToken(js, Step(js, st, cap, links).st) <==> CutStep(js, st)
    ensures CutStep(js, st) ==> Step(js, st, cap, links).st.pos == |js|
  {
    var c := js[st.pos];
    if IsCloser(c) {
      CloseNotCut(js, c, st, links);
    }
  }

  lemma {:induction false} CloseNotCut(js: string, c: char, st: St, links: bool)
    requires Sane(st) && CloseStep(c, st, links).On? && !CutToken(js, st)
    ensures !CutToken(js, CloseStep(c, st, links).st)
  {
  }

  // ---- The two parses ----

  /** A closed token keeps its end for the rest of the parse. */
  lemma {:induction false} EndKept(js: string, st: St, cap: nat, links: bool, n: nat)
    requires Sane(st) && n < |st.toks| && !IsOpen(st.toks[n])
    ensures var toks := Run(js, st, cap, links).st.toks; n < |toks| && toks[n].end == st.toks[n].end
    decreases |js| - st.pos
  {
    if More(js, st.pos) {
      StepMoves(js, st, cap, links);
      var t := Step(js, st, cap, links);
      if t.On? {
        StepKeepsEnd(js, st, cap, links, n);
        EndKept(js, t.st, cap, links, n);
      }
    }
  }

  lemma {:induction false} StepKeepsEnd(js: string, st: St, cap: nat, links: bool, n: nat)
    requires Sane(st) && More(js, st.pos) && n < |st.toks| && !IsOpen(st.toks[n]) && Step(js, st, cap, links).On?
    ensures var toks := Step(js, st, cap, links).st.toks;
            n < |toks| && toks[n].end == st.toks[n].end && !IsOpen(toks[n])
  {
  }

  /** The parse that was cut inside a primitive never ends like one that was not. */
  lemma {:induction false} CutDiffers(js: string, js2: string, st: St, cap: nat, links: bool)
    requires js <= js2 && Sane(st) && CutStep(js, st) && GoesOn(js2, |js|) && Step(js, st, cap, links).On?
    ensures var t := Step(js, st, cap, links).st;
            Sane(t) && Run(js2, t, cap, links).st != Run(js2, st, cap, links).st
  {
    var n, t := |st.toks|, Step(js, st, cap, links).st;
    StepMoves(js, st, cap, links);
    MoreExtends(js, js2, st.pos);
    StepMoves(js2, st, cap, links);
    EndKept(js2, t, cap, links, n);
    PrimitiveExtends(js, js2, st.pos);
    var u := Step(js2, st, cap, links);
    if u.On? {
      assert PrimitiveEnd(js2, |js|) == PrimitiveEnd(js2, |js| + 1);
      EndKept(js2, u.st, cap, links, n);
    }
  }

  /** Going on with a longer text. */
  lemma {:induction false} ContinueFrom(js: string, js2: string, st: St, cap: nat, links: bool)
    requires js <= js2 && Sane(st) && !CutToken(js, st)
    ensures var st1 := Run(js, st, cap, links).st;
            && Sane(st1)
            && (CutToken(js, st1) && GoesOn(js2, |js|) ==> Run(js2, st1, cap, links).st != Run(js2, st, cap, links).st)
            && (!(CutToken(js, st1) && GoesOn(js2, |js|)) ==> Run(js2, st1, cap, links) == Run(js2, st, cap, links))
    decreases |js| - st.pos
  {
    if More(js, st.pos) && Step(js, st, cap, links).On? {
      var t := Step(js, st, cap, links).st;
      StepMoves(js, st, cap, links);
      CutIsStep(js, st, cap, links);
      if CutStep(js, st) {
        if GoesOn(js2, |js|) {
          CutDiffers(js, js2, st, cap, links);
        } else {
          StepExtends(js, js2, st, cap, links);
        }
      } else {
        StepExtends(js, js2, st, cap, links);
        ContinueFrom(js, js2, t, cap, links);
      }
    }
  }

  /** A parse of the beginning of a text, whatever it returned, continued on the whole text, leaves the
      tokens and the parser state of one parse of the whole text if and only if the beginning was not
      cut inside a primitive. Then the code is the same too. */
  lemma {:induction false} ContinueIsOneParse(js: string, js2: string, cap: nat, links: bool)
    requires js <= js2
    ensures var st1 := Run(js, FRESH, cap, links).st;
            && Sane(st1)
            && (Run(js2, st1, cap, links).st == Run(js2, FRESH, cap, links).st
                <==> !(CutToken(js, st1) && GoesOn(js2, |js|)))
            && (!(CutToken(js, st1) && GoesOn(js2, |js|))
                ==> Run(js2, st1, cap, links).code == Run(js2, FRESH, cap, links).code)
  {
    ContinueFrom(js, js2, FRESH, cap, links);
  }

  // ---- The code for a beginning ----

  /** The text ends right behind a backslash inside a string whose body continues at `p`. */
  predicate CutEscape(js: string, p: nat)
    requires p <= |js|
    decreases |js| - p
  {
    More(js, p) && js[p] != QUOTE &&
    if js[p] != '\\' then CutEscape(js, p + 1)
    else if p + 1 == |js| then true
    else if IsEscape(js[p + 1]) then CutEscape(js, p + 2)
    else js[p + 1] == 'u' && HexEnd(js, p + 2, 0).Found? && CutEscape(js, HexEnd(js, p + 2, 0).end)
  }

  /** The beginning of a string that is closed in the longer text: closed already, or unfinished, which
      is reported as an invalid character right behind a backslash and as a partial text elsewhere. */
  lemma {:induction false} StringBegins(js: string, js2: string, p: nat)
    requires js <= js2 && p <= |js| && StringEnd(js2, p).Found?
    ensures var r := StringEnd(js, p);
            if r.Found? then r == StringEnd(js2, p) && !CutEscape(js, p)
            else r.code == if CutEscape(js, p) then Inval else Partial
    decreases |js| - p
  {
    MoreExtends(js, js2, p);
    if More(js, p) && js[p] != QUOTE {
      if js[p] != '\\' {
        StringBegins(js, js2, p + 1);
      } else if p + 1 < |js| {
        EscapeBegins(js, js2, p);
      }
    }
  }

  lemma {:induction false} EscapeBegins(js: string, js2: string, p: nat)
    requires js <= js2 && More(js, p) && js[p] == '\\' && p + 1 < |js| && StringEnd(js2, p).Found?
    ensures var r := StringEnd(js, p);
            if r.Found? then r == StringEnd(js2, p) && !CutEscape(js, p)
            else r.code == if CutEscape(js, p) then Inval else Partial
    decreases |js| - p, 0
  {
    var p1, p2 := p + 1, p + 2;
    if IsEscape(js[p1]) {
      StringBegins(js, js2, p2);
    } else {
      var h := HexEnd(js, p2, 0);
      HexExtends(js, js2, p2, 0);
      if h.end < |js| {
        StringBegins(js, js2, h.end);
      }
    }
  }

  /** Read token by token from `p`, the text ends inside a string, right behind a backslash. */
  function CutText(js: string, p: nat): (cut: bool)
    decreases |js| - p
  {
    if !More(js, p) then false
    else if js[p] == QUOTE && StringEnd(js, p + 1).Failed? then CutEscape(js, p + 1)
    else
      CountStepMoves(js, p);
      CountStep(js, p).Found? && CutText(js, CountStep(js, p).end)
  }

  /** One turn on the beginning of a text whose turn on the whole text succeeds. */
  lemma {:induction false} TurnBegins(js: string, js2: string, st: St, cap: nat, links: bool)
    requires js <= js2 && Sane(st) && More(js, st.pos) && More(js2, st.pos) && Step(js2, st, cap, links).On?
    ensures var t := Step(js, st, cap, links);
            if js[st.pos] == QUOTE && StringEnd(js, st.pos + 1).Failed? then
              t == Halt(if CutEscape(js, st.pos + 1) then Inval else Partial)
            else t.On? && (CutStep(js, st) || t == Step(js2, st, cap, links))
  {
    var p := st.pos;
    var p1 := p + 1;
    MoreExtends(js, js2, p);
    if js[p] == QUOTE {
      StringBegins(js, js2, p1);
    } else if PrimitiveAt(js, p) {
      PrimitiveExtends(js, js2, p);
    }
  }

  lemma {:induction false} CodeFrom(js: string, js2: string, st: St, cap: nat, links: bool)
    requires js <= js2 && Sane(st) && Run(js2, st, cap, links).code == Fine
    ensures var code := Run(js, st, cap, links).code;
            if CutText(js, st.pos) then code == Inval else code == Fine || code == Partial
    decreases |js| - st.pos
  {
    if More(js, st.pos) {
      MoreExtends(js, js2, st.pos);
      TurnBegins(js, js2, st, cap, links);
      if Step(js, st, cap, links).On? {
        var t := Step(js, st, cap, links).st;
        StepMoves(js, st, cap, links);
        CountStepAgrees(js, st, cap, links);
        StepMoves(js2, st, cap, links);
        if CutStep(js, st) {
          CutStepStops(js, st, cap, links);
        } else {
          CodeFrom(js, js2, t, cap, links);
        }
      }
    }
  }

  lemma {:induction false} CutStepStops(js: string, st: St, cap: nat, links: bool)
    requires Sane(st) && CutStep(js, st) && Step(js, st, cap, links).On?
    ensures Step(js, st, cap, links).st.pos == |js| && !CutText(js, st.pos)
  {
  }

  /** The beginning of an accepted text is accepted itself or reported as partial, as promised, except
      that a text cut right behind a backslash is reported as invalid. */
  lemma {:induction false} CodeOfBeginning(js: string, js2: string, cap: nat, links: bool)
    requires js <= js2 && Run(js2, FRESH, cap, links).code == Fine
    ensures var code := Run(js, FRESH, cap, links).code;
            && (code == Inval <==> CutText(js, 0))
            && (code != Inval ==> code == Fine || code == Partial)
  {
    CodeFrom(js, js2, FRESH, cap, links);
  }

  lemma {:induction false} OneString(js: string, q: nat, links: bool)
    requires More(js, 0) && js[0] == QUOTE && StringEnd(js, 1) == Found(q) && |js| == q + 1
    ensures Run(js, FRESH, 1, links).code == Fine
  {
    var n := |js|;
    var t := AddToken(FRESH, String, 1, q, n, links);
    assert Step(js, FRESH, 1, links) == On(t);
    LastOpenIs(t.toks, -1);
  }

  lemma {:induction false} BackslashScans()
    ensures StringEnd("\"\\", 1) == Failed(Inval)
    ensures StringEnd("\"\\n\"", 1) == Found(3)
  {
    assert StringEnd("\"\\n\"", 3) == Found(3);
  }

  /** The exception is real: a quote and a backslash are invalid, a quote, a backslash, `n` and a quote
      are one string. */
  lemma {:induction false} CutBehindBackslash(links: bool)
    ensures Run("\"\\", FRESH, 1, links).code == Inval
    ensures Run("\"\\n\"", FRESH, 1, links).code == Fine
  {
    BackslashScans();
    OneString("\"\\n\"", 3, links);
    assert Step("\"\\", FRESH, 1, links) == Halt(Inval);
  }

  /** So is the other: of `12`, the digit `1` alone is a whole token, and going on with `12` does not
      give the one token of `12`. */
  lemma {:induction false} CutPrimitive(links: bool)
    ensures var st1 := Run("1", FRESH, 2, links).st;
            Sane(st1) && Run("12", st1, 2, links).st != Run("12", FRESH, 2, links).st
  {
    assert PrimitiveEnd("1", 1) == Found(1) && PrimitiveEnd("1", 0) == Found(1);
    CutDiffers("1", "12", FRESH, 2, links);
    StepMoves("1", FRESH, 2, links);
  }
}
