/** What the count-only pass of jsmn (`tokens == NULL`) returns, said of the text. It does not match
    brackets, so it counts in texts that a parse refuses. */
module JsmnCounts {
  import opened Jsmn
  import opened JsmnModel
  import opened JsmnChars

  /** The text before `hi` is `n` tokens, an opening bracket counting as one, with gaps and closing
      brackets anywhere between them. */
  ghost predicate Skims(js: string, n: nat, hi: nat)
    decreases hi
  {
    && hi <= |js|
    && (|| (hi == 0 && n == 0)
        || (hi > 0 && (IsGap(js[hi - 1]) || js[hi - 1] == '}' || js[hi - 1] == ']') && Skims(js, n, hi - 1))
        || (hi > 0 && n > 0 && (js[hi - 1] == '{' || js[hi - 1] == '[') && Skims(js, n - 1, hi - 1))
        || (n > 0 && exists start: nat, end: nat ::
              0 < start < hi && end + 1 == hi && IsString(js, start, end) && Skims(js, n - 1, start - 1))
        || (n > 0 && exists start: nat :: IsPrimitive(js, start, hi) && Skims(js, n - 1, start)))
  }

  ghost predicate CountsTo(js: string, n: nat) {
    exists hi: nat :: Skims(js, n, hi) && IsEnd(js, hi)
  }

  /** Behind tokens and brackets the text ends inside a string. */
  ghost predicate IsCut(js: string) {
    exists n: nat, hi: nat :: Skims(js, n, hi) && hi < |js| && js[hi] == '\"' && Unfinished(js, hi + 1)
  }

  /** Behind tokens and brackets stands a spoilt string or a character that no token holds. */
  ghost predicate IsWrong(js: string) {
    exists n: nat, hi: nat ::
      Skims(js, n, hi) && ((hi < |js| && js[hi] == '\"' && Spoilt(js, hi + 1)) || BadPrimitive(js, hi))
  }

  lemma {:induction false} CountOne(js: string, n: nat, p: nat)
    requires More(js, p) && Skims(js, n, p) && CountStep(js, p).Found?
    ensures var q, c := CountStep(js, p).end, js[p];
            && p < q
            && var m := if IsCloser(c) || IsBlank(c) then n else n + 1;
            Skims(js, m, q) && CountRun(js, p, n) == CountRun(js, q, m)
  {
    CountStepMoves(js, p);
    var c, q := js[p], CountStep(js, p).end;
    if c == '\"' {
      StringsExactly(js, p + 1);
      assert IsString(js, p + 1, q - 1);
    } else if StartsPrimitive(c) {
      PrimitivesExactly(js, p);
      assert IsPrimitive(js, p, q);
    }
  }

  ghost predicate StopsCount(js: string, hi: nat, code: Code) {
    && hi < |js|
    && if code == Partial then js[hi] == '\"' && Unfinished(js, hi + 1)
       else code == Inval && ((js[hi] == '\"' && Spoilt(js, hi + 1)) || BadPrimitive(js, hi))
  }

  /** Where and why the count from `p` stops. */
  lemma {:induction false} CountStops(js: string, n: nat, p: nat) returns (k: nat, hi: nat)
    requires Skims(js, n, p)
    ensures Skims(js, k, hi)
    ensures match CountRun(js, p, n)
            case Counted(m) => m == k && IsEnd(js, hi)
            case NotCounted(code) => StopsCount(js, hi, code)
    decreases |js| - p
  {
    k, hi := n, p;
    if More(js, p) {
      if CountStep(js, p).Found? {
        CountOne(js, n, p);
        var c, q := js[p], CountStep(js, p).end;
        k, hi := CountStops(js, if IsCloser(c) || IsBlank(c) then n else n + 1, q);
      } else if js[p] == '\"' {
        StringsExactly(js, p + 1);
      } else {
        PrimitivesExactly(js, p);
      }
    }
  }

  lemma {:induction false} StringCounts(js: string, n: nat, p: nat, start: nat, end: nat, q: nat, n1: nat)
    requires IsString(js, start, end) && start == p + 1 && q == end + 1 && n1 == n + 1
    ensures CountRun(js, p, n) == CountRun(js, q, n1)
  {
    StringsExactly(js, start);
  }

  lemma {:induction false} PrimitiveCounts(js: string, n: nat, p: nat, q: nat, n1: nat)
    requires IsPrimitive(js, p, q) && n1 == n + 1
    ensures CountRun(js, p, n) == CountRun(js, q, n1)
  {
    PrimitivesExactly(js, p);
  }

  /** The count passes through every such text. */
  lemma {:induction false} CountPasses(js: string, n: nat, hi: nat)
    requires Skims(js, n, hi)
    ensures CountRun(js, 0, 0) == CountRun(js, hi, n)
    decreases hi
  {
    if hi == 0 && n == 0 {
    } else if hi > 0 && (IsGap(js[hi - 1]) || js[hi - 1] == '}' || js[hi - 1] == ']') && Skims(js, n, hi - 1) {
      CountPasses(js, n, hi - 1);
    } else if hi > 0 && n > 0 && (js[hi - 1] == '{' || js[hi - 1] == '[') && Skims(js, n - 1, hi - 1) {
      CountPasses(js, n - 1, hi - 1);
    } else if start: nat, end: nat :|
        0 < start < hi && end + 1 == hi && IsString(js, start, end) && Skims(js, n - 1, start - 1) {
      CountPasses(js, n - 1, start - 1);
      StringCounts(js, n - 1, start - 1, start, end, hi, n);
    } else {
      var start: nat :| IsPrimitive(js, start, hi) && Skims(js, n - 1, start);
      CountPasses(js, n - 1, start);
      PrimitiveCounts(js, n - 1, start, hi, n);
    }
  }

  lemma {:induction false} CodeAt(js: string, n: nat, hi: nat)
    requires hi <= |js|
    ensures IsEnd(js, hi) ==> CountRun(js, hi, n) == Counted(n)
    ensures hi < |js| && js[hi] == '\"' && Unfinished(js, hi + 1) ==> CountRun(js, hi, n) == NotCounted(Partial)
    ensures hi < |js| && js[hi] == '\"' && Spoilt(js, hi + 1) ==> CountRun(js, hi, n) == NotCounted(Inval)
    ensures BadPrimitive(js, hi) ==> CountRun(js, hi, n) == NotCounted(Inval)
  {
    if hi < |js| && js[hi] == '\"' {
      StringsExactly(js, hi + 1);
    } else if BadPrimitive(js, hi) {
      PrimitivesExactly(js, hi);
    }
  }

  /** The count, in characters: its number, or why there is none. */
  lemma {:induction false} CountsExactly(js: string)
    ensures forall n :: CountRun(js, 0, 0) == Counted(n) <==> CountsTo(js, n)
    ensures CountRun(js, 0, 0) == NotCounted(Partial) <==> IsCut(js)
    ensures CountRun(js, 0, 0) == NotCounted(Inval) <==> IsWrong(js)
  {
    var k, at := CountStops(js, 0, 0);
    forall n: nat, hi: nat | Skims(js, n, hi)
      ensures CountRun(js, 0, 0) == CountRun(js, hi, n)
      ensures IsEnd(js, hi) ==> CountRun(js, hi, n) == Counted(n)
      ensures hi < |js| && js[hi] == '\"' && Unfinished(js, hi + 1) ==> CountRun(js, hi, n) == NotCounted(Partial)
      ensures hi < |js| && js[hi] == '\"' && Spoilt(js, hi + 1) ==> CountRun(js, hi, n) == NotCounted(Inval)
      ensures BadPrimitive(js, hi) ==> CountRun(js, hi, n) == NotCounted(Inval)
    {
      CountPasses(js, n, hi);
      CodeAt(js, n, hi);
    }
  }

  /** `jsmn_init` and `jsmn_parse` without tokens, with the error codes of jsmn.h. */
  method CountText(js: string) returns (r: int)
    requires |js| < MAX_TEXT
    ensures r == -3 <==> IsCut(js)
    ensures r == -2 <==> IsWrong(js)
    ensures forall n :: r == n <==> CountsTo(js, n)
    ensures r >= 0 || r == -2 || r == -3
  {
    var p := new Parser();
    r := CountTokens(p, js);
    CountsExactly(js);
  }
}
