/** The tokenizer of lib/jsmn/jsmn.c as a step machine on values: one step per turn of its main loop.
    `Jsmn` proves that the C-shaped code computes `Run`; the modules after it prove what `Run` means.

    A char stands for one byte of the text; reading at the end of the text gives the NUL that
    terminates it. `links` is the compile-time switch JSMN_PARENT_LINKS; without it the field
    `parent` does not exist and stays at -1 here. */
module JsmnModel {

  const NUL := '\0'
  const QUOTE := '\U{22}'

  datatype Kind = Primitive | Object | Array | String

  datatype Tok = Tok(kind: Kind, start: int, end: int, size: int, parent: int)

  /** Parser and token array together: `toks` are the tokens allocated so far. */
  datatype St = St(pos: nat, toks: seq<Tok>, super: int)

  datatype Code = Fine | NoMem | Inval | Partial

  datatype Turn = On(st: St) | Halt(code: Code)

  datatype Outcome = Outcome(code: Code, st: St)

  function At(js: string, p: nat): (c: char)
    requires p <= |js|
    ensures p == |js| ==> c == NUL
  {
    if p < |js| then js[p] else NUL
  }

  /** The loop condition `pos < len && js[pos] != '\0'`. */
  predicate More(js: string, p: nat) {
    p < |js| && js[p] != NUL
  }

  predicate IsBlank(c: char) {
    c == '\t' || c == '\r' || c == '\n' || c == ':' || c == ',' || c == ' '
  }

  predicate IsOpener(c: char) { c == '{' || c == '[' }
  predicate IsCloser(c: char) { c == '}' || c == ']' }

  /** Every other character begins a primitive. */
  predicate StartsPrimitive(c: char) {
    !IsOpener(c) && !IsCloser(c) && c != QUOTE && !IsBlank(c)
  }

  /** Ends a primitive. */
  predicate IsDelimiter(c: char) {
    IsBlank(c) || IsCloser(c)
  }

  predicate IsHex(c: char) {
    '0' <= c <= '9' || 'A' <= c <= 'F' || 'a' <= c <= 'f'
  }

  predicate IsEscape(c: char) {
    c == QUOTE || c == '/' || c == '\\' || c == 'b' || c == 'f' || c == 'r' || c == 'n' || c == 't'
  }

  predicate IsPrintable(c: char) {
    32 <= c as int < 127
  }

  function KindOf(c: char): Kind {
    if c == '{' || c == '}' then Object else Array
  }

  // ---- Scanning one token ----

  datatype Scan = Found(end: nat) | Failed(code: Code)

  /** First position after the primitive, or a character that cannot stand in one. */
  function PrimitiveEnd(js: string, p: nat): (r: Scan)
    requires p <= |js|
    ensures r.Found? ==> p <= r.end <= |js|
    ensures r.Failed? ==> r.code == Inval
    decreases |js| - p
  {
    if !More(js, p) || IsDelimiter(js[p]) then Found(p)
    else if !IsPrintable(js[p]) then Failed(Inval)
    else PrimitiveEnd(js, p + 1)
  }

  /** After `\u`: at most four hexadecimal digits, fewer only before the end of the text. */
  function HexEnd(js: string, p: nat, i: nat): (r: Scan)
    requires p <= |js| && i <= 4
    ensures r.Found? ==> p <= r.end <= |js|
    ensures r.Failed? ==> r.code == Inval
    decreases 4 - i
  {
    if i == 4 || At(js, p) == NUL then Found(p)
    else if !IsHex(js[p]) then Failed(Inval)
    else HexEnd(js, p + 1, i + 1)
  }

  /** The closing quote of a string whose body continues at `p`. */
  function StringEnd(js: string, p: nat): (r: Scan)
    requires p <= |js|
    ensures r.Found? ==> p <= r.end < |js| && js[r.end] == QUOTE
    ensures r.Failed? ==> r.code == Inval || r.code == Partial
    decreases |js| - p
  {
    if !More(js, p) then Failed(Partial)
    else if js[p] == QUOTE then Found(p)
    else if js[p] != '\\' then StringEnd(js, p + 1)
    else
      var e := At(js, p + 1);
      if IsEscape(e) then StringEnd(js, p + 2)
      else if e == 'u' then
        var h := HexEnd(js, p + 2, 0);
        if h.Found? then StringEnd(js, h.end) else h
      else Failed(Inval)
  }

  // ---- The token array ----

  predicate IsOpen(t: Tok) {
    t.start != -1 && t.end == -1
  }

  /** The last token that is still open, by the backward scan of the default build. */
  function LastOpen(toks: seq<Tok>): (i: int)
    ensures -1 <= i < |toks|
    ensures i >= 0 ==> IsOpen(toks[i])
    ensures forall j :: i < j < |toks| ==> !IsOpen(toks[j])
  {
    if toks == [] then -1
    else if IsOpen(toks[|toks| - 1]) then |toks| - 1
    else LastOpen(toks[..|toks| - 1])
  }

  lemma {:induction false} LastOpenIs(toks: seq<Tok>, i: int)
    requires -1 <= i < |toks| && (i >= 0 ==> IsOpen(toks[i])) && forall j :: i < j < |toks| ==> !IsOpen(toks[j])
    ensures LastOpen(toks) == i
  {
    var k := LastOpen(toks);
  }

  predicate ParentsBelow(toks: seq<Tok>) {
    forall j :: 0 <= j < |toks| ==> -1 <= toks[j].parent < j
  }

  predicate Sane(st: St) {
    -1 <= st.super < |st.toks| && ParentsBelow(st.toks)
  }

  /** The open token found by following parent links from token `i`, or -1. */
  function Climb(toks: seq<Tok>, i: nat): (r: int)
    requires i < |toks| && ParentsBelow(toks)
    ensures -1 <= r <= i
    ensures r >= 0 ==> IsOpen(toks[r])
  {
    if IsOpen(toks[i]) then i
    else if toks[i].parent == -1 then -1
    else Climb(toks, toks[i].parent)
  }

  /** `tokens[toksuper].size++`, when there is a superior token. */
  function Bump(toks: seq<Tok>, super: int): (r: seq<Tok>)
    requires -1 <= super < |toks|
    ensures |r| == |toks|
  {
    if super == -1 then toks else toks[super := toks[super].(size := toks[super].size + 1)]
  }

  function ParentOf(super: int, links: bool): int {
    if links then super else -1
  }

  function AddToken(st: St, kind: Kind, start: nat, end: int, pos: nat, links: bool): St
    requires -1 <= st.super < |st.toks|
  {
    St(pos, Bump(st.toks, st.super) + [Tok(kind, start, end, 0, ParentOf(st.super, links))], st.super)
  }

  function OpenStep(c: char, st: St, cap: nat, links: bool): Turn
    requires Sane(st)
  {
    if |st.toks| >= cap then Halt(NoMem)
    else On(AddToken(st, KindOf(c), st.pos, -1, st.pos + 1, links).(super := |st.toks|))
  }

  /** The bracket at `st.pos` closes token `i`; `super` becomes the superior token. */
  function CloseAt(st: St, i: nat, super: int): St
    requires i < |st.toks|
  {
    St(st.pos + 1, st.toks[i := st.toks[i].(end := st.pos + 1)], super)
  }

  function CloseStep(c: char, st: St, links: bool): Turn
    requires Sane(st)
  {
    if links then
      if st.toks == [] then Halt(Inval) else
        var i := Climb(st.toks, |st.toks| - 1);
        if i == -1 then On(st.(pos := st.pos + 1))
        else if st.toks[i].kind != KindOf(c) then Halt(Inval)
        else On(CloseAt(st, i, st.toks[i].parent))
    else
      var i := LastOpen(st.toks);
      if i == -1 || st.toks[i].kind != KindOf(c) then Halt(Inval)
      else On(CloseAt(st, i, LastOpen(st.toks[..i])))
  }

  function StringStep(js: string, st: St, cap: nat, links: bool): Turn
    requires Sane(st) && st.pos < |js|
  {
    match StringEnd(js, st.pos + 1)
    case Failed(code) => Halt(code)
    case Found(q) => if |st.toks| >= cap then Halt(NoMem) else On(AddToken(st, String, st.pos + 1, q, q + 1, links))
  }

  function PrimitiveStep(js: string, st: St, cap: nat, links: bool): Turn
    requires Sane(st) && st.pos < |js|
  {
    match PrimitiveEnd(js, st.pos)
    case Failed(code) => Halt(code)
    case Found(q) => if |st.toks| >= cap then Halt(NoMem) else On(AddToken(st, Primitive, st.pos, q, q, links))
  }

  /** One turn of the main loop. Every error leaves parser and tokens as they were. */
  function Step(js: string, st: St, cap: nat, links: bool): (t: Turn)
    requires Sane(st) && More(js, st.pos)
  {
    var c := js[st.pos];
    if IsOpener(c) then OpenStep(c, st, cap, links)
    else if IsCloser(c) then CloseStep(c, st, links)
    else if c == QUOTE then StringStep(js, st, cap, links)
    else if IsBlank(c) then On(st.(pos := st.pos + 1))
    else PrimitiveStep(js, st, cap, links)
  }

  lemma {:induction false} StepMoves(js: string, st: St, cap: nat, links: bool)
    requires Sane(st) && More(js, st.pos)
    ensures var t := Step(js, st, cap, links);
            && (t.On? ==> Sane(t.st) && st.pos < t.st.pos <= |js| && |st.toks| <= |t.st.toks| <= |st.toks| + 1)
            && (t.Halt? ==> t.code != Fine)
  {
    if !IsOpener(js[st.pos]) && !IsCloser(js[st.pos]) && js[st.pos] != QUOTE && !IsBlank(js[st.pos]) {
      assert PrimitiveEnd(js, st.pos)
          == if !IsPrintable(js[st.pos]) then Failed(Inval) else PrimitiveEnd(js, st.pos + 1);
    }
  }

  /** `jsmn_parse` from any parser state: the final state, and success or the error. */
  function Run(js: string, st: St, cap: nat, links: bool): Outcome
    requires Sane(st)
    decreases |js| - st.pos
  {
    if !More(js, st.pos) then
      Outcome(if LastOpen(st.toks) >= 0 then Partial else Fine, st)
    else
      StepMoves(js, st, cap, links);
      match Step(js, st, cap, links)
      case On(st') => Run(js, st', cap, links)
      case Halt(code) => Outcome(code, st)
  }

  const FRESH := St(0, [], -1)

  /** The count-only pass (`tokens == NULL`): the number of tokens the text needs. */
  datatype Count = Counted(n: nat) | NotCounted(code: Code)

  function CountStep(js: string, p: nat): Scan
    requires More(js, p)
  {
    var c := js[p];
    if c == QUOTE then
      (match StringEnd(js, p + 1) case Failed(code) => Failed(code) case Found(q) => Found(q + 1))
    else if IsOpener(c) || IsCloser(c) || IsBlank(c) then Found(p + 1)
    else PrimitiveEnd(js, p)
  }

  lemma {:induction false} CountStepMoves(js: string, p: nat)
    requires More(js, p)
    ensures CountStep(js, p).Found? ==> p < CountStep(js, p).end <= |js|
  {
    if !IsOpener(js[p]) && !IsCloser(js[p]) && js[p] != QUOTE && !IsBlank(js[p]) {
      assert PrimitiveEnd(js, p) == if !IsPrintable(js[p]) then Failed(Inval) else PrimitiveEnd(js, p + 1);
    }
  }

  function CountRun(js: string, p: nat, n: nat): Count
    decreases |js| - p
  {
    if !More(js, p) then Counted(n) else
      CountStepMoves(js, p);
      var c := js[p];
      match CountStep(js, p)
      case Failed(code) => NotCounted(code)
      case Found(q) => CountRun(js, q, if IsCloser(c) || IsBlank(c) then n else n + 1)
  }
}
