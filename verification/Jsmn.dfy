/** lib/jsmn/jsmn.c as it is written: a parser object, a token array it fills in place, and loops
    over the text. Every method is proved to compute the step machine of `JsmnModel`. */
module Jsmn {
  import opened JsmnModel

  const MAX_TEXT := 0x8000_0000

  class Parser {
    var pos: nat
    var toknext: nat
    var toksuper: int

    /** `jsmn_init` */
    constructor ()
      ensures pos == 0 && toknext == 0 && toksuper == -1
    {
      pos, toknext, toksuper := 0, 0, -1;
    }
  }

  /** Parser and tokens as one value. */
  ghost function State(p: Parser, tokens: array<Tok>): St
    reads p, tokens
    requires p.toknext <= tokens.Length
  {
    St(p.pos, tokens[..p.toknext], p.toksuper)
  }

  ghost predicate Valid(p: Parser, tokens: array<Tok>, cap: nat)
    reads p, tokens
  {
    cap <= tokens.Length && p.toknext <= tokens.Length && Sane(State(p, tokens))
  }

  /** Tokens not yet allocated are left alone. */
  ghost predicate RestKept(before: seq<Tok>, after: seq<Tok>, from: nat) {
    |after| == |before| && from <= |before| && after[from..] == before[from..]
  }

  // ---- One token ----

  method AllocToken(p: Parser, tokens: array<Tok>, cap: nat) returns (i: int)
    requires Valid(p, tokens, cap)
    modifies p`toknext, tokens
    ensures i == if old(p.toknext) < cap then old(p.toknext) else -1
    ensures i == -1 ==> p.toknext == old(p.toknext) && tokens[..] == old(tokens[..])
    ensures i != -1 ==> p.toknext == i + 1 && exists k :: tokens[..] == old(tokens[..])[i := Tok(k, -1, -1, 0, -1)]
  {
    if p.toknext >= cap {
      return -1;
    }
    i := p.toknext;
    p.toknext := p.toknext + 1;
    tokens[i] := tokens[i].(start := -1, end := -1);
    tokens[i] := tokens[i].(size := 0);
    tokens[i] := tokens[i].(parent := -1);
    ghost var k := tokens[i].kind;
    assert tokens[..] == old(tokens[..])[i := Tok(k, -1, -1, 0, -1)];
  }

  /** `jsmn_fill_token`, with the parent link of the linked build. */
  method FillToken(p: Parser, tokens: array<Tok>, i: nat, kind: Kind, start: nat, end: nat, links: bool)
    requires i < tokens.Length
    modifies tokens
    ensures tokens[..]
            == old(tokens[..])[i := Tok(kind, start, end, 0, if links then p.toksuper else old(tokens[i].parent))]
  {
    tokens[i] := tokens[i].(kind := kind, start := start, end := end, size := 0);
    if links {
      tokens[i] := tokens[i].(parent := p.toksuper);
    }
  }

  method BumpSuper(p: Parser, tokens: array<Tok>)
    requires -1 <= p.toksuper < tokens.Length
    modifies tokens
    ensures tokens[..] == Bump(old(tokens[..]), p.toksuper)
  {
    if p.toksuper != -1 {
      tokens[p.toksuper] := tokens[p.toksuper].(size := tokens[p.toksuper].size + 1);
    }
  }

  /** Filling slot `n` and bumping below it is adding a token to the first `n`. */
  lemma {:induction false} Added(before: seq<Tok>, n: nat, super: int, t: Tok, after: seq<Tok>)
    requires -1 <= super < n < |before| && after == Bump(before[n := t], super)
    ensures after[..n + 1] == Bump(before[..n], super) + [t] && RestKept(before, after, n + 1)
  {
  }

  ghost function Image(tokens: array?<Tok>): seq<Tok>
    reads if tokens == null then {} else {tokens}
  {
    if tokens == null then [] else tokens[..]
  }

  /** What `jsmn_parse_primitive` and `jsmn_parse_string` leave behind, given what they found: `pos`
      is on the last character they took, and the token is stored but not yet counted by its parent. */
  ghost predicate Took(scan: Scan, kind: Kind, start: nat, last: int, n: nat, cap: nat, image: seq<Tok>, super: int,
                       links: bool,
                       counting: bool, r: Code, pos: nat, toknext: nat, image': seq<Tok>) {
    if scan.Failed? then r == scan.code && toknext == n && image' == image
    else if counting then r == Fine && pos == last && toknext == n && image' == image
    else if n >= cap then r == NoMem && toknext == n && image' == image
    else
      && r == Fine && pos == last && toknext == n + 1 && n < |image|
      && image' == image[n := Tok(kind, start, scan.end, 0, ParentOf(super, links))]
  }

  method StoreToken(p: Parser, tokens: array<Tok>, cap: nat, kind: Kind, start: nat, end: nat, links: bool)
    returns (r: Code)
    requires Valid(p, tokens, cap)
    modifies p`toknext, tokens
    ensures p.toknext == if old(p.toknext) >= cap then old(p.toknext) else old(p.toknext) + 1
    ensures if old(p.toknext) >= cap then r == NoMem && tokens[..] == old(tokens[..])
            else r == Fine && tokens[..] == old(tokens[..])[old(p.toknext) :=
                                              Tok(kind, start, end, 0, ParentOf(p.toksuper, links))]
  {
    var i := AllocToken(p, tokens, cap);
    if i == -1 {
      return NoMem;
    }
    FillToken(p, tokens, i, kind, start, end, links);
    return Fine;
  }

  /** The loop of `jsmn_parse_primitive`; on an error `pos` is put back. */
  method ScanPrimitive(p: Parser, js: string) returns (r: Code)
    requires More(js, p.pos) && !IsDelimiter(js[p.pos])
    modifies p`pos
    ensures match PrimitiveEnd(js, old(p.pos))
            case Failed(code) => r == code && p.pos == old(p.pos)
            case Found(q) => r == Fine && p.pos == q > old(p.pos)
  {
    var start := p.pos;
    while p.pos < |js| && js[p.pos] != NUL
      invariant start <= p.pos <= |js|
      invariant PrimitiveEnd(js, p.pos) == PrimitiveEnd(js, start)
    {
      var c := js[p.pos];
      if IsDelimiter(c) {
        break;
      }
      if c as int < 32 || c as int >= 127 {
        p.pos := start;
        return Inval;
      }
      p.pos := p.pos + 1;
    }
    return Fine;
  }

  /** `jsmn_parse_primitive` */
  method ParsePrimitive(p: Parser, js: string, tokens: array?<Tok>, cap: nat, links: bool) returns (r: Code)
    requires More(js, p.pos) && !IsDelimiter(js[p.pos])
    requires tokens != null ==> Valid(p, tokens, cap)
    modifies p`pos, p`toknext
    modifies if tokens != null then {tokens} else {}
    ensures var scan := PrimitiveEnd(js, old(p.pos));
            Took(scan, Primitive, old(p.pos), if scan.Found? then scan.end - 1 else 0, old(p.toknext), cap,
                 old(Image(tokens)),
                 p.toksuper, links, tokens == null, r, p.pos, p.toknext, Image(tokens))
    ensures r != Fine ==> p.pos == old(p.pos)
  {
    var start := p.pos;
    r := ScanPrimitive(p, js);
    if r != Fine {
      return;
    }
    if tokens == null {
      p.pos := p.pos - 1;
      return Fine;
    }
    r := StoreToken(p, tokens, cap, Primitive, start, p.pos, links);
    p.pos := if r == Fine then p.pos - 1 else start;
  }

  /** The digits after `\u`. */
  method ScanHex(p: Parser, js: string) returns (r: Code)
    requires p.pos <= |js|
    modifies p`pos
    ensures match HexEnd(js, old(p.pos), 0)
            case Failed(code) => r == code
            case Found(q) => r == Fine && p.pos == q
  {
    var i := 0;
    while i < 4 && At(js, p.pos) != NUL
      invariant i <= 4 && p.pos <= |js|
      invariant HexEnd(js, p.pos, i) == HexEnd(js, old(p.pos), 0)
    {
      if !IsHex(js[p.pos]) {
        return Inval;
      }
      p.pos := p.pos + 1;
      i := i + 1;
    }
    return Fine;
  }

  /** The loop of `jsmn_parse_string`, from behind the opening quote to the closing one. */
  method ScanString(p: Parser, js: string) returns (r: Code)
    requires p.pos <= |js|
    modifies p`pos
    ensures match StringEnd(js, old(p.pos))
            case Failed(code) => r == code
            case Found(q) => r == Fine && p.pos == q
  {
    while p.pos < |js| && js[p.pos] != NUL
      invariant p.pos <= |js|
      invariant StringEnd(js, p.pos) == StringEnd(js, old(p.pos))
      decreases |js| - p.pos
    {
      var c := js[p.pos];
      if c == QUOTE {
        return Fine;
      }
      if c == '\\' {
        p.pos := p.pos + 1;
        var e := At(js, p.pos);
        if IsEscape(e) {
        } else if e == 'u' {
          p.pos := p.pos + 1;
          r := ScanHex(p, js);
          if r != Fine {
            return;
          }
          p.pos := p.pos - 1;
        } else {
          return Inval;
        }
      }
      p.pos := p.pos + 1;
    }
    return Partial;
  }

  /** `jsmn_parse_string` */
  method ParseString(p: Parser, js: string, tokens: array?<Tok>, cap: nat, links: bool) returns (r: Code)
    requires More(js, p.pos)
    requires tokens != null ==> Valid(p, tokens, cap)
    modifies p`pos, p`toknext
    modifies if tokens != null then {tokens} else {}
    ensures var scan := StringEnd(js, old(p.pos) + 1);
            Took(scan, String, old(p.pos) + 1, if scan.Found? then scan.end else 0, old(p.toknext), cap,
                 old(Image(tokens)),
                 p.toksuper, links, tokens == null, r, p.pos, p.toknext, Image(tokens))
    ensures r != Fine ==> p.pos == old(p.pos)
  {
    var start := p.pos;
    p.pos := p.pos + 1;
    r := ScanString(p, js);
    if r != Fine {
      p.pos := start;
      return;
    }
    if tokens == null {
      return;
    }
    r := StoreToken(p, tokens, cap, String, start + 1, p.pos, links);
    if r != Fine {
      p.pos := start;
    }
  }

  // ---- The main loop ----

  /** The tokens, with `pos` as the `for` statement will leave it after this turn. */
  ghost function Next(p: Parser, tokens: array<Tok>): St
    reads p, tokens
    requires p.toknext <= tokens.Length
  {
    State(p, tokens).(pos := p.pos + 1)
  }

  /** A turn of the loop did what the machine does, or stopped with its error and changed nothing. */
  ghost predicate Turned(p: Parser, tokens: array<Tok>, t: Turn, r: Code, was: St, image: seq<Tok>)
    reads p, tokens
  {
    && p.toknext <= tokens.Length
    && RestKept(image, tokens[..], p.toknext)
    && match t
       case On(st) => r == Fine && Next(p, tokens) == st
       case Halt(code) => r == code && State(p, tokens) == was
  }

  method OpenBracket(p: Parser, tokens: array<Tok>, c: char, cap: nat, links: bool) returns (r: Code)
    requires Valid(p, tokens, cap)
    modifies p`toknext, p`toksuper, tokens
    ensures Turned(p, tokens, OpenStep(c, old(State(p, tokens)), cap, links), r, old(State(p, tokens)), old(tokens[..]))
  {
    ghost var image, n, super := tokens[..], p.toknext, p.toksuper;
    var i := AllocToken(p, tokens, cap);
    if i == -1 {
      return NoMem;
    }
    if p.toksuper != -1 {
      tokens[p.toksuper] := tokens[p.toksuper].(size := tokens[p.toksuper].size + 1);
      if links {
        tokens[i] := tokens[i].(parent := p.toksuper);
      }
    }
    tokens[i] := tokens[i].(kind := KindOf(c));
    tokens[i] := tokens[i].(start := p.pos);
    p.toksuper := p.toknext - 1;
    ghost var t := Tok(KindOf(c), p.pos, -1, 0, ParentOf(super, links));
    assert tokens[..] == Bump(image[n := t], super);
    Added(image, n, super, t, tokens[..]);
    return Fine;
  }

  method FindOpen(tokens: array<Tok>, n: nat) returns (i: int)
    requires n <= tokens.Length
    ensures i == LastOpen(tokens[..n])
  {
    i := n - 1;
    while i >= 0
      invariant -1 <= i < n
      invariant LastOpen(tokens[..i + 1]) == LastOpen(tokens[..n])
    {
      if IsOpen(tokens[i]) {
        assert tokens[..i + 1][|tokens[..i + 1]| - 1] == tokens[i];
        return;
      }
      assert tokens[..i + 1][..i] == tokens[..i];
      i := i - 1;
    }
    assert tokens[..0] == [];
  }

  /** Follows the parent links, as the linked build does. */
  method ClimbLinks(tokens: array<Tok>, n: nat) returns (i: int)
    requires 0 < n <= tokens.Length && ParentsBelow(tokens[..n])
    ensures i == Climb(tokens[..n], n - 1)
  {
    i := n - 1;
    while true
      invariant 0 <= i < n && Climb(tokens[..n], i) == Climb(tokens[..n], n - 1)
      decreases i
    {
      assert tokens[..n][i] == tokens[i];
      if IsOpen(tokens[i]) {
        return;
      }
      if tokens[i].parent == -1 {
        return -1;
      }
      i := tokens[i].parent;
    }
  }

  lemma {:induction false} LastOpenBelow(toks: seq<Tok>, i: nat, end: nat, us: seq<Tok>)
    requires i < |toks| && i == LastOpen(toks) && us == toks[i := toks[i].(end := end)]
    ensures LastOpen(us[..i + 1]) == LastOpen(toks[..i])
  {
    var vs := us[..i + 1];
    assert vs[..i] == toks[..i] && !IsOpen(vs[i]);
  }

  lemma SliceAgain(toks: seq<Tok>, i: nat, n: nat)
    requires i <= n <= |toks|
    ensures toks[..n][..i] == toks[..i]
  {
  }

  method SetEnd(p: Parser, tokens: array<Tok>, i: nat)
    requires i < p.toknext <= tokens.Length
    modifies tokens
    ensures tokens[..p.toknext] == old(tokens[..p.toknext])[i := old(tokens[i]).(end := p.pos + 1)]
    ensures RestKept(old(tokens[..]), tokens[..], p.toknext)
  {
    tokens[i] := tokens[i].(end := p.pos + 1);
  }

  method CloseLinked(p: Parser, tokens: array<Tok>, c: char, cap: nat) returns (r: Code)
    requires Valid(p, tokens, cap)
    modifies p`toksuper, tokens
    ensures Turned(p, tokens, CloseStep(c, old(State(p, tokens)), true), r, old(State(p, tokens)), old(tokens[..]))
  {
    if p.toknext < 1 {
      return Inval;
    }
    var i := ClimbLinks(tokens, p.toknext);
    if i == -1 {
      return Fine;
    }
    if tokens[i].kind != KindOf(c) {
      return Inval;
    }
    SetEnd(p, tokens, i);
    p.toksuper := tokens[i].parent;
    return Fine;
  }

  method CloseScanned(p: Parser, tokens: array<Tok>, c: char, cap: nat) returns (r: Code)
    requires Valid(p, tokens, cap)
    modifies p`toksuper, tokens
    ensures Turned(p, tokens, CloseStep(c, old(State(p, tokens)), false), r, old(State(p, tokens)), old(tokens[..]))
  {
    var i := FindOpen(tokens, p.toknext);
    if i == -1 || tokens[i].kind != KindOf(c) {
      return Inval;
    }
    CloseFound(p, tokens, i, cap);
    return Fine;
  }

  /** The end of the token found, and the next open one as the superior token. */
  method CloseFound(p: Parser, tokens: array<Tok>, i: nat, cap: nat)
    requires Valid(p, tokens, cap) && i < p.toknext && i == LastOpen(State(p, tokens).toks)
    modifies p`toksuper, tokens
    ensures p.toknext <= tokens.Length && RestKept(old(tokens[..]), tokens[..], p.toknext)
    ensures var st := old(State(p, tokens)); Next(p, tokens) == CloseAt(st, i, LastOpen(st.toks[..i]))
  {
    ghost var st := State(p, tokens);
    SetEnd(p, tokens, i);
    LastOpenBelow(st.toks, i, p.pos + 1, tokens[..p.toknext]);
    SliceAgain(tokens[..], i + 1, p.toknext);
    p.toksuper := FindOpen(tokens, i + 1);
  }

  method CloseBracket(p: Parser, tokens: array<Tok>, c: char, cap: nat, links: bool) returns (r: Code)
    requires Valid(p, tokens, cap)
    modifies p`toksuper, tokens
    ensures Turned(p, tokens, CloseStep(c, old(State(p, tokens)), links), r, old(State(p, tokens)), old(tokens[..]))
  {
    if links {
      r := CloseLinked(p, tokens, c, cap);
    } else {
      r := CloseScanned(p, tokens, c, cap);
    }
  }

  /** A string or primitive was taken: its parent counts it. */
  method CountToken(p: Parser, tokens: array<Tok>, ghost was: St, ghost image: seq<Tok>, ghost t: Tok, ghost n: nat)
    requires n < tokens.Length && p.toknext == n + 1 && -1 <= p.toksuper < n
    requires |image| == tokens.Length && tokens[..] == image[n := t] && was.toks == image[..n]
             && was.super == p.toksuper
    modifies tokens
    ensures tokens[..p.toknext] == Bump(was.toks, was.super) + [t] && RestKept(image, tokens[..], p.toknext)
  {
    BumpSuper(p, tokens);
    Added(image, n, p.toksuper, t, tokens[..]);
  }

  method TakeString(p: Parser, js: string, tokens: array<Tok>, cap: nat, links: bool) returns (r: Code)
    requires More(js, p.pos) && Valid(p, tokens, cap)
    modifies p`pos, p`toknext, tokens
    ensures Turned(p, tokens, StringStep(js, old(State(p, tokens)), cap, links), r, old(State(p, tokens)),
                   old(tokens[..]))
  {
    ghost var was, image, n := State(p, tokens), tokens[..], p.toknext;
    r := ParseString(p, js, tokens, cap, links);
    if r != Fine {
      return;
    }
    ghost var q := StringEnd(js, was.pos + 1).end;
    CountToken(p, tokens, was, image, Tok(String, was.pos + 1, q, 0, ParentOf(was.super, links)), n);
  }

  method TakePrimitive(p: Parser, js: string, tokens: array<Tok>, cap: nat, links: bool) returns (r: Code)
    requires More(js, p.pos) && !IsDelimiter(js[p.pos]) && Valid(p, tokens, cap)
    modifies p`pos, p`toknext, tokens
    ensures Turned(p, tokens, PrimitiveStep(js, old(State(p, tokens)), cap, links), r, old(State(p, tokens)),
                   old(tokens[..]))
  {
    ghost var was, image, n := State(p, tokens), tokens[..], p.toknext;
    r := ParsePrimitive(p, js, tokens, cap, links);
    if r != Fine {
      return;
    }
    ghost var q := PrimitiveEnd(js, was.pos).end;
    CountToken(p, tokens, was, image, Tok(Primitive, was.pos, q, 0, ParentOf(was.super, links)), n);
  }

  /** One turn of the `switch` in `jsmn_parse`, with a token array. */
  method TakeTurn(p: Parser, js: string, tokens: array<Tok>, cap: nat, links: bool) returns (r: Code)
    requires More(js, p.pos) && Valid(p, tokens, cap)
    modifies p, tokens
    ensures Turned(p, tokens, Step(js, old(State(p, tokens)), cap, links), r, old(State(p, tokens)), old(tokens[..]))
  {
    var c := js[p.pos];
    if IsOpener(c) {
      r := OpenBracket(p, tokens, c, cap, links);
    } else if IsCloser(c) {
      r := CloseBracket(p, tokens, c, cap, links);
    } else if c == QUOTE {
      r := TakeString(p, js, tokens, cap, links);
    } else if IsBlank(c) {
      r := Fine;
    } else {
      r := TakePrimitive(p, js, tokens, cap, links);
    }
  }

  function ErrorCode(c: Code): int {
    match c
    case Fine => 0
    case NoMem => -1
    case Inval => -2
    case Partial => -3
  }

  /** The turns of the main loop, until the text ends or an error stops it. */
  method Turns(p: Parser, js: string, tokens: array<Tok>, cap: nat, links: bool) returns (r: Code, count: nat)
    requires Valid(p, tokens, cap)
    modifies p, tokens
    ensures p.toknext <= tokens.Length && RestKept(old(tokens[..]), tokens[..], p.toknext)
    ensures var o := Run(js, old(State(p, tokens)), cap, links);
            && State(p, tokens) == o.st
            && (r != Fine ==> o.code == r)
            && (r == Fine ==> !More(js, p.pos) && o.code == if LastOpen(o.st.toks) >= 0 then Partial else Fine)
    ensures r == Fine ==> count == p.toknext - old(p.toknext)
  {
    ghost var st0, image := State(p, tokens), tokens[..];
    count := 0;
    while p.pos < |js| && js[p.pos] != NUL
      invariant Valid(p, tokens, cap) && RestKept(image, tokens[..], p.toknext)
      invariant Run(js, State(p, tokens), cap, links) == Run(js, st0, cap, links)
      invariant p.toknext == old(p.toknext) + count
      decreases |js| - p.pos
    {
      ghost var st, mid := State(p, tokens), tokens[..];
      StepMoves(js, st, cap, links);
      CountStepCounts(js, st, cap, links);
      var c := js[p.pos];
      r := TakeTurn(p, js, tokens, cap, links);
      if r != Fine {
        return;
      }
      if !IsCloser(c) && !IsBlank(c) {
        count := count + 1;
      }
      p.pos := p.pos + 1;
      RestKeptTwice(image, mid, tokens[..], |st.toks|, p.toknext);
    }
    r := Fine;
  }

  lemma RestKeptTwice(a: seq<Tok>, b: seq<Tok>, c: seq<Tok>, m: nat, n: nat)
    requires RestKept(a, b, m) && RestKept(b, c, n) && m <= n
    ensures RestKept(a, c, n)
  {
    assert a[m..][n - m..] == a[n..] && b[m..][n - m..] == b[n..];
  }

  lemma {:induction false} CountStepCounts(js: string, st: St, cap: nat, links: bool)
    requires Sane(st) && More(js, st.pos)
    ensures var t := Step(js, st, cap, links);
            t.On? ==> |t.st.toks| == |st.toks| + if IsCloser(js[st.pos]) || IsBlank(js[st.pos]) then 0 else 1
  {
  }

  /** `jsmn_parse` with a token array: the machine's final state, and the number of tokens stored by
      this call or the error. */
  method Parse(p: Parser, js: string, tokens: array<Tok>, cap: nat, links: bool) returns (r: int)
    requires Valid(p, tokens, cap) && |js| < MAX_TEXT
    modifies p, tokens
    ensures p.toknext <= tokens.Length && RestKept(old(tokens[..]), tokens[..], p.toknext)
    ensures var o := Run(js, old(State(p, tokens)), cap, links);
            && State(p, tokens) == o.st
            && match o.code
               case Fine => r == |o.st.toks| - old(p.toknext)
               case NoMem => r == -1
               case Inval => r == -2
               case Partial => r == -3
  {
    var code, count := Turns(p, js, tokens, cap, links);
    if code != Fine {
      return ErrorCode(code);
    }
    var i := FindOpen(tokens, p.toknext);
    if i >= 0 {
      return ErrorCode(Partial);
    }
    return count;
  }

  // ---- Counting only ----

  method CountTurn(p: Parser, js: string) returns (r: Code, one: bool)
    requires More(js, p.pos) && p.toksuper == -1
    modifies p`pos, p`toknext
    ensures p.toknext == old(p.toknext)
    ensures match CountStep(js, old(p.pos))
            case Failed(code) => r == code
            case Found(q) => r == Fine && p.pos + 1 == q
    ensures one == !(IsCloser(js[old(p.pos)]) || IsBlank(js[old(p.pos)]))
  {
    var c := js[p.pos];
    r, one := Fine, true;
    if IsOpener(c) {
    } else if IsCloser(c) || IsBlank(c) {
      one := false;
    } else if c == QUOTE {
      r := ParseString(p, js, null, 0, false);
    } else {
      r := ParsePrimitive(p, js, null, 0, false);
    }
  }

  /** `jsmn_parse` with `tokens == NULL` on a fresh parser. */
  method CountTokens(p: Parser, js: string) returns (r: int)
    requires p.toknext == 0 && p.toksuper == -1 && |js| < MAX_TEXT
    modifies p`pos, p`toknext
    ensures p.toknext == 0
    ensures match CountRun(js, old(p.pos), 0)
            case Counted(n) => r == n
            case NotCounted(code) => (code == Inval && r == -2) || (code == Partial && r == -3)
  {
    var count := 0;
    while p.pos < |js| && js[p.pos] != NUL
      invariant p.toknext == 0
      invariant CountRun(js, p.pos, count) == CountRun(js, old(p.pos), 0)
      decreases |js| - p.pos
    {
      CountStepMoves(js, p.pos);
      var code, one := CountTurn(p, js);
      if code != Fine {
        return ErrorCode(code);
      }
      if one {
        count := count + 1;
      }
      p.pos := p.pos + 1;
    }
    return count;
  }
}
