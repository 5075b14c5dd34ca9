/** lib/sds/sds.c as it is written: strings with a length, free space and a terminating NUL in one
    growing buffer, and the loops that print, scan, split and join them. */
module Sds {
  import opened Words
  import opened SdsQuote
  import opened SdsSplit

  const MAX_PREALLOC := 0x10_0000

  class Buffer {
    var buf: array<byte>
    var len: nat
    var free: nat

    ghost predicate Valid()
      reads this, buf
    {
      buf.Length == len + free + 1 && buf[len] == 0
    }

    ghost function Contents(): bytes
      reads this, buf
      requires Valid()
    {
      buf[..len]
    }

    /** `sdsnewlen` */
    constructor (init: bytes)
      ensures Valid() && fresh(buf) && Contents() == init && free == 0
    {
      var b := new byte[|init| + 1](_ => 0);
      forall i | 0 <= i < |init| {
        b[i] := init[i];
      }
      buf, len, free := b, |init|, 0;
    }

    /** Afterwards `addlen` more bytes fit; the string is the same. A new buffer has as many bytes to spare
        as it holds, but at most 1 MiB. */
    method MakeRoomFor(addlen: nat)
      requires Valid()
      modifies this
      ensures Valid() && Contents() == old(Contents()) && len == old(len)
      ensures old(free) >= addlen ==> free == old(free)
      ensures old(free) < addlen ==> var spare := free - addlen;
                spare == if len + addlen < 1024 * 1024 then len + addlen else 1024 * 1024
      ensures if old(free) >= addlen then buf == old(buf) else fresh(buf)
    {
      if free >= addlen {
        return;
      }
      var newlen := len + addlen;
      if newlen < MAX_PREALLOC {
        newlen := newlen * 2;
      } else {
        newlen := newlen + MAX_PREALLOC;
      }
      var b := new byte[newlen + 1](_ => 0);
      forall i | 0 <= i <= len {
        b[i] := buf[i];
      }
      buf := b;
      free := newlen - len;
    }

    method CatLen(t: bytes)
      requires Valid()
      modifies this, buf
      ensures Valid() && Contents() == old(Contents()) + t
      ensures old(free) >= |t| ==> buf == old(buf) && free == old(free) - |t|
      ensures old(free) < |t| ==> fresh(buf) && free == if len < 1024 * 1024 then len else 1024 * 1024
    {
      var curlen := len;
      MakeRoomFor(|t|);
      forall i | 0 <= i < |t| {
        buf[curlen + i] := t[i];
      }
      len := curlen + |t|;
      free := free - |t|;
      buf[len] := 0;
    }

    method CatEscape(c: byte)
      requires Valid()
      modifies this, buf
      ensures Valid() && Contents() == old(Contents()) + Escape(c)
      ensures buf == old(buf) || fresh(buf)
    {
      if c == SLASH || c == QUOTE {
        CatLen([SLASH, c]);
      } else if c == LF {
        CatLen([SLASH, LETTER_N]);
      } else if c == CR {
        CatLen([SLASH, LETTER_R]);
      } else if c == TAB {
        CatLen([SLASH, LETTER_T]);
      } else if c == BELL {
        CatLen([SLASH, LETTER_A]);
      } else if c == BACKSPACE {
        CatLen([SLASH, LETTER_B]);
      } else if IsPrint(c) {
        CatLen([c]);
      } else {
        CatLen([SLASH, LETTER_X, HexChar(c / 16), HexChar(c % 16)]);
      }
    }

    /** The loop of `sdscatrepr`. */
    method CatEscapes(p: bytes)
      requires Valid()
      modifies this, buf
      ensures Valid() && Contents() == old(Contents()) + Escapes(p)
      ensures buf == old(buf) || fresh(buf)
    {
      ghost var was := Contents();
      var i := 0;
      assert p[..0] == [] && was + Escapes([]) == was;
      while i < |p|
        invariant i <= |p| && Valid() && Contents() == was + Escapes(p[..i])
        invariant buf == old(buf) || fresh(buf)
      {
        EscapesNext(was, p, i);
        CatEscape(p[i]);
        i := i + 1;
      }
      assert p[..i] == p;
    }

    /** `sdscatrepr` */
    method CatRepr(p: bytes)
      requires Valid()
      modifies this, buf
      ensures Valid() && Contents() == old(Contents()) + Repr(p)
      ensures buf == old(buf) || fresh(buf)
    {
      ReprParts(Contents(), p);
      CatLen([QUOTE]);
      CatEscapes(p);
      CatLen([QUOTE]);
    }

    method Value() returns (v: bytes)
      requires Valid()
      ensures v == Contents()
    {
      v := buf[..len];
    }
  }

  function Reprs(args: seq<bytes>): seq<bytes> {
    if args == [] then [] else Reprs(args[..|args| - 1]) + [Repr(args[|args| - 1])]
  }

  /** The line whose splitting gives the strings back is what `sdsjoinsds` makes of their quoted forms. */
  lemma {:induction false} QuotedIsJoin(args: seq<bytes>)
    ensures |Reprs(args)| == |args| && Join(Reprs(args), [SPACE]) == Quoted(args)
    decreases |args|
  {
    if args != [] {
      var init := args[..|args| - 1];
      QuotedIsJoin(init);
      assert Reprs(args)[..|args| - 1] == Reprs(init);
    }
  }

  lemma ReprParts(a: bytes, p: bytes)
    ensures a + [QUOTE] + Escapes(p) + [QUOTE] == a + Repr(p)
  {
  }

  lemma EscapesNext(a: bytes, p: bytes, i: nat)
    requires i < |p|
    ensures a + Escapes(p[..i + 1]) == a + Escapes(p[..i]) + Escape(p[i])
  {
    assert p[..i + 1][..i] == p[..i];
  }

  // ---- sdssplitargs ----

  /** What one turn of the token loop did: the scan of the rest of the line agrees with the scan from
      where the turn began, once the closing `if (*p) p++` has run. */
  ghost predicate Scanned(line: bytes, p: nat, mode: Mode, cur: bytes,
                          p': nat, mode': Mode, cur': bytes, done: bool, ok: bool)
    requires p <= |line| && IsLine(line)
  {
    && p <= p' <= |line|
    && (!ok ==> ArgAt(line, p, mode, cur) == Malformed)
    && (ok && done ==> ArgAt(line, p, mode, cur) == Arg(cur', if p' < |line| then p' + 1 else p'))
    && (ok && !done ==> p' < |line| && ArgAt(line, p, mode, cur) == ArgAt(line, p' + 1, mode', cur'))
  }

  method ScanQuoted(line: bytes, p: nat, current: Buffer) returns (p': nat, done: bool, ok: bool)
    requires p <= |line| && IsLine(line) && current.Valid()
    modifies current, current.buf
    ensures current.Valid() && (current.buf == old(current.buf) || fresh(current.buf))
    ensures Scanned(line, p, InQuotes, old(current.Contents()), p', InQuotes, current.Contents(), done, ok)
  {
    p', done, ok := p, false, true;
    var c := At(line, p);
    if c == SLASH && At(line, p + 1) == LETTER_X && IsHexDigit(At(line, p + 2)) && IsHexDigit(At(line, p + 3)) {
      var b: byte := HexValue(At(line, p + 2)) * 16 + HexValue(At(line, p + 3));
      current.CatLen([b]);
      p' := p + 3;
    } else if c == SLASH && At(line, p + 1) != NUL {
      p' := p + 1;
      current.CatLen([Unescape(At(line, p'))]);
    } else if c == QUOTE {
      if At(line, p + 1) != NUL && !IsSpace(At(line, p + 1)) {
        ok := false;
        return;
      }
      done := true;
    } else if c == NUL {
      ok := false;
    } else {
      current.CatLen([c]);
    }
  }

  method ScanTicked(line: bytes, p: nat, current: Buffer) returns (p': nat, done: bool, ok: bool)
    requires p <= |line| && IsLine(line) && current.Valid()
    modifies current, current.buf
    ensures current.Valid() && (current.buf == old(current.buf) || fresh(current.buf))
    ensures Scanned(line, p, InTicks, old(current.Contents()), p', InTicks, current.Contents(), done, ok)
  {
    p', done, ok := p, false, true;
    var c := At(line, p);
    if c == SLASH && At(line, p + 1) == TICK {
      p' := p + 1;
      current.CatLen([TICK]);
    } else if c == TICK {
      if At(line, p + 1) != NUL && !IsSpace(At(line, p + 1)) {
        ok := false;
        return;
      }
      done := true;
    } else if c == NUL {
      ok := false;
    } else {
      current.CatLen([c]);
    }
  }

  method ScanBare(line: bytes, p: nat, current: Buffer) returns (mode: Mode, done: bool)
    requires p <= |line| && IsLine(line) && current.Valid()
    modifies current, current.buf
    ensures current.Valid() && (current.buf == old(current.buf) || fresh(current.buf))
    ensures Scanned(line, p, Bare, old(current.Contents()), p, mode, current.Contents(), done, true)
  {
    mode, done := Bare, false;
    var c := At(line, p);
    if c == SPACE || c == LF || c == CR || c == TAB || c == NUL {
      done := true;
    } else if c == QUOTE {
      mode := InQuotes;
    } else if c == TICK {
      mode := InTicks;
    } else {
      current.CatLen([c]);
    }
  }

  /** One turn of `while(!done)`, its closing `if (*p) p++` included. */
  method ScanTurn(line: bytes, p: nat, mode: Mode, current: Buffer) returns (p': nat, mode': Mode, done: bool, ok: bool)
    requires p <= |line| && IsLine(line) && current.Valid()
    modifies current, current.buf
    ensures current.Valid() && (current.buf == old(current.buf) || fresh(current.buf)) && p' <= |line|
    ensures ok && !done ==> p < p'
    ensures var a := ArgAt(line, p, mode, old(current.Contents()));
            if !ok then a == Malformed
            else if done then a == Arg(current.Contents(), p')
            else a == ArgAt(line, p', mode', current.Contents())
  {
    mode' := mode;
    match mode {
      case InQuotes => p', done, ok := ScanQuoted(line, p, current);
      case InTicks => p', done, ok := ScanTicked(line, p, current);
      case Bare => p', ok := p, true; mode', done := ScanBare(line, p, current);
    }
    if ok && At(line, p') != NUL {
      p' := p' + 1;
    }
  }

  /** The loop `while(!done)`: one argument. */
  method GetArg(line: bytes, start: nat) returns (value: bytes, p: nat, ok: bool)
    requires start <= |line| && IsLine(line)
    ensures match ArgAt(line, start, Bare, [])
            case Malformed => !ok
            case Arg(v, next) => ok && value == v && p == next
  {
    var current := new Buffer([]);
    var mode, done := Bare, false;
    p, ok, value := start, true, [];
    while !done
      invariant fresh(current) && fresh(current.buf) && current.Valid() && p <= |line|
      invariant !done ==> ArgAt(line, p, mode, current.Contents()) == ArgAt(line, start, Bare, [])
      invariant done ==> ArgAt(line, start, Bare, []) == Arg(current.Contents(), p)
      decreases |line| - p, if done then 0 else 1
    {
      p, mode, done, ok := ScanTurn(line, p, mode, current);
      if !ok {
        return;
      }
    }
    value := current.Value();
  }

  method SkipBlanks(line: bytes, start: nat) returns (p: nat)
    requires start <= |line| && IsLine(line)
    ensures p == SkipSpace(line, start)
  {
    p := start;
    while At(line, p) != NUL && IsSpace(At(line, p))
      invariant p <= |line| && SkipSpace(line, p) == SkipSpace(line, start)
      decreases |line| - p
    {
      p := p + 1;
    }
  }

  /** `sdssplitargs`: terminates on every line and reads no byte behind its NUL. */
  method SplitLine(line: bytes) returns (ok: bool, vector: seq<bytes>)
    requires IsLine(line)
    ensures match SplitArgs(line, 0, [])
            case Args(args) => ok && vector == args
            case Unbalanced => !ok && vector == []
  {
    var p := 0;
    vector, ok := [], true;
    while true
      invariant p <= |line| && ok
      invariant SplitArgs(line, p, vector) == SplitArgs(line, 0, [])
      decreases |line| - p
    {
      ghost var was := p;
      p := SkipBlanks(line, p);
      if At(line, p) == NUL {
        return;
      }
      SkipStops(line, was);
      ArgMoves(line, p);
      var value, next, good := GetArg(line, p);
      if !good {
        return false, [];
      }
      p := next;
      vector := vector + [value];
    }
  }

  // ---- sdssplitlen and sdsjoinsds ----

  /** Twice as many slots, the tokens so far in place. */
  method MoreSlots(tokens: array<bytes>, elements: nat) returns (more: array<bytes>)
    requires 0 < elements <= tokens.Length
    ensures fresh(more) && more.Length == 2 * tokens.Length && more[..elements] == tokens[..elements]
  {
    more := new bytes[2 * tokens.Length](_ => []);
    forall i | 0 <= i < tokens.Length {
      more[i] := tokens[i];
    }
  }

  /** The tokens found so far and those of the rest are the tokens of the whole. */
  ghost predicate Progress(before: seq<bytes>, s: bytes, sep: bytes, start: nat, j: nat)
    requires sep != [] && start <= j && start <= |s|
  {
    before + SplitFrom(s, sep, start, j) == SplitFrom(s, sep, 0, 0)
  }

  lemma AppendOne<T>(a: seq<T>, x: T, b: seq<T>)
    ensures a + ([x] + b) == a + [x] + b
  {
  }

  lemma {:induction false} ProgressHit(before: seq<bytes>, s: bytes, sep: bytes, start: nat, j: nat, k: nat)
    requires sep != [] && start <= j && k == j + |sep| <= |s| && s[j..k] == sep && Progress(before, s, sep, start, j)
    ensures Progress(before + [s[start..j]], s, sep, k, k)
  {
    AppendOne(before, s[start..j], SplitFrom(s, sep, k, k));
  }

  lemma {:induction false} ProgressMiss(before: seq<bytes>, s: bytes, sep: bytes, start: nat, j: nat, k: nat, j1: nat)
    requires sep != [] && start <= j && k == j + |sep| <= |s| && s[j..k] != sep && Progress(before, s, sep, start, j)
             && j1 == j + 1
    ensures Progress(before, s, sep, start, j1)
  {
  }

  lemma {:induction false} ProgressEnd(before: seq<bytes>, s: bytes, sep: bytes, start: nat, j: nat)
    requires sep != [] && start <= j && start <= |s| < j + |sep| && Progress(before, s, sep, start, j)
    ensures before + [s[start..]] == SplitFrom(s, sep, 0, 0)
  {
  }

  lemma {:induction false} ProgressStart(s: bytes, sep: bytes)
    requires sep != []
    ensures Progress([], s, sep, 0, 0)
  {
  }

  /** A token is stored; the slots are doubled first when the next one and the final one need it. */
  method StoreSlot(slots: array<bytes>, elements: nat, token: bytes)
    requires elements < slots.Length
    modifies slots
    ensures slots[..elements + 1] == old(slots[..elements]) + [token]
  {
    slots[elements] := token;
  }

  method StoreToken(slots: array<bytes>, elements: nat, s: bytes, sep: bytes, start: nat, j: nat, k: nat)
    requires sep != [] && start <= j && k == j + |sep| <= |s| && s[j..k] == sep && elements < slots.Length
    requires Progress(slots[..elements], s, sep, start, j)
    modifies slots
    ensures Progress(slots[..elements + 1], s, sep, k, k)
  {
    ProgressHit(slots[..elements], s, sep, start, j, k);
    StoreSlot(slots, elements, s[start..j]);
  }

  /** `sdssplitlen`: the growing slot array is never overrun. */
  method SplitLen(s: bytes, sep: bytes) returns (tokens: array?<bytes>, count: nat)
    ensures match Split(s, sep)
            case NoTokens => tokens == null
            case Tokens(list) => tokens != null && count <= tokens.Length && tokens[..count] == list
  {
    var seplen, len := |sep|, |s|;
    if seplen < 1 {
      return null, 0;
    }
    var slots: array<bytes> := new bytes[5](_ => []);
    if len == 0 {
      return slots, 0;
    }
    tokens, count := SplitLoop(slots, s, sep);
  }

  /** The search loop of `sdssplitlen`. */
  method SplitLoop(first: array<bytes>, s: bytes, sep: bytes) returns (slots: array<bytes>, elements: nat)
    requires sep != [] && first.Length >= 5
    modifies first
    ensures elements <= slots.Length && slots[..elements] == SplitFrom(s, sep, 0, 0)
  {
    var seplen, len := |sep|, |s|;
    slots, elements := first, 0;
    var start, j := 0, 0;
    ProgressStart(s, sep);
    assert slots[..0] == [];
    while j < len - (seplen - 1)
      invariant start <= j && start <= len && elements < slots.Length && 5 <= slots.Length
      invariant slots == first || fresh(slots)
      invariant Progress(slots[..elements], s, sep, start, j)
      decreases len - j
    {
      if slots.Length < elements + 2 {
        slots := MoreSlots(slots, elements);
      }
      var k := j + seplen;
      if s[j..k] == sep {
        StoreToken(slots, elements, s, sep, start, j, k);
        elements := elements + 1;
        start := k;
        j := k - 1;
      } else {
        ProgressMiss(slots[..elements], s, sep, start, j, k, j + 1);
      }
      j := j + 1;
    }
    ProgressEnd(slots[..elements], s, sep, start, j);
    StoreSlot(slots, elements, s[start..]);
    elements := elements + 1;
  }

  /** `sdsjoinsds` */
  method JoinSds(argv: seq<bytes>, sep: bytes) returns (join: Buffer)
    ensures fresh(join) && join.Valid() && join.Contents() == Join(argv, sep)
  {
    join := new Buffer([]);
    var j := 0;
    while j < |argv|
      invariant j <= |argv| && fresh(join) && fresh(join.buf) && join.Valid()
      invariant join.Contents() == Join(argv[..j], sep) + if 0 < j < |argv| then sep else []
    {
      join.CatLen(argv[j]);
      if j != |argv| - 1 {
        join.CatLen(sep);
      }
      assert argv[..j + 1][..j] == argv[..j];
      j := j + 1;
    }
    assert argv[..j] == argv;
  }
}
