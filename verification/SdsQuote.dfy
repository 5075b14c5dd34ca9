/** Quoting and splitting of argument lines (lib/sds/sds.c:546-735) as functions: the printer of
    `sdscatrepr`, the scanner of `sdssplitargs`, and their round trip. */
module SdsQuote {
  import opened Sequences
  import opened Words

  const NUL: byte := 0
  const TAB: byte := 9
  const LF: byte := 10
  const CR: byte := 13
  const BELL: byte := 7
  const BACKSPACE: byte := 8
  const SPACE: byte := 32
  const QUOTE: byte := 34
  const TICK: byte := 39
  const SLASH: byte := 92
  const LETTER_A: byte := 97
  const LETTER_B: byte := 98
  const LETTER_N: byte := 110
  const LETTER_R: byte := 114
  const LETTER_T: byte := 116
  const LETTER_X: byte := 120

  /** `isprint` and `isspace` of the C locale. */
  predicate IsPrint(c: byte) { 0x20 <= c <= 0x7e }
  predicate IsSpace(c: byte) { c == SPACE || 9 <= c <= 13 }

  // ---- Printing ----

  function HexChar(n: nat): byte
    requires n < 16
  {
    if n < 10 then 48 + n else 87 + n
  }

  function Escape(c: byte): (r: seq<byte>)
    ensures |r| > 0
  {
    if c == SLASH || c == QUOTE then [SLASH, c]
    else if c == LF then [SLASH, LETTER_N]
    else if c == CR then [SLASH, LETTER_R]
    else if c == TAB then [SLASH, LETTER_T]
    else if c == BELL then [SLASH, LETTER_A]
    else if c == BACKSPACE then [SLASH, LETTER_B]
    else if IsPrint(c) then [c]
    else [SLASH, LETTER_X, HexChar(c / 16), HexChar(c % 16)]
  }

  function Escapes(s: seq<byte>): seq<byte> {
    if s == [] then [] else Escapes(s[..|s| - 1]) + Escape(s[|s| - 1])
  }

  /** `sdscatrepr` */
  function Repr(s: seq<byte>): seq<byte> {
    [QUOTE] + Escapes(s) + [QUOTE]
  }

  /** The quoted forms of a list of strings with one space between them. */
  function Quoted(args: seq<seq<byte>>): seq<byte> {
    if args == [] then [] else
      Quoted(args[..|args| - 1]) + (if |args| == 1 then [] else [SPACE]) + Repr(args[|args| - 1])
  }

  // ---- Scanning ----

  predicate IsHexDigit(c: byte) {
    48 <= c <= 57 || 97 <= c <= 102 || 65 <= c <= 70
  }

  function HexValue(c: byte): (n: nat)
    ensures n < 16
  {
    if 48 <= c <= 57 then c - 48 else if 97 <= c <= 102 then c - 87 else if 65 <= c <= 70 then c - 55 else 0
  }

  /** A line is the bytes before its terminating NUL; nothing behind the NUL is ever read. */
  function At(line: seq<byte>, p: nat): (c: byte)
    requires p <= |line|
    ensures p == |line| ==> c == NUL
  {
    if p < |line| then line[p] else NUL
  }

  predicate IsLine(line: seq<byte>) {
    forall i :: 0 <= i < |line| ==> line[i] != NUL
  }

  function Unescape(c: byte): byte {
    if c == LETTER_N then LF else if c == LETTER_R then CR else if c == LETTER_T then TAB
    else if c == LETTER_B then BACKSPACE else if c == LETTER_A then BELL else c
  }

  datatype Mode = Bare | InQuotes | InTicks

  /** One argument and where the scan stands behind it, or a malformed line. */
  datatype Arg = Arg(value: seq<byte>, next: nat) | Malformed

  predicate HexEscapeAt(line: seq<byte>, p: nat)
    requires p <= |line| && IsLine(line)
  {
    && At(line, p) == SLASH && At(line, p + 1) == LETTER_X
    && IsHexDigit(At(line, p + 2)) && IsHexDigit(At(line, p + 3))
  }

  /** A closing quote must be followed by a space or the end of the line. */
  function CloseArg(line: seq<byte>, p: nat, cur: seq<byte>): Arg
    requires p < |line|
  {
    if At(line, p + 1) != NUL && !IsSpace(At(line, p + 1)) then Malformed else Arg(cur, p + 1)
  }

  function ArgAt(line: seq<byte>, p: nat, mode: Mode, cur: seq<byte>): (a: Arg)
    requires p <= |line| && IsLine(line)
    ensures a.Arg? ==> p <= a.next <= |line|
    decreases |line| - p
  {
    var c := At(line, p);
    match mode
    case InQuotes =>
      if HexEscapeAt(line, p) then
        ArgAt(line, p + 4, mode, cur + [16 * HexValue(line[p + 2]) + HexValue(line[p + 3])])
      else if c == SLASH && At(line, p + 1) != NUL then ArgAt(line, p + 2, mode, cur + [Unescape(line[p + 1])])
      else if c == QUOTE then CloseArg(line, p, cur)
      else if c == NUL then Malformed
      else ArgAt(line, p + 1, mode, cur + [c])
    case InTicks =>
      if c == SLASH && At(line, p + 1) == TICK then ArgAt(line, p + 2, mode, cur + [TICK])
      else if c == TICK then CloseArg(line, p, cur)
      else if c == NUL then Malformed
      else ArgAt(line, p + 1, mode, cur + [c])
    case Bare =>
      if c == NUL then Arg(cur, p)
      else if c == SPACE || c == LF || c == CR || c == TAB then Arg(cur, p + 1)
      else if c == QUOTE then ArgAt(line, p + 1, InQuotes, cur)
      else if c == TICK then ArgAt(line, p + 1, InTicks, cur)
      else ArgAt(line, p + 1, mode, cur + [c])
  }

  function SkipSpace(line: seq<byte>, p: nat): (q: nat)
    requires p <= |line|
    ensures p <= q <= |line|
    decreases |line| - p
  {
    if p < |line| && IsSpace(line[p]) then SkipSpace(line, p + 1) else p
  }

  datatype ArgList = Args(args: seq<seq<byte>>) | Unbalanced

  lemma {:induction false} ArgMoves(line: seq<byte>, p: nat)
    requires p < |line| && IsLine(line) && !IsSpace(line[p])
    ensures ArgAt(line, p, Bare, []).Arg? ==> ArgAt(line, p, Bare, []).next > p
  {
  }

  /** `sdssplitargs` from position `p` on, after the arguments `done`. */
  function SplitArgs(line: seq<byte>, p: nat, done: seq<seq<byte>>): ArgList
    requires p <= |line| && IsLine(line)
    decreases |line| - p
  {
    var q := SkipSpace(line, p);
    if q == |line| then Args(done) else
      (SkipStops(line, p); ArgMoves(line, q);
       match ArgAt(line, q, Bare, [])
       case Malformed => Unbalanced
       case Arg(value, next) => SplitArgs(line, next, done + [value]))
  }

  lemma {:induction false} SkipStops(line: seq<byte>, p: nat)
    requires p <= |line|
    ensures var q := SkipSpace(line, p); q < |line| ==> !IsSpace(line[q])
    decreases |line| - p
  {
    if p < |line| && IsSpace(line[p]) {
      SkipStops(line, p + 1);
    }
  }

  // ---- Round trip ----

  lemma {:induction false} EscapesNoNul(s: seq<byte>)
    ensures IsLine(Escapes(s))
  {
    if s != [] {
      EscapesNoNul(s[..|s| - 1]);
    }
  }

  lemma {:induction false} QuotedIsLine(args: seq<seq<byte>>)
    ensures IsLine(Quoted(args))
  {
    if args != [] {
      QuotedIsLine(args[..|args| - 1]);
      EscapesNoNul(args[|args| - 1]);
    }
  }

  lemma {:induction false} HexRoundTrip(c: byte)
    ensures IsHexDigit(HexChar(c / 16)) && IsHexDigit(HexChar(c % 16))
    ensures 16 * HexValue(HexChar(c / 16)) + HexValue(HexChar(c % 16)) == c
  {
  }

  /** Inside quotes, the escape of a byte is read back as that byte, whatever follows. */
  lemma {:induction false} EscapeRead(line: seq<byte>, p: nat, c: byte, q: nat, cur: seq<byte>)
    requires IsLine(line) && Has(line, p, Escape(c), q)
    ensures ArgAt(line, p, InQuotes, cur) == ArgAt(line, q, InQuotes, cur + [c])
  {
    assert forall i :: p <= i < q ==> line[i] == Escape(c)[i - p];
    HexRoundTrip(c);
  }

  lemma {:induction false} EscapesSnoc(line: seq<byte>, p: nat, s: seq<byte>, q: nat, cur: seq<byte>)
    returns (m: nat, mid: seq<byte>)
    requires Has(line, p, Escapes(s), q) && s != []
    ensures mid == cur + s[..|s| - 1] && mid + [s[|s| - 1]] == cur + s
    ensures Has(line, p, Escapes(s[..|s| - 1]), m) && Has(line, m, Escape(s[|s| - 1]), q)
  {
    m := HasTwo(line, p, Escapes(s[..|s| - 1]), Escape(s[|s| - 1]), q);
    mid := cur + s[..|s| - 1];
  }

  lemma {:induction false} EscapesRead(line: seq<byte>, p: nat, s: seq<byte>, q: nat, cur: seq<byte>, all: seq<byte>)
    requires IsLine(line) && Has(line, p, Escapes(s), q) && all == cur + s
    ensures ArgAt(line, p, InQuotes, cur) == ArgAt(line, q, InQuotes, all)
    decreases |s|
  {
    if s == [] {
      assert all == cur;
    } else {
      var m, mid := EscapesSnoc(line, p, s, q, cur);
      EscapesRead(line, p, s[..|s| - 1], m, cur, mid);
      EscapeRead(line, m, s[|s| - 1], q, mid);
    }
  }

  /** A quoted form followed by a space or the end of the line ends the argument, whatever word is
      before it. */
  lemma {:induction false} ReprRead(line: seq<byte>, p: nat, s: seq<byte>, q: nat, cur: seq<byte>)
    requires IsLine(line) && Has(line, p, Repr(s), q) && (q == |line| || line[q] == SPACE)
    ensures p < |line| && line[p] == QUOTE && ArgAt(line, p, Bare, cur) == Arg(cur + s, q)
  {
    var m := HasTwo(line, p, [QUOTE] + Escapes(s), [QUOTE], q);
    var k := HasTwo(line, p, [QUOTE], Escapes(s), m);
    assert line[p] == line[p..k][0] && line[m] == line[m..q][0];
    EscapesRead(line, k, s, m, cur, cur + s);
  }

  lemma {:induction false} GapSkips(line: seq<byte>, k: nat, gap: seq<byte>, m: nat)
    requires Has(line, k, gap, m) && (gap == [] || gap == [SPACE]) && m < |line| && line[m] == QUOTE
    ensures SkipSpace(line, k) == m && (gap != [] ==> line[k] == SPACE)
  {
    assert SkipSpace(line, m) == m;
    if gap != [] {
      assert line[k] == line[k..m][0];
    }
  }

  lemma {:induction false} ArgRead(line: seq<byte>, k: nat, m: nat, s: seq<byte>, q: nat, done: seq<seq<byte>>)
    requires k <= m < |line| && IsLine(line) && SkipSpace(line, k) == m && q <= |line|
             && ArgAt(line, m, Bare, []) == Arg(s, q)
    ensures SplitArgs(line, k, done) == SplitArgs(line, q, done + [s])
  {
  }

  lemma {:induction false} QuotedArg(line: seq<byte>, k: nat, gap: seq<byte>, m: nat, s: seq<byte>, q: nat,
                                     done: seq<seq<byte>>)
    requires IsLine(line) && Has(line, k, gap, m) && (gap == [] || gap == [SPACE])
    requires Has(line, m, Repr(s), q) && (q == |line| || line[q] == SPACE)
    ensures SplitArgs(line, k, done) == SplitArgs(line, q, done + [s]) && (gap != [] ==> line[k] == SPACE)
  {
    ReprRead(line, m, s, q, []);
    assert [] + s == s;
    GapSkips(line, k, gap, m);
    ArgRead(line, k, m, s, q, done);
  }

  /** Reading a line that begins with the quoted forms of `args`. */
  lemma {:induction false} QuotedRead(line: seq<byte>, args: seq<seq<byte>>, q: nat)
    requires IsLine(line) && Has(line, 0, Quoted(args), q) && (q == |line| || line[q] == SPACE)
    ensures SplitArgs(line, 0, []) == SplitArgs(line, q, args)
    decreases |args|
  {
    if args != [] {
      var init, s := args[..|args| - 1], args[|args| - 1];
      var gap: seq<byte> := if |args| == 1 then [] else [SPACE];
      var m := HasTwo(line, 0, Quoted(init) + gap, Repr(s), q);
      var k := HasTwo(line, 0, Quoted(init), gap, m);
      QuotedArg(line, k, gap, m, s, q, init);
      assert init + [s] == args;
      if |args| > 1 {
        QuotedRead(line, init, k);
      }
    }
  }

  /** Printing any list of byte strings and splitting the line gives the list back. */
  lemma {:induction false} QuoteRoundTrip(args: seq<seq<byte>>)
    ensures IsLine(Quoted(args)) && SplitArgs(Quoted(args), 0, []) == Args(args)
  {
    var line := Quoted(args);
    QuotedIsLine(args);
    var q := |line|;
    QuotedRead(line, args, q);
  }
}
