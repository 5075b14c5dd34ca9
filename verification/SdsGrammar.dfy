/** The lines that `sdssplitargs` splits, as a grammar over bytes, and what `sdscatrepr` prints, byte by
    byte. The scanner of `SdsQuote` accepts exactly the lines of the grammar, with their values. */
module SdsGrammar {
  import opened Sequences
  import opened Words
  import opened SdsQuote

  // ---- What is printed ----

  const HEX_DIGITS: seq<byte> := [48, 49, 50, 51, 52, 53, 54, 55, 56, 57, 97, 98, 99, 100, 101, 102]

  /** The printed form of a byte inside quotes. */
  predicate Prints(c: byte, form: seq<byte>) {
    if c == 34 then form == [92, 34]
    else if c == 92 then form == [92, 92]
    else if c == 10 then form == [92, 110]
    else if c == 13 then form == [92, 114]
    else if c == 9 then form == [92, 116]
    else if c == 7 then form == [92, 97]
    else if c == 8 then form == [92, 98]
    else if 32 <= c <= 126 then form == [c]
    else form == [92, 120, HEX_DIGITS[c / 16], HEX_DIGITS[c % 16]]
  }

  function Concat(forms: seq<seq<byte>>): seq<byte> {
    if forms == [] then [] else Concat(forms[..|forms| - 1]) + forms[|forms| - 1]
  }

  lemma {:induction false} HexCharIs(n: nat)
    requires n < 16
    ensures HexChar(n) == HEX_DIGITS[n]
  {
  }

  lemma {:induction false} EscapePrints(c: byte, form: seq<byte>)
    ensures Prints(c, form) <==> form == Escape(c)
  {
    HexCharIs(c / 16);
    HexCharIs(c % 16);
  }

  lemma {:induction false} EscapesPrint(s: seq<byte>, forms: seq<seq<byte>>)
    requires |forms| == |s| && forall i :: 0 <= i < |s| ==> Prints(s[i], forms[i])
    ensures Escapes(s) == Concat(forms)
    decreases |s|
  {
    if s != [] {
      EscapePrints(s[|s| - 1], forms[|s| - 1]);
      EscapesPrint(s[..|s| - 1], forms[..|s| - 1]);
    }
  }

  /** `sdscatrepr` prints a quote, the form of each byte, and a quote. */
  lemma {:induction false} ReprPrints(s: seq<byte>, forms: seq<seq<byte>>)
    requires |forms| == |s| && forall i :: 0 <= i < |s| ==> Prints(s[i], forms[i])
    ensures Repr(s) == [34] + Concat(forms) + [34]
  {
    EscapesPrint(s, forms);
  }

  lemma {:induction false} PlainEscapes(s: seq<byte>)
    requires forall i :: 0 <= i < |s| ==> 32 <= s[i] <= 126 && s[i] != 34 && s[i] != 92
    ensures Escapes(s) == s
    decreases |s|
  {
    if s != [] {
      PlainEscapes(s[..|s| - 1]);
    }
  }

  /** A printable string without quotes and backslashes is printed as it is, between quotes. */
  lemma {:induction false} PlainPrinted(s: seq<byte>)
    requires forall i :: 0 <= i < |s| ==> 32 <= s[i] <= 126 && s[i] != 34 && s[i] != 92
    ensures Repr(s) == [34] + s + [34]
  {
    PlainEscapes(s);
  }

  // ---- The grammar of argument lines ----

  predicate IsBlank(c: byte) {
    c == 32 || 9 <= c <= 13
  }

  predicate AreBlanks(s: seq<byte>) {
    forall i :: 0 <= i < |s| ==> IsBlank(s[i])
  }

  /** Vertical tab and form feed, the two other blanks, only count before an argument and behind a
      closing quote. */
  predicate EndsWord(c: byte) {
    c == 32 || c == 9 || c == 10 || c == 13
  }

  predicate AreWordBytes(w: seq<byte>) {
    forall i :: 0 <= i < |w| ==> w[i] != 0 && w[i] != 34 && w[i] != 39 && !EndsWord(w[i])
  }

  predicate IsDigit16(c: byte) {
    48 <= c <= 57 || 65 <= c <= 70 || 97 <= c <= 102
  }

  function Digit16(c: byte): int {
    if c <= 57 then c - 48 else if c <= 70 then c - 55 else c - 87
  }

  /** Inside double quotes: a byte as it is, a backslash and a byte, or `\x` and two digits. */
  datatype Piece = Raw(c: byte) | Slashed(c: byte) | Hex(a: byte, b: byte)

  function PieceText(p: Piece): seq<byte> {
    match p
    case Raw(c) => [c]
    case Slashed(c) => [92, c]
    case Hex(a, b) => [92, 120, a, b]
  }

  predicate IsPiece(p: Piece) {
    match p
    case Raw(c) => c != 0 && c != 34 && c != 92
    case Slashed(c) => c != 0
    case Hex(a, b) => IsDigit16(a) && IsDigit16(b)
  }

  function PieceValue(p: Piece): byte
    requires IsPiece(p)
  {
    match p
    case Raw(c) => c
    case Slashed(c) =>
      if c == 110 then 10 else if c == 114 then 13 else if c == 116 then 9
      else if c == 98 then 8 else if c == 97 then 7 else c
    case Hex(a, b) => 16 * Digit16(a) + Digit16(b)
  }

  function PiecesText(ps: seq<Piece>): seq<byte> {
    if ps == [] then [] else PieceText(ps[0]) + PiecesText(ps[1..])
  }

  /** A backslash and an `x` are two bytes of their own only when no two digits follow. */
  predicate ArePieces(ps: seq<Piece>) {
    ps == [] || (&& IsPiece(ps[0])
                 && (ps[0] == Slashed(120) ==> !BeginsHex(PiecesText(ps[1..])))
                 && ArePieces(ps[1..]))
  }

  predicate BeginsHex(t: seq<byte>) {
    |t| >= 2 && IsDigit16(t[0]) && IsDigit16(t[1])
  }

  function PiecesValue(ps: seq<Piece>): seq<byte>
    requires ArePieces(ps)
  {
    if ps == [] then [] else [PieceValue(ps[0])] + PiecesValue(ps[1..])
  }

  /** The text of a string inside single quotes: only its single quotes take a backslash. */
  function TicksText(s: seq<byte>): seq<byte> {
    if s == [] then [] else TickText(s[0]) + TicksText(s[1..])
  }

  function TickText(c: byte): seq<byte> {
    if c == 39 then [92, 39] else [c]
  }

  /** A backslash at the end would take the closing quote with it. */
  predicate IsTicked(s: seq<byte>) {
    (forall i :: 0 <= i < |s| ==> s[i] != 0) && (s != [] ==> s[|s| - 1] != 92)
  }

  /** A word, or a quoted string that ends the argument, with or without a word before it. */
  datatype Argument =
    | Word(word: seq<byte>)
    | WithQuotes(word: seq<byte>, pieces: seq<Piece>)
    | WithTicks(word: seq<byte>, body: seq<byte>)

  predicate IsArgument(a: Argument) {
    && AreWordBytes(a.word) && (a.word != [] ==> !IsBlank(a.word[0]))
    && match a
       case Word(word) => word != []
       case WithQuotes(_, pieces) => ArePieces(pieces)
       case WithTicks(_, body) => IsTicked(body)
  }

  function ArgText(a: Argument): seq<byte> {
    match a
    case Word(word) => word
    case WithQuotes(word, pieces) => word + ([34] + PiecesText(pieces) + [34])
    case WithTicks(word, body) => word + ([39] + TicksText(body) + [39])
  }

  function ArgValue(a: Argument): seq<byte>
    requires IsArgument(a)
  {
    match a
    case Word(word) => word
    case WithQuotes(word, pieces) => word + PiecesValue(pieces)
    case WithTicks(word, body) => word + body
  }

  /** An argument and the blanks behind it. */
  datatype Item = Item(arg: Argument, gap: seq<byte>)

  predicate IsItem(it: Item) {
    && IsArgument(it.arg) && AreBlanks(it.gap)
    && (it.arg.Word? && it.gap != [] ==> EndsWord(it.gap[0]))
  }

  /** Only the last gap may be empty. */
  predicate AreItems(items: seq<Item>) {
    items == [] || (IsItem(items[0]) && (|items| > 1 ==> items[0].gap != []) && AreItems(items[1..]))
  }

  function ItemsText(items: seq<Item>): seq<byte> {
    if items == [] then [] else ArgText(items[0].arg) + items[0].gap + ItemsText(items[1..])
  }

  function ItemsValue(items: seq<Item>): seq<seq<byte>>
    requires AreItems(items)
  {
    if items == [] then [] else [ArgValue(items[0].arg)] + ItemsValue(items[1..])
  }

  predicate IsArgLine(line: seq<byte>, lead: seq<byte>, items: seq<Item>) {
    AreBlanks(lead) && AreItems(items) && line == lead + ItemsText(items)
  }

  // ---- Every line of the grammar is split into its values ----

  lemma {:induction false} HasFirst(line: seq<byte>, p: nat, s: seq<byte>, q: nat)
    requires Has(line, p, s, q) && s != []
    ensures p < |line| && line[p] == s[0] && Has(line, p + 1, s[1..], q)
  {
    assert line[p] == line[p..q][0] && line[p + 1..q] == line[p..q][1..];
  }

  lemma {:induction false} SkipsBlanks(line: seq<byte>, p: nat, s: seq<byte>, q: nat)
    requires Has(line, p, s, q) && AreBlanks(s)
    ensures SkipSpace(line, p) == SkipSpace(line, q)
    decreases |s|
  {
    if s != [] {
      HasFirst(line, p, s, q);
      SkipsBlanks(line, p + 1, s[1..], q);
    }
  }

  lemma {:induction false} SameSkip(line: seq<byte>, p: nat, q: nat, done: seq<seq<byte>>)
    requires IsLine(line) && p <= |line| && q <= |line| && SkipSpace(line, p) == SkipSpace(line, q)
    ensures SplitArgs(line, p, done) == SplitArgs(line, q, done)
  {
  }

  lemma Regroup<T>(cur: seq<T>, c: T, s: seq<T>)
    ensures cur + ([c] + s) == cur + [c] + s
  {
  }

  lemma {:induction false} WordRead(line: seq<byte>, p: nat, w: seq<byte>, q: nat, cur: seq<byte>)
    requires IsLine(line) && Has(line, p, w, q) && AreWordBytes(w)
    ensures ArgAt(line, p, Bare, cur) == ArgAt(line, q, Bare, cur + w)
    decreases |w|
  {
    if w == [] {
      assert cur + w == cur;
    } else {
      HasFirst(line, p, w, q);
      WordRead(line, p + 1, w[1..], q, cur + [w[0]]);
      Regroup(cur, w[0], w[1..]);
      assert w == [w[0]] + w[1..];
    }
  }

  lemma {:induction false} PieceRead(line: seq<byte>, p: nat, x: Piece, q: nat, cur: seq<byte>)
    requires IsLine(line) && IsPiece(x) && Has(line, p, PieceText(x), q) && q < |line|
    requires x == Slashed(120) ==> !(IsDigit16(line[q]) && q + 1 < |line| && IsDigit16(line[q + 1]))
    ensures ArgAt(line, p, InQuotes, cur) == ArgAt(line, q, InQuotes, cur + [PieceValue(x)])
  {
    assert forall i :: p <= i < q ==> line[i] == PieceText(x)[i - p];
  }

  lemma {:induction false} NoHexFollows(line: seq<byte>, p: nat, t: seq<byte>, q: nat)
    requires Has(line, p, t, q) && q < |line| && line[q] == 34 && !BeginsHex(t)
    ensures !(IsDigit16(line[p]) && p + 1 < |line| && IsDigit16(line[p + 1]))
  {
    assert forall i :: p <= i < q ==> line[i] == t[i - p];
  }

  lemma {:induction false} PiecesRead(line: seq<byte>, p: nat, ps: seq<Piece>, q: nat, cur: seq<byte>)
    requires IsLine(line) && ArePieces(ps) && Has(line, p, PiecesText(ps), q) && q < |line| && line[q] == 34
    ensures ArgAt(line, p, InQuotes, cur) == ArgAt(line, q, InQuotes, cur + PiecesValue(ps))
    decreases |ps|
  {
    if ps == [] {
      assert cur + PiecesValue(ps) == cur;
    } else {
      var m := HasTwo(line, p, PieceText(ps[0]), PiecesText(ps[1..]), q);
      if ps[0] == Slashed(120) {
        NoHexFollows(line, m, PiecesText(ps[1..]), q);
      }
      PieceRead(line, p, ps[0], m, cur);
      PiecesRead(line, m, ps[1..], q, cur + [PieceValue(ps[0])]);
      Regroup(cur, PieceValue(ps[0]), PiecesValue(ps[1..]));
    }
  }

  lemma {:induction false} TickRead(line: seq<byte>, p: nat, c: byte, q: nat, cur: seq<byte>)
    requires IsLine(line) && c != 0 && Has(line, p, TickText(c), q) && q < |line| && (c == 92 ==> line[q] != 39)
    ensures ArgAt(line, p, InTicks, cur) == ArgAt(line, q, InTicks, cur + [c])
  {
    assert forall i :: p <= i < q ==> line[i] == TickText(c)[i - p];
  }

  lemma {:induction false} TicksRead(line: seq<byte>, p: nat, s: seq<byte>, q: nat, cur: seq<byte>)
    requires IsLine(line) && IsTicked(s) && Has(line, p, TicksText(s), q) && q < |line| && line[q] == 39
    ensures ArgAt(line, p, InTicks, cur) == ArgAt(line, q, InTicks, cur + s)
    decreases |s|
  {
    if s == [] {
      assert cur + s == cur;
    } else {
      var m := HasTwo(line, p, TickText(s[0]), TicksText(s[1..]), q);
      if s[1..] != [] {
        HasFirst(line, m, TicksText(s[1..]), q);
      }
      TickRead(line, p, s[0], m, cur);
      TicksRead(line, m, s[1..], q, cur + [s[0]]);
      Regroup(cur, s[0], s[1..]);
      assert s == [s[0]] + s[1..];
    }
  }

  /** What stands behind an argument: the end of the line, or a blank that may stand there. */
  predicate Closed(line: seq<byte>, a: Argument, q: nat) {
    q == |line| || (q < |line| && IsBlank(line[q]) && (a.Word? ==> EndsWord(line[q])))
  }

  /** Where the scan goes on: a word takes the blank behind it with it. */
  function Behind(line: seq<byte>, a: Argument, q: nat): nat {
    if a.Word? && q < |line| then q + 1 else q
  }

  lemma {:induction false} QuotesRead(line: seq<byte>, p: nat, ps: seq<Piece>, q: nat, cur: seq<byte>)
    requires IsLine(line) && ArePieces(ps) && Has(line, p, [34] + PiecesText(ps) + [34], q)
    requires q == |line| || IsBlank(line[q])
    ensures p < |line| && line[p] == 34 && ArgAt(line, p, Bare, cur) == Arg(cur + PiecesValue(ps), q)
  {
    var n := HasTwo(line, p, [34] + PiecesText(ps), [34], q);
    var k := HasTwo(line, p, [34], PiecesText(ps), n);
    HasFirst(line, p, [34], k);
    HasFirst(line, n, [34], q);
    PiecesRead(line, k, ps, n, cur);
  }

  lemma {:induction false} TickedRead(line: seq<byte>, p: nat, s: seq<byte>, q: nat, cur: seq<byte>)
    requires IsLine(line) && IsTicked(s) && Has(line, p, [39] + TicksText(s) + [39], q)
    requires q == |line| || IsBlank(line[q])
    ensures p < |line| && line[p] == 39 && ArgAt(line, p, Bare, cur) == Arg(cur + s, q)
  {
    var n := HasTwo(line, p, [39] + TicksText(s), [39], q);
    var k := HasTwo(line, p, [39], TicksText(s), n);
    HasFirst(line, p, [39], k);
    HasFirst(line, n, [39], q);
    TicksRead(line, k, s, n, cur);
  }

  lemma {:induction false} ArgumentRead(line: seq<byte>, p: nat, a: Argument, q: nat)
    requires IsLine(line) && IsArgument(a) && Has(line, p, ArgText(a), q) && Closed(line, a, q)
    ensures p < |line| && !IsBlank(line[p])
    ensures ArgAt(line, p, Bare, []) == Arg(ArgValue(a), Behind(line, a, q))
  {
    HasFirst(line, p, ArgText(a), q);
    assert [] + a.word == a.word;
    match a
    case Word(word) =>
      WordRead(line, p, word, q, []);
    case WithQuotes(word, pieces) =>
      var m := HasTwo(line, p, word, [34] + PiecesText(pieces) + [34], q);
      WordRead(line, p, word, m, []);
      QuotesRead(line, m, pieces, q, word);
    case WithTicks(word, body) =>
      var m := HasTwo(line, p, word, [39] + TicksText(body) + [39], q);
      WordRead(line, p, word, m, []);
      TickedRead(line, m, body, q, word);
  }

  lemma {:induction false} ItemRead(line: seq<byte>, p: nat, it: Item, q: nat, done: seq<seq<byte>>)
    requires IsLine(line) && IsItem(it) && Has(line, p, ArgText(it.arg) + it.gap, q) && (it.gap == [] ==> q == |line|)
    ensures SplitArgs(line, p, done) == SplitArgs(line, q, done + [ArgValue(it.arg)])
  {
    var a, v := it.arg, ArgValue(it.arg);
    var m := HasTwo(line, p, ArgText(a), it.gap, q);
    if it.gap != [] {
      HasFirst(line, m, it.gap, q);
    }
    ArgumentRead(line, p, a, m);
    assert SkipSpace(line, p) == p;
    var n := Behind(line, a, m);
    ArgRead(line, p, p, v, n, done);
    SkipsBlanks(line, m, it.gap, q);
    SameSkip(line, n, q, done + [v]);
  }

  lemma {:induction false} ItemsRead(line: seq<byte>, p: nat, items: seq<Item>, q: nat, done: seq<seq<byte>>)
    requires IsLine(line) && AreItems(items) && Has(line, p, ItemsText(items), q) && q == |line|
    ensures SplitArgs(line, p, done) == Args(done + ItemsValue(items))
    decreases |items|
  {
    if items == [] {
      assert done + ItemsValue(items) == done;
    } else {
      var it, rest := items[0], items[1..];
      var m := HasTwo(line, p, ArgText(it.arg) + it.gap, ItemsText(rest), q);
      LastGap(items, m, q);
      ItemRead(line, p, it, m, done);
      ItemsRead(line, m, rest, q, done + [ArgValue(it.arg)]);
      Regroup(done, ArgValue(it.arg), ItemsValue(rest));
    }
  }

  lemma {:induction false} LastGap(items: seq<Item>, m: nat, q: nat)
    requires items != [] && AreItems(items) && q == m + |ItemsText(items[1..])|
    ensures items[0].gap == [] ==> m == q
  {
  }

  lemma {:induction false} LineRead(line: seq<byte>, lead: seq<byte>, items: seq<Item>)
    requires IsLine(line) && IsArgLine(line, lead, items)
    ensures SplitArgs(line, 0, []) == Args(ItemsValue(items))
  {
    var q := |line|;
    assert Has(line, 0, lead + ItemsText(items), q);
    var m := HasTwo(line, 0, lead, ItemsText(items), q);
    SkipsBlanks(line, 0, lead, m);
    SameSkip(line, 0, m, []);
    ItemsRead(line, m, items, q, []);
    assert [] + ItemsValue(items) == ItemsValue(items);
  }

  // ---- Every line that is split is one of the grammar ----

  lemma {:induction false} HasMore(line: seq<byte>, p: nat, a: seq<byte>, m: nat, b: seq<byte>, q: nat)
    requires Has(line, p, a, m) && Has(line, m, b, q)
    ensures Has(line, p, a + b, q)
  {
    assert line[p..q] == line[p..m] + line[m..q];
  }

  /** The next piece inside double quotes. */
  lemma {:induction false} NextPiece(line: seq<byte>, p: nat, cur: seq<byte>) returns (x: Piece, m: nat)
    requires p < |line| && IsLine(line) && line[p] != 34 && ArgAt(line, p, InQuotes, cur).Arg?
    ensures IsPiece(x) && Has(line, p, PieceText(x), m)
    ensures x == Slashed(120) ==> !(m + 1 < |line| && IsDigit16(line[m]) && IsDigit16(line[m + 1]))
    ensures ArgAt(line, p, InQuotes, cur) == ArgAt(line, m, InQuotes, cur + [PieceValue(x)])
  {
    assert ArgAt(line, |line|, InQuotes, cur + [92]) == Malformed;
    if HexEscapeAt(line, p) {
      x, m := Hex(line[p + 2], line[p + 3]), p + 4;
    } else if line[p] == 92 {
      x, m := Slashed(line[p + 1]), p + 2;
    } else {
      x, m := Raw(line[p]), p + 1;
    }
  }

  lemma {:induction false} NoHex(line: seq<byte>, p: nat, t: seq<byte>, q: nat)
    requires Has(line, p, t, q) && !(p + 1 < |line| && IsDigit16(line[p]) && IsDigit16(line[p + 1]))
    ensures !BeginsHex(t)
  {
    assert forall i :: p <= i < q ==> line[i] == t[i - p];
  }

  lemma {:induction false} PiecesParsed(line: seq<byte>, p: nat, cur: seq<byte>) returns (ps: seq<Piece>, q: nat)
    requires p <= |line| && IsLine(line) && ArgAt(line, p, InQuotes, cur).Arg?
    ensures ArePieces(ps) && Has(line, p, PiecesText(ps), q) && q < |line| && line[q] == 34
    ensures ArgAt(line, p, InQuotes, cur) == Arg(cur + PiecesValue(ps), q + 1)
    ensures q + 1 == |line| || IsBlank(line[q + 1])
    decreases |line| - p
  {
    if line[p] == 34 {
      ps, q := [], p;
      assert cur + PiecesValue(ps) == cur;
    } else {
      var x, m := NextPiece(line, p, cur);
      var rest;
      rest, q := PiecesParsed(line, m, cur + [PieceValue(x)]);
      NoHexBehind(line, x, m, rest, q);
      ps := [x] + rest;
      assert ps[1..] == rest;
      HasMore(line, p, PieceText(x), m, PiecesText(rest), q);
      Regroup(cur, PieceValue(x), PiecesValue(rest));
    }
  }

  lemma {:induction false} NoHexBehind(line: seq<byte>, x: Piece, m: nat, rest: seq<Piece>, q: nat)
    requires Has(line, m, PiecesText(rest), q)
    requires x == Slashed(120) ==> !(m + 1 < |line| && IsDigit16(line[m]) && IsDigit16(line[m + 1]))
    ensures x == Slashed(120) ==> !BeginsHex(PiecesText(rest))
  {
    if x == Slashed(120) {
      NoHex(line, m, PiecesText(rest), q);
    }
  }

  /** The next byte inside single quotes. */
  lemma {:induction false} NextTick(line: seq<byte>, p: nat, cur: seq<byte>) returns (c: byte, m: nat)
    requires p < |line| && IsLine(line) && line[p] != 39 && ArgAt(line, p, InTicks, cur).Arg?
    ensures c != 0 && Has(line, p, TickText(c), m) && (c == 92 ==> m < |line| && line[m] != 39)
    ensures ArgAt(line, p, InTicks, cur) == ArgAt(line, m, InTicks, cur + [c])
  {
    c, m := line[p], p + 1;
    assert ArgAt(line, |line|, InTicks, cur + [c]) == Malformed;
    if line[p] == 92 && At(line, p + 1) == 39 {
      c, m := 39, p + 2;
    }
  }

  lemma {:induction false} TicksParsed(line: seq<byte>, p: nat, cur: seq<byte>) returns (s: seq<byte>, q: nat)
    requires p <= |line| && IsLine(line) && ArgAt(line, p, InTicks, cur).Arg?
    ensures IsTicked(s) && Has(line, p, TicksText(s), q) && q < |line| && line[q] == 39
    ensures ArgAt(line, p, InTicks, cur) == Arg(cur + s, q + 1)
    ensures q + 1 == |line| || IsBlank(line[q + 1])
    decreases |line| - p
  {
    if line[p] == 39 {
      s, q := [], p;
      assert cur + s == cur;
    } else {
      var c, m := NextTick(line, p, cur);
      var rest;
      rest, q := TicksParsed(line, m, cur + [c]);
      s := [c] + rest;
      assert s[1..] == rest;
      HasMore(line, p, TickText(c), m, TicksText(rest), q);
      Regroup(cur, c, rest);
    }
  }

  /** An argument whose word goes on behind `cur`. */
  predicate Continues(a: Argument) {
    && AreWordBytes(a.word)
    && match a
       case Word(_) => true
       case WithQuotes(_, pieces) => ArePieces(pieces)
       case WithTicks(_, body) => IsTicked(body)
  }

  function Tail(a: Argument): seq<byte>
    requires Continues(a)
  {
    match a
    case Word(word) => word
    case WithQuotes(word, pieces) => word + PiecesValue(pieces)
    case WithTicks(word, body) => word + body
  }

  /** `a`, which stands from `p` to `q`, is the argument read from `p` on. */
  predicate IsParsed(line: seq<byte>, p: nat, cur: seq<byte>, a: Argument, q: nat)
    requires p <= |line| && IsLine(line)
  {
    && Continues(a) && Has(line, p, ArgText(a), q) && Closed(line, a, q)
    && ArgAt(line, p, Bare, cur) == Arg(cur + Tail(a), Behind(line, a, q))
  }

  lemma {:induction false} QuotedHere(line: seq<byte>, p: nat, c: byte, t: seq<byte>, n: nat)
    requires p < |line| && line[p] == c && Has(line, p + 1, t, n) && n < |line| && line[n] == c
    ensures Has(line, p, [] + ([c] + t + [c]), n + 1)
  {
    assert line[p..n + 1] == [c] + line[p + 1..n] + [c];
    assert [] + ([c] + t + [c]) == [c] + t + [c];
  }

  lemma {:induction false} QuotesParsed(line: seq<byte>, p: nat, cur: seq<byte>) returns (a: Argument, q: nat)
    requires p < |line| && IsLine(line) && ArgAt(line, p, Bare, cur).Arg? && line[p] == 34
    ensures IsParsed(line, p, cur, a, q)
  {
    var ps, n := PiecesParsed(line, p + 1, cur);
    a, q := WithQuotes([], ps), n + 1;
    QuotedHere(line, p, 34, PiecesText(ps), n);
    assert [] + PiecesValue(ps) == PiecesValue(ps);
  }

  lemma {:induction false} TickedParsed(line: seq<byte>, p: nat, cur: seq<byte>) returns (a: Argument, q: nat)
    requires p < |line| && IsLine(line) && ArgAt(line, p, Bare, cur).Arg? && line[p] == 39
    ensures IsParsed(line, p, cur, a, q)
  {
    var s, n := TicksParsed(line, p + 1, cur);
    a, q := WithTicks([], s), n + 1;
    QuotedHere(line, p, 39, TicksText(s), n);
    assert [] + s == s;
  }

  function Longer(c: byte, a: Argument): Argument {
    match a
    case Word(word) => Word([c] + word)
    case WithQuotes(word, pieces) => WithQuotes([c] + word, pieces)
    case WithTicks(word, body) => WithTicks([c] + word, body)
  }

  lemma {:induction false} LongerText(c: byte, a: Argument)
    requires Continues(a) && AreWordBytes([c])
    ensures Continues(Longer(c, a)) && ArgText(Longer(c, a)) == [c] + ArgText(a)
    ensures Tail(Longer(c, a)) == [c] + Tail(a)
  {
    match a
    case Word(_) =>
    case WithQuotes(word, pieces) =>
      FrontStays(c, word, [34] + PiecesText(pieces) + [34]);
      FrontStays(c, word, PiecesValue(pieces));
    case WithTicks(word, body) =>
      FrontStays(c, word, [39] + TicksText(body) + [39]);
      FrontStays(c, word, body);
  }

  lemma FrontStays(c: byte, word: seq<byte>, rest: seq<byte>)
    ensures [c] + word + rest == [c] + (word + rest)
  {
  }

  lemma {:induction false} LongerHere(line: seq<byte>, p: nat, t: seq<byte>, q: nat)
    requires p < |line| && Has(line, p + 1, t, q)
    ensures Has(line, p, [line[p]] + t, q)
  {
    assert line[p..q] == [line[p]] + line[p + 1..q];
  }

  lemma {:induction false} LongerParsed(line: seq<byte>, p: nat, cur: seq<byte>, c: byte, p1: nat, a: Argument, q: nat)
    requires p < |line| && IsLine(line) && c == line[p] && AreWordBytes([c]) && p1 == p + 1
    requires IsParsed(line, p1, cur + [c], a, q) && ArgAt(line, p, Bare, cur) == ArgAt(line, p1, Bare, cur + [c])
    ensures IsParsed(line, p, cur, Longer(c, a), q)
  {
    LongerText(c, a);
    LongerHere(line, p, ArgText(a), q);
    Regroup(cur, c, Tail(a));
  }

  lemma {:induction false} ArgumentParsed(line: seq<byte>, p: nat, cur: seq<byte>) returns (a: Argument, q: nat)
    requires p <= |line| && IsLine(line) && ArgAt(line, p, Bare, cur).Arg?
    ensures IsParsed(line, p, cur, a, q)
    decreases |line| - p
  {
    if p == |line| || EndsWord(line[p]) {
      a, q := Word([]), p;
      assert cur + [] == cur;
    } else if line[p] == 34 {
      a, q := QuotesParsed(line, p, cur);
    } else if line[p] == 39 {
      a, q := TickedParsed(line, p, cur);
    } else {
      var rest;
      rest, q := ArgumentParsed(line, p + 1, cur + [line[p]]);
      a := Longer(line[p], rest);
      LongerParsed(line, p, cur, line[p], p + 1, rest, q);
    }
  }

  lemma {:induction false} BlanksBefore(line: seq<byte>, p: nat)
    requires p <= |line|
    ensures var q := SkipSpace(line, p); AreBlanks(line[p..q]) && (q < |line| ==> !IsBlank(line[q]))
    decreases |line| - p
  {
    if p < |line| && IsBlank(line[p]) {
      BlanksBefore(line, p + 1);
      var q := SkipSpace(line, p + 1);
      assert line[p..q] == [line[p]] + line[p + 1..q];
    }
  }

  lemma {:induction false} FirstOfArgument(line: seq<byte>, p: nat, a: Argument, q: nat)
    requires p < |line| && !IsBlank(line[p]) && Continues(a) && Has(line, p, ArgText(a), q) && Closed(line, a, q)
    ensures IsArgument(a) && ArgValue(a) == Tail(a)
  {
    if a.word != [] {
      HasFirst(line, p, ArgText(a), q);
    }
  }

  lemma {:induction false} GapBehind(line: seq<byte>, p: nat, a: Argument, q: nat) returns (it: Item, r: nat)
    requires IsArgument(a) && Has(line, p, ArgText(a), q) && Closed(line, a, q)
    ensures it.arg == a && IsItem(it) && Has(line, p, ArgText(a) + it.gap, r) && (r < |line| ==> !IsBlank(line[r]))
    ensures it.gap == [] ==> r == |line|
    ensures Behind(line, a, q) <= |line| && SkipSpace(line, Behind(line, a, q)) == r
  {
    BlanksBefore(line, q);
    r := SkipSpace(line, q);
    it := Item(a, line[q..r]);
    HasMore(line, p, ArgText(a), q, it.gap, r);
  }

  /** The first argument from `p`, where no blank stands, with the blanks behind it up to `r`. */
  lemma {:induction false} ItemParsed(line: seq<byte>, p: nat) returns (it: Item, r: nat)
    requires p < |line| && IsLine(line) && !IsBlank(line[p]) && ArgAt(line, p, Bare, []).Arg?
    ensures IsItem(it) && Has(line, p, ArgText(it.arg) + it.gap, r) && (r < |line| ==> !IsBlank(line[r]))
    ensures it.gap == [] ==> r == |line|
    ensures var x := ArgAt(line, p, Bare, []); x.value == ArgValue(it.arg) && r == SkipSpace(line, x.next)
  {
    var a, q := ArgumentParsed(line, p, []);
    assert [] + Tail(a) == Tail(a);
    FirstOfArgument(line, p, a, q);
    it, r := GapBehind(line, p, a, q);
  }

  lemma {:induction false} ItemsParsed(line: seq<byte>, p: nat, done: seq<seq<byte>>) returns (items: seq<Item>)
    requires p <= |line| && IsLine(line) && (p < |line| ==> !IsBlank(line[p])) && SplitArgs(line, p, done).Args?
    ensures AreItems(items) && Has(line, p, ItemsText(items), |line|)
    ensures SplitArgs(line, p, done) == Args(done + ItemsValue(items))
    decreases |line| - p
  {
    assert SkipSpace(line, p) == p;
    if p == |line| {
      items := [];
      assert done + ItemsValue(items) == done;
    } else {
      ArgMoves(line, p);
      var it, r := ItemParsed(line, p);
      var x := ArgAt(line, p, Bare, []);
      SkipTwice(line, x.next);
      SameSkip(line, x.next, r, done + [x.value]);
      var rest := ItemsParsed(line, r, done + [x.value]);
      items := [it] + rest;
      assert items[1..] == rest;
      ItemsJoin(line, p, it, r, rest, done);
    }
  }

  lemma {:induction false} SkipTwice(line: seq<byte>, p: nat)
    requires p <= |line|
    ensures SkipSpace(line, SkipSpace(line, p)) == SkipSpace(line, p)
  {
    BlanksBefore(line, p);
  }

  lemma {:induction false} ItemsJoin(line: seq<byte>, p: nat, it: Item, r: nat, rest: seq<Item>, done: seq<seq<byte>>)
    requires IsItem(it) && AreItems(rest) && (it.gap == [] ==> r == |line|)
    requires Has(line, p, ArgText(it.arg) + it.gap, r) && Has(line, r, ItemsText(rest), |line|)
    ensures AreItems([it] + rest) && Has(line, p, ItemsText([it] + rest), |line|)
    ensures done + ItemsValue([it] + rest) == done + [ArgValue(it.arg)] + ItemsValue(rest)
  {
    var items := [it] + rest;
    assert items[1..] == rest;
    HasMore(line, p, ArgText(it.arg) + it.gap, r, ItemsText(rest), |line|);
    if rest != [] {
      TextNotEmpty(rest[0].arg);
    }
  }

  lemma {:induction false} TextNotEmpty(a: Argument)
    requires IsArgument(a)
    ensures ArgText(a) != []
  {
  }

  lemma {:induction false} LineParsed(line: seq<byte>) returns (lead: seq<byte>, items: seq<Item>)
    requires IsLine(line) && SplitArgs(line, 0, []).Args?
    ensures IsArgLine(line, lead, items)
  {
    BlanksBefore(line, 0);
    SkipTwice(line, 0);
    var q := SkipSpace(line, 0);
    SameSkip(line, 0, q, []);
    lead := line[..q];
    items := ItemsParsed(line, q, []);
    assert line == line[..q] + line[q..|line|];
  }

  /** `sdssplitargs`, in bytes: a line is split exactly when it is one of the grammar, and then into the
      values of its arguments; every other line is unbalanced. */
  lemma {:induction false} SplitsExactly(line: seq<byte>)
    requires IsLine(line)
    ensures forall lead, items :: IsArgLine(line, lead, items) ==> SplitArgs(line, 0, []) == Args(ItemsValue(items))
    ensures SplitArgs(line, 0, []) == Unbalanced <==> !exists lead, items :: IsArgLine(line, lead, items)
  {
    forall lead, items | IsArgLine(line, lead, items)
      ensures SplitArgs(line, 0, []) == Args(ItemsValue(items))
    {
      LineRead(line, lead, items);
    }
    if SplitArgs(line, 0, []).Args? {
      var lead, items := LineParsed(line);
    }
  }

  // ---- Lines made of arguments ----

  lemma {:induction false} PiecesNoNul(ps: seq<Piece>)
    requires ArePieces(ps)
    ensures IsLine(PiecesText(ps))
    decreases |ps|
  {
    if ps != [] {
      PiecesNoNul(ps[1..]);
    }
  }

  lemma {:induction false} TicksNoNul(s: seq<byte>)
    requires IsLine(s)
    ensures IsLine(TicksText(s))
    decreases |s|
  {
    if s != [] {
      TicksNoNul(s[1..]);
    }
  }

  lemma {:induction false} ItemsNoNul(items: seq<Item>)
    requires AreItems(items)
    ensures IsLine(ItemsText(items))
    decreases |items|
  {
    if items != [] {
      match items[0].arg {
        case Word(_) =>
        case WithQuotes(_, pieces) => PiecesNoNul(pieces);
        case WithTicks(_, body) => TicksNoNul(body);
      }
      ItemsNoNul(items[1..]);
    }
  }

  /** Any arguments with blanks between them are a line, which is split into their values. */
  lemma {:induction false} ItemsSplit(lead: seq<byte>, items: seq<Item>)
    requires AreBlanks(lead) && AreItems(items)
    ensures IsLine(lead + ItemsText(items))
    ensures SplitArgs(lead + ItemsText(items), 0, []) == Args(ItemsValue(items))
  {
    ItemsNoNul(items);
    LineRead(lead + ItemsText(items), lead, items);
  }

  /** A line of words without blanks and quotes is split into these words. */
  lemma {:induction false} PlainWords(lead: seq<byte>, items: seq<Item>)
    requires AreBlanks(lead) && AreItems(items) && forall i :: 0 <= i < |items| ==> items[i].arg.Word?
    ensures IsLine(lead + ItemsText(items))
    ensures exists words :: |words| == |items| && SplitArgs(lead + ItemsText(items), 0, []) == Args(words)
                            && forall i :: 0 <= i < |items| ==> words[i] == items[i].arg.word
  {
    ItemsSplit(lead, items);
    ValuesAre(items);
    var words := ItemsValue(items);
  }

  lemma {:induction false} ValuesAre(items: seq<Item>)
    requires AreItems(items)
    ensures |ItemsValue(items)| == |items|
    ensures forall i :: 0 <= i < |items| ==> IsArgument(items[i].arg) && ItemsValue(items)[i] == ArgValue(items[i].arg)
    decreases |items|
  {
    if items != [] {
      var rest := items[1..];
      ValuesAre(rest);
      forall i | 1 <= i < |items|
        ensures IsArgument(items[i].arg) && ItemsValue(items)[i] == ArgValue(items[i].arg)
      {
        assert items[i] == rest[i - 1];
      }
    }
  }

  /** A string in single quotes, its own single quotes escaped. */
  function Ticked(s: seq<byte>): seq<byte> {
    [39] + TicksText(s) + [39]
  }

  /** A string without NUL in single quotes, alone on a line, is read back exactly when it does not end
      in a backslash: that one escapes the closing quote. */
  lemma {:induction false} TickRoundTrip(s: seq<byte>)
    requires IsLine(s)
    ensures IsLine(Ticked(s))
    ensures SplitArgs(Ticked(s), 0, []) == Args([s]) <==> !(s != [] && s[|s| - 1] == 92)
  {
    TicksNoNul(s);
    var line := Ticked(s);
    if s != [] && s[|s| - 1] == 92 {
      if SplitArgs(line, 0, []) == Args([s]) {
        var lead, items := LineParsed(line);
        LineRead(line, lead, items);
        TickedAlone(lead, items, s);
      }
    } else {
      var items := [Item(WithTicks([], s), [])];
      assert ItemsValue(items) == [[] + s] && [] + s == s;
      assert ItemsText(items) == line && [] + line == line;
      ItemsSplit([], items);
    }
  }

  lemma {:induction false} TickedAlone(lead: seq<byte>, items: seq<Item>, s: seq<byte>)
    requires AreBlanks(lead) && AreItems(items) && ItemsValue(items) == [s] && lead + ItemsText(items) == Ticked(s)
    ensures IsTicked(s)
  {
    ValuesAre(items);
    var a := items[0].arg;
    assert lead == [] by {
      assert (lead + ItemsText(items))[0] == 39;
    }
    assert [] + ItemsText(items) == ItemsText(items);
    TextNotEmpty(a);
    assert ArgText(a)[0] == ItemsText(items)[0] == 39;
    assert a.word == [];
    assert a.WithTicks? && [] + a.body == a.body;
  }

  /** A word and a string that `sdscatrepr` printed right behind it are one argument. */
  lemma {:induction false} WordThenRepr(w: seq<byte>, s: seq<byte>)
    requires AreWordBytes(w) && (w != [] ==> !IsBlank(w[0]))
    ensures IsLine(w + Repr(s)) && SplitArgs(w + Repr(s), 0, []) == Args([w + s])
  {
    EscapesNoNul(s);
    var line := w + Repr(s);
    var q := |line|;
    var m := HasTwo(line, 0, w, Repr(s), q);
    assert [] + w == w;
    WordRead(line, 0, w, m, []);
    ReprRead(line, m, s, q, w);
    assert SkipSpace(line, 0) == 0;
    ArgRead(line, 0, 0, w + s, q, []);
  }
}
