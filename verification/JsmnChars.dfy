/** The strings, primitives and blanks of lib/jsmn/jsmn.c, written with their own characters, and the
    proofs that the scanners of `JsmnModel` find exactly these. */
module JsmnChars {
  import opened JsmnModel

  // ---- Characters ----

  predicate IsGap(c: char) {
    c == ' ' || c == '\t' || c == '\n' || c == '\r' || c == ':' || c == ','
  }

  predicate IsDigit16(c: char) {
    '0' <= c <= '9' || 'a' <= c <= 'f' || 'A' <= c <= 'F'
  }

  /** What may follow a backslash, besides `u`. */
  predicate IsShort(c: char) {
    c == '\"' || c == '\\' || c == '/' || c == 'b' || c == 'f' || c == 'n' || c == 'r' || c == 't'
  }

  /** The printable ASCII characters but the space, the separators and the closing brackets. */
  predicate IsWordChar(c: char) {
    '!' <= c <= '~' && c != ',' && c != ':' && c != ']' && c != '}'
  }

  /** The end of the text: its length or its first NUL. */
  predicate IsEnd(js: string, n: nat) {
    n == |js| || (n < |js| && js[n] == '\0')
  }

  lemma {:induction false} EndIsNoMore(js: string, n: nat)
    requires n <= |js|
    ensures IsEnd(js, n) <==> !More(js, n)
  {
  }

  // ---- Strings ----

  predicate Digits16(js: string, p: nat, q: nat) {
    p <= q <= |js| && forall k :: p <= k < q ==> IsDigit16(js[k])
  }

  /** The text from `p` to `q` is the body of a string: characters other than quote, backslash and NUL,
      eight short escapes, and `\u` with four hexadecimal digits. */
  predicate IsBody(js: string, p: nat, q: nat)
    decreases q - p
  {
    p <= q <= |js| && (
      || p == q
      || (js[p] != '\"' && js[p] != '\\' && js[p] != '\0' && IsBody(js, p + 1, q))
      || (js[p] == '\\' && p + 2 <= q && IsShort(js[p + 1]) && IsBody(js, p + 2, q))
      || (js[p] == '\\' && p + 6 <= q && js[p + 1] == 'u' && Digits16(js, p + 2, p + 6) && IsBody(js, p + 6, q)))
  }

  /** A closed string: its token goes from `start` to `end`, between the quotes. */
  predicate IsString(js: string, start: nat, end: nat) {
    0 < start <= end < |js| && js[start - 1] == '\"' && IsBody(js, start, end) && js[end] == '\"'
  }

  /** The text ends at `q`, or inside a `\u` escape that begins there. */
  predicate Breaks(js: string, q: nat) {
    || IsEnd(js, q)
    || (q + 2 <= |js| && js[q] == '\\' && js[q + 1] == 'u'
        && exists m :: q < m < q + 6 && Digits16(js, q + 2, m) && IsEnd(js, m))
  }

  /** At `q` stands a backslash and neither an escape nor the beginning of a `\u` escape. */
  predicate Misused(js: string, q: nat) {
    && q < |js| && js[q] == '\\'
    && (|| q + 1 == |js|
        || (!IsShort(js[q + 1]) && js[q + 1] != 'u')
        || (js[q + 1] == 'u'
            && exists m :: q < m < q + 6 && Digits16(js, q + 2, m) && !IsEnd(js, m) && !IsDigit16(js[m])))
  }

  /** A string whose body begins at `p` and which the text ends inside of. */
  ghost predicate Unfinished(js: string, p: nat) {
    exists q :: IsBody(js, p, q) && Breaks(js, q)
  }

  /** A string whose body begins at `p` and holds a backslash that is misused. */
  ghost predicate Spoilt(js: string, p: nat) {
    exists q :: IsBody(js, p, q) && Misused(js, q)
  }

  lemma {:induction false} HexDigits(js: string, p: nat, i: nat) returns (m: nat)
    requires p <= |js| && i <= 4
    ensures m - p <= 4 - i && Digits16(js, p, m)
    ensures match HexEnd(js, p, i)
            case Found(q) => q == m && (m - p == 4 - i || IsEnd(js, q))
            case Failed(_) => m - p < 4 - i && !IsEnd(js, m) && !IsDigit16(js[m])
    decreases 4 - i
  {
    m := p;
    if i < 4 && At(js, p) != NUL && IsHex(js[p]) {
      m := HexDigits(js, p + 1, i + 1);
    }
  }

  lemma {:induction false} DigitsHex(js: string, p: nat, i: nat, m: nat)
    requires Digits16(js, p, m) && i + (m - p) <= 4
    ensures HexEnd(js, p, i) == HexEnd(js, m, i + (m - p))
    decreases m - p
  {
    if p < m {
      assert IsDigit16(js[p]);
      DigitsHex(js, p + 1, i + 1, m);
    }
  }

  /** The body of a string is scanned through. */
  lemma {:induction false} BodyScanned(js: string, p: nat, q: nat)
    requires IsBody(js, p, q)
    ensures StringEnd(js, p) == StringEnd(js, q)
    decreases q - p
  {
    if p < q {
      if js[p] != '\\' {
        BodyScanned(js, p + 1, q);
      } else if p + 2 <= q && IsShort(js[p + 1]) {
        BodyScanned(js, p + 2, q);
      } else {
        DigitsHex(js, p + 2, 0, p + 6);
        BodyScanned(js, p + 6, q);
      }
    }
  }

  /** Where the scan of a string stops: at a quote, at the end of the text, or at a misused backslash. */
  lemma {:induction false} StringStops(js: string, p: nat) returns (q: nat)
    requires p <= |js|
    ensures IsBody(js, p, q)
    ensures match StringEnd(js, p)
            case Found(e) => e == q && js[q] == '\"'
            case Failed(code) => if code == Partial then Breaks(js, q) else Misused(js, q)
    decreases |js| - p
  {
    q := p;
    if More(js, p) && js[p] != QUOTE {
      if js[p] != '\\' {
        q := StringStops(js, p + 1);
      } else if p + 1 < |js| && IsEscape(js[p + 1]) {
        q := StringStops(js, p + 2);
      } else if p + 1 < |js| && js[p + 1] == 'u' {
        q := UnicodeStops(js, p);
      }
    }
  }

  lemma {:induction false} UnicodeStops(js: string, p: nat) returns (q: nat)
    requires p + 2 <= |js| && js[p] == '\\' && js[p + 1] == 'u'
    ensures IsBody(js, p, q)
    ensures match StringEnd(js, p)
            case Found(e) => e == q && js[q] == '\"'
            case Failed(code) => if code == Partial then Breaks(js, q) else Misused(js, q)
    decreases |js| - p, 0
  {
    q := p;
    var m := HexDigits(js, p + 2, 0);
    var h := HexEnd(js, p + 2, 0);
    if h.Found? && m == p + 6 {
      q := StringStops(js, p + 6);
    }
  }

  lemma {:induction false} StopIsExact(js: string, q: nat)
    requires q <= |js|
    ensures q < |js| && js[q] == '\"' ==> StringEnd(js, q) == Found(q)
    ensures Breaks(js, q) ==> StringEnd(js, q) == Failed(Partial)
    ensures Misused(js, q) ==> StringEnd(js, q) == Failed(Inval)
  {
    if !IsEnd(js, q) && q + 2 <= |js| && js[q] == '\\' && js[q + 1] == 'u' {
      if m: nat :| m < q + 6 && Digits16(js, q + 2, m) && (IsEnd(js, m) || !IsDigit16(js[m])) {
        DigitsHex(js, q + 2, 0, m);
      }
    }
  }

  /** The scanner of strings, in characters: it finds the closing quote of a closed string, reports an
      unfinished one as partial and a misused backslash as invalid, and one of the three is the case. */
  lemma {:induction false} StringsExactly(js: string, p: nat)
    requires 0 < p <= |js| && js[p - 1] == '\"'
    ensures forall q :: StringEnd(js, p) == Found(q) <==> IsString(js, p, q)
    ensures StringEnd(js, p) == Failed(Partial) <==> Unfinished(js, p)
    ensures StringEnd(js, p) == Failed(Inval) <==> Spoilt(js, p)
  {
    var stop := StringStops(js, p);
    forall q: nat | IsBody(js, p, q)
      ensures StringEnd(js, p) == StringEnd(js, q)
      ensures q < |js| && js[q] == '\"' ==> StringEnd(js, q) == Found(q)
      ensures Breaks(js, q) ==> StringEnd(js, q) == Failed(Partial)
      ensures Misused(js, q) ==> StringEnd(js, q) == Failed(Inval)
    {
      BodyScanned(js, p, q);
      StopIsExact(js, q);
    }
  }

  // ---- Primitives ----

  /** A primitive: a run of word characters that does not begin like another token and goes on to the
      end of the text, a gap or a closing bracket. */
  predicate IsPrimitive(js: string, start: nat, end: nat) {
    IsRun(js, start, end) && Follows(js, end)
  }

  /** What may follow a primitive. */
  predicate Follows(js: string, q: nat) {
    IsEnd(js, q) || (q < |js| && (IsGap(js[q]) || js[q] == ']' || js[q] == '}'))
  }

  predicate IsRun(js: string, start: nat, end: nat) {
    && start < end <= |js| && js[start] != '{' && js[start] != '[' && js[start] != '\"'
    && forall k :: start <= k < end ==> IsWordChar(js[k])
  }

  /** A character that begins no other token, or a run of word characters, and then a character that
      cannot stand in a primitive. */
  ghost predicate BadPrimitive(js: string, start: nat) {
    exists end :: (end == start || IsRun(js, start, end)) && IsForeign(js, end)
  }

  predicate IsForeign(js: string, k: nat) {
    k < |js| && js[k] != '\0' && !('!' <= js[k] <= '~') && !IsGap(js[k])
  }

  lemma {:induction false} RunScanned(js: string, p: nat, q: nat)
    requires p <= q <= |js| && forall k :: p <= k < q ==> IsWordChar(js[k])
    ensures PrimitiveEnd(js, p) == PrimitiveEnd(js, q)
    decreases q - p
  {
    if p < q {
      RunScanned(js, p + 1, q);
    }
  }

  lemma {:induction false} PrimitiveStops(js: string, p: nat) returns (q: nat)
    requires p <= |js|
    ensures p <= q <= |js| && forall k :: p <= k < q ==> IsWordChar(js[k])
    ensures match PrimitiveEnd(js, p)
            case Found(e) => e == q && Follows(js, q)
            case Failed(_) => IsForeign(js, q)
    decreases |js| - p
  {
    q := p;
    if More(js, p) && !IsDelimiter(js[p]) && IsPrintable(js[p]) {
      q := PrimitiveStops(js, p + 1);
    }
  }

  /** The scanner of primitives, in characters. */
  lemma {:induction false} PrimitivesExactly(js: string, p: nat)
    requires More(js, p) && StartsPrimitive(js[p])
    ensures forall q :: PrimitiveEnd(js, p) == Found(q) <==> IsPrimitive(js, p, q)
    ensures PrimitiveEnd(js, p) == Failed(Inval) <==> BadPrimitive(js, p)
  {
    var stop := PrimitiveStops(js, p);
    forall q: nat | q == p || IsRun(js, p, q)
      ensures q <= |js| && PrimitiveEnd(js, p) == PrimitiveEnd(js, q)
    {
      RunScanned(js, p, q);
    }
  }
}
