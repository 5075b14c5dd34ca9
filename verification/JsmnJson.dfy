/** Every JSON text of RFC 8259 is accepted, and its tokens list its values in preorder. A `Json` is
    a text together with its layout; `IsJson` says that it follows the grammar of section 2 (and
    section 6 for numbers, section 7 for strings). */
module JsmnJson {
  import opened Sequences
  import opened JsmnChars
  import opened JsmnModel
  import opened JsmnTree
  import opened JsmnText

  /** One character of a string: as it is, `\` and one of eight characters, or `\u` and four digits. */
  datatype Letter = Plain(c: char) | Escaped(c: char) | Unicode(a: char, b: char, c: char, d: char)

  datatype Json =
    | Name(text: string)
    | Number(minus: string, whole: string, frac: string, exp: string)
    | Text(letters: seq<Letter>)
    | Structure(kind: Kind, fields: seq<Field>, blank: string)

  /** A value inside an array or object, with the separator before it and the whitespace around it. */
  datatype Field = Field(sep: string, before: string, value: Json, after: string)

  // ---- The grammar ----

  predicate IsSpace(s: string) {
    forall i :: 0 <= i < |s| ==> s[i] == ' ' || s[i] == '\t' || s[i] == '\n' || s[i] == '\r'
  }

  predicate IsDigits(s: string) {
    s != "" && forall i :: 0 <= i < |s| ==> '0' <= s[i] <= '9'
  }

  predicate IsWhole(s: string) {
    IsDigits(s) && (s[0] == '0' ==> |s| == 1)
  }

  predicate IsFraction(s: string) {
    s == "" || (s[0] == '.' && IsDigits(s[1..]))
  }

  predicate IsExponent(s: string) {
    s == "" || ((s[0] == 'e' || s[0] == 'E')
                && (IsDigits(s[1..]) || (|s| > 1 && (s[1] == '+' || s[1] == '-') && IsDigits(s[2..]))))
  }

  predicate IsLetter(l: Letter) {
    match l
    case Plain(c) => c as int >= 0x20 && c != '\"' && c != '\\'
    case Escaped(c) =>
      c == '\"' || c == '\\' || c == '/' || c == 'b' || c == 'f' || c == 'n' || c == 'r' || c == 't'
    case Unicode(a, b, c, d) => IsDigit16(a) && IsDigit16(b) && IsDigit16(c) && IsDigit16(d)
  }

  predicate IsJson(j: Json)
    decreases j, 1
  {
    match j
    case Name(text) => text == "true" || text == "false" || text == "null"
    case Number(minus, whole, frac, exp) =>
      (minus == "" || minus == "-") && IsWhole(whole) && IsFraction(frac) && IsExponent(exp)
    case Text(letters) => forall i :: 0 <= i < |letters| ==> IsLetter(letters[i])
    case Structure(kind, fields, blank) =>
      IsSpace(blank) && AreJson(fields)
      && match kind
         case Array => forall i :: 0 <= i < |fields| ==> fields[i].sep == if i == 0 then "" else ","
         case Object =>
           && |fields| % 2 == 0
           && forall i :: 0 <= i < |fields| ==>
                if i % 2 == 0 then fields[i].value.Text? && fields[i].sep == (if i == 0 then "" else ",")
                else fields[i].sep == ":"
         case _ => false
  }

  predicate AreJson(fields: seq<Field>)
    decreases fields, 0
  {
    forall i :: 0 <= i < |fields| ==> IsSpace(fields[i].before) && IsJson(fields[i].value) && IsSpace(fields[i].after)
  }

  // ---- The text of a value ----

  function LetterText(l: Letter): string {
    match l
    case Plain(c) => [c]
    case Escaped(c) => ['\\', c]
    case Unicode(a, b, c, d) => ['\\', 'u', a, b, c, d]
  }

  function LettersText(ls: seq<Letter>): string {
    if ls == [] then "" else LetterText(ls[0]) + LettersText(ls[1..])
  }

  function Opener(kind: Kind): string { if kind == Object then "{" else "[" }
  function Closer(kind: Kind): string { if kind == Object then "}" else "]" }

  function TextOf(j: Json): string
    decreases j, 1
  {
    match j
    case Name(text) => text
    case Number(minus, whole, frac, exp) => minus + whole + frac + exp
    case Text(letters) => "\"" + LettersText(letters) + "\""
    case Structure(kind, fields, blank) => Opener(kind) + FieldsText(fields) + blank + Closer(kind)
  }

  function FieldsText(fs: seq<Field>): string
    decreases fs, 0
  {
    if fs == [] then "" else
      var f := fs[|fs| - 1];
      FieldsText(fs[..|fs| - 1]) + f.sep + f.before + TextOf(f.value) + f.after
  }

  /** The tree of a value whose text begins at `p`. */
  function TreeOf(j: Json, p: nat): Val
    decreases j, 1
  {
    match j
    case Name(_) => Atom(Primitive, p, p + |TextOf(j)|)
    case Number(_, _, _, _) => Atom(Primitive, p, p + |TextOf(j)|)
    case Text(letters) => Atom(String, p + 1, p + 1 + |LettersText(letters)|)
    case Structure(kind, fields, _) => Group(kind, p, p + |TextOf(j)|, TreesOf(fields, p + 1))
  }

  function TreesOf(fs: seq<Field>, p: nat): (vs: seq<Val>)
    ensures |vs| == |fs|
    decreases fs, 0
  {
    if fs == [] then [] else
      var f := fs[|fs| - 1];
      TreesOf(fs[..|fs| - 1], p) + [TreeOf(f.value, p + |FieldsText(fs[..|fs| - 1])| + |f.sep| + |f.before|)]
  }

  // ---- A text inside another ----

  predicate IsPrimitiveText(s: string) {
    s != "" && forall i :: 0 <= i < |s| ==> IsWordChar(s[i])
  }

  lemma {:induction false} PrimitiveHere(js: string, p: nat, s: string, q: nat)
    requires Has(js, p, s, q) && IsPrimitiveText(s) && Follows(js, q) && s[0] != '\"' && s[0] != '{' && s[0] != '['
    ensures IsPrimitive(js, p, q)
  {
    assert forall i :: p <= i < q ==> js[i] == s[i - p];
  }

  lemma {:induction false} DigitsArePrimitive(s: string)
    requires IsDigits(s)
    ensures IsPrimitiveText(s)
  {
  }

  lemma {:induction false} PrimitiveJoin(a: string, b: string)
    requires (a == "" || IsPrimitiveText(a)) && (b == "" || IsPrimitiveText(b))
    ensures a + b == "" || IsPrimitiveText(a + b)
  {
  }

  lemma {:induction false} NumberIsPrimitive(j: Json)
    requires j.Number? && IsJson(j)
    ensures var s := TextOf(j); IsPrimitiveText(s) && s[0] != '\"' && s[0] != '{' && s[0] != '['
  {
    DigitsArePrimitive(j.whole);
    FractionIsPrimitive(j.frac);
    ExponentIsPrimitive(j.exp);
    PrimitiveJoin(j.minus, j.whole);
    PrimitiveJoin(j.minus + j.whole, j.frac);
    PrimitiveJoin(j.minus + j.whole + j.frac, j.exp);
    assert TextOf(j)[0] == if j.minus == "" then j.whole[0] else '-';
  }

  lemma {:induction false} FractionIsPrimitive(s: string)
    requires IsFraction(s)
    ensures s == "" || IsPrimitiveText(s)
  {
    assert s != "" ==> forall i :: 1 <= i < |s| ==> s[i] == s[1..][i - 1];
  }

  lemma {:induction false} ExponentIsPrimitive(s: string)
    requires IsExponent(s)
    ensures s == "" || IsPrimitiveText(s)
  {
    if s != "" {
      if IsDigits(s[1..]) {
        assert forall i :: 1 <= i < |s| ==> s[i] == s[1..][i - 1];
      } else {
        assert forall i :: 2 <= i < |s| ==> s[i] == s[2..][i - 2];
      }
    }
  }

  // ---- Strings ----

  lemma {:induction false} LettersBody(js: string, p: nat, ls: seq<Letter>, q: nat)
    requires (forall i :: 0 <= i < |ls| ==> IsLetter(ls[i])) && Has(js, p, LettersText(ls), q)
    ensures IsBody(js, p, q)
    decreases |ls|
  {
    if ls != [] {
      var m := HasTwo(js, p, LetterText(ls[0]), LettersText(ls[1..]), q);
      assert forall i :: p <= i < m ==> js[i] == LetterText(ls[0])[i - p];
      LettersBody(js, m, ls[1..], q);
    }
  }

  /** Every JSON string ends, for the tokenizer, at its own closing quote. */
  lemma {:induction false} LettersRead(js: string, p: nat, ls: seq<Letter>, q: nat)
    requires (forall i :: 0 <= i < |ls| ==> IsLetter(ls[i])) && Has(js, p, LettersText(ls), q)
    requires q < |js| && js[q] == '\"'
    ensures StringEnd(js, p) == Found(q)
  {
    LettersBody(js, p, ls, q);
    BodyScanned(js, p, q);
  }

  lemma {:induction false} StringHere(js: string, p: nat, ls: seq<Letter>, q: nat)
    requires (forall i :: 0 <= i < |ls| ==> IsLetter(ls[i])) && Has(js, p, "\"" + LettersText(ls) + "\"", q)
    ensures q == p + |LettersText(ls)| + 2 && IsString(js, p + 1, p + 1 + |LettersText(ls)|)
  {
    var m := HasTwo(js, p, "\"" + LettersText(ls), "\"", q);
    var k := HasTwo(js, p, "\"", LettersText(ls), m);
    assert js[p] == js[p..k][0] && js[m] == js[m..q][0];
    LettersBody(js, k, ls, m);
  }

  // ---- Values lie over their text ----

  lemma {:induction false} SpaceIsBlank(js: string, p: nat, s: string, q: nat)
    requires Has(js, p, s, q) && (IsSpace(s) || s == "," || s == ":")
    ensures Blank(js, p, q)
  {
    assert forall i :: p <= i < q ==> js[i] == s[i - p];
  }

  lemma {:induction false} BlankJoin(js: string, p: nat, m: nat, q: nat)
    requires Blank(js, p, m) && Blank(js, m, q)
    ensures Blank(js, p, q)
  {
  }

  lemma {:induction false} BlankFollows(js: string, p: nat, q: nat)
    requires Blank(js, p, q) && Follows(js, q)
    ensures Follows(js, p)
  {
  }

  /** The fields of a structure are separated: all but the first have something before them. */
  predicate Separated(fs: seq<Field>) {
    && AreJson(fs)
    && (forall i :: 0 <= i < |fs| ==> fs[i].sep == "" || fs[i].sep == "," || fs[i].sep == ":")
    && (forall i :: 0 < i < |fs| ==> fs[i].sep != "")
  }

  lemma {:induction false} NameLies(js: string, p: nat, j: Json, q: nat)
    requires j.Name? && IsJson(j) && Has(js, p, TextOf(j), q) && Follows(js, q)
    ensures IsText(js, TreeOf(j, p)) && Begin(TreeOf(j, p)) == p && Stop(TreeOf(j, p)) == q
  {
    PrimitiveHere(js, p, j.text, q);
  }

  lemma {:induction false} NumberLies(js: string, p: nat, j: Json, q: nat)
    requires j.Number? && IsJson(j) && Has(js, p, TextOf(j), q) && Follows(js, q)
    ensures IsText(js, TreeOf(j, p)) && Begin(TreeOf(j, p)) == p && Stop(TreeOf(j, p)) == q
  {
    NumberIsPrimitive(j);
    PrimitiveHere(js, p, TextOf(j), q);
  }

  lemma {:induction false} TextLies(js: string, p: nat, j: Json, q: nat)
    requires j.Text? && IsJson(j) && Has(js, p, TextOf(j), q)
    ensures IsText(js, TreeOf(j, p)) && Begin(TreeOf(j, p)) == p && Stop(TreeOf(j, p)) == q
  {
    StringHere(js, p, j.letters, q);
  }

  lemma {:induction false} JsonLies(js: string, p: nat, j: Json, q: nat)
    requires IsJson(j) && Has(js, p, TextOf(j), q) && Follows(js, q)
    ensures IsText(js, TreeOf(j, p)) && Begin(TreeOf(j, p)) == p && Stop(TreeOf(j, p)) == q
    decreases j, 1
  {
    match j
    case Name(_) => NameLies(js, p, j, q);
    case Number(_, _, _, _) => NumberLies(js, p, j, q);
    case Text(_) => TextLies(js, p, j, q);
    case Structure(_, _, _) => StructureLies(js, p, j, q);
  }

  lemma {:induction false} FieldsSeparated(j: Json)
    requires j.Structure? && IsJson(j)
    ensures Separated(j.fields) && IsSpace(j.blank) && (j.kind == Object || j.kind == Array)
  {
  }

  lemma {:induction false} BracketHere(js: string, p: nat, kind: Kind, q: nat)
    requires kind == Object || kind == Array
    ensures Has(js, p, Opener(kind), q) ==> q == p + 1 && Opens(js, kind, p)
    ensures Has(js, p, Closer(kind), q) ==> q == p + 1 && Closes(js, kind, p) && Follows(js, p)
  {
    if Has(js, p, Opener(kind), q) || Has(js, p, Closer(kind), q) {
      assert js[p] == js[p..q][0];
    }
  }

  lemma {:induction false} StructureLies(js: string, p: nat, j: Json, q: nat)
    requires j.Structure? && IsJson(j) && Has(js, p, TextOf(j), q)
    ensures IsText(js, TreeOf(j, p)) && Begin(TreeOf(j, p)) == p && Stop(TreeOf(j, p)) == q
    decreases j, 0
  {
    var o, c, f := Opener(j.kind), Closer(j.kind), FieldsText(j.fields);
    FieldsSeparated(j);
    var m2 := HasTwo(js, p, o + f + j.blank, c, q);
    var m1 := HasTwo(js, p, o + f, j.blank, m2);
    var m0 := HasTwo(js, p, o, f, m1);
    BracketHere(js, p, j.kind, m0);
    BracketHere(js, m2, j.kind, q);
    SpaceIsBlank(js, m1, j.blank, m2);
    BlankFollows(js, m1, m2);
    FieldsLie(js, m0, j.fields, m1);
    BlankMore(js, TreesOf(j.fields, m0), m0, m1, m2);
    GroupHere(js, TreeOf(j, p), j.kind, p, m0, TreesOf(j.fields, m0), m2, q);
  }

  lemma {:induction false} GroupHere(js: string, v: Val, kind: Kind, p: nat, m0: nat, kids: seq<Val>, m2: nat, q: nat)
    requires v == Group(kind, p, q, kids) && (kind == Object || kind == Array)
    requires Opens(js, kind, p) && Closes(js, kind, m2) && m0 == p + 1 && q == m2 + 1 && Covers(js, kids, m0, m2)
    ensures IsText(js, v) && Begin(v) == p && Stop(v) == q
  {
    CoversBounds(js, kids, m0, m2);
  }

  /** The parts of the last field, and where they meet. */
  lemma {:induction false} FieldCut(js: string, p: nat, fs: seq<Field>, q: nat)
    returns (m1: nat, m2: nat, m3: nat, m4: nat)
    requires fs != [] && Has(js, p, FieldsText(fs), q)
    ensures var f := fs[|fs| - 1];
            && Has(js, p, FieldsText(fs[..|fs| - 1]), m1) && Has(js, m1, f.sep, m2)
            && Has(js, m2, f.before, m3) && Has(js, m3, TextOf(f.value), m4) && Has(js, m4, f.after, q)
    ensures m3 == p + |FieldsText(fs[..|fs| - 1])| + |fs[|fs| - 1].sep| + |fs[|fs| - 1].before|
  {
    var f, a := fs[|fs| - 1], FieldsText(fs[..|fs| - 1]);
    m4 := HasTwo(js, p, a + f.sep + f.before + TextOf(f.value), f.after, q);
    m3 := HasTwo(js, p, a + f.sep + f.before, TextOf(f.value), m4);
    m2 := HasTwo(js, p, a + f.sep, f.before, m3);
    m1 := HasTwo(js, p, a, f.sep, m2);
  }

  lemma {:induction false} FieldLies(js: string, f: Field, m1: nat, m2: nat, m3: nat, m4: nat, q: nat)
    requires IsSpace(f.before) && IsJson(f.value) && IsSpace(f.after) && (f.sep == "" || f.sep == "," || f.sep == ":")
    requires Has(js, m1, f.sep, m2) && Has(js, m2, f.before, m3) && Has(js, m3, TextOf(f.value), m4)
             && Has(js, m4, f.after, q)
    requires Follows(js, q)
    ensures IsText(js, TreeOf(f.value, m3)) && Begin(TreeOf(f.value, m3)) == m3 && Stop(TreeOf(f.value, m3)) == m4
    ensures Blank(js, m1, m3) && Blank(js, m4, q) && (f.sep != "" ==> Follows(js, m1))
    decreases f
  {
    SpaceIsBlank(js, m4, f.after, q);
    SpaceIsBlank(js, m2, f.before, m3);
    SpaceIsBlank(js, m1, f.sep, m2);
    BlankFollows(js, m4, q);
    BlankJoin(js, m1, m2, m3);
    JsonLies(js, m3, f.value, m4);
    SepFollows(js, m1, f.sep, m2);
  }

  lemma {:induction false} SeparatedInit(fs: seq<Field>)
    requires fs != [] && Separated(fs)
    ensures var f, init := fs[|fs| - 1], fs[..|fs| - 1];
            && Separated(init) && (init != [] ==> f.sep != "")
            && IsSpace(f.before) && IsJson(f.value) && IsSpace(f.after) && (f.sep == "" || f.sep == "," || f.sep == ":")
  {
    var init := fs[..|fs| - 1];
    assert forall i :: 0 <= i < |init| ==> init[i] == fs[i];
  }

  lemma TreesLast(fs: seq<Field>, p: nat, m3: nat)
    requires fs != []
    requires m3 == p + |FieldsText(fs[..|fs| - 1])| + |fs[|fs| - 1].sep| + |fs[|fs| - 1].before|
    ensures TreesOf(fs, p) == TreesOf(fs[..|fs| - 1], p) + [TreeOf(fs[|fs| - 1].value, m3)]
  {
  }

  lemma {:induction false} FieldsLie(js: string, p: nat, fs: seq<Field>, q: nat)
    requires Separated(fs) && Has(js, p, FieldsText(fs), q) && (fs != [] ==> Follows(js, q))
    ensures Covers(js, TreesOf(fs, p), p, q)
    decreases fs, 0
  {
    if fs != [] {
      var f, init := fs[|fs| - 1], fs[..|fs| - 1];
      var m1, m2, m3, m4 := FieldCut(js, p, fs, q);
      SeparatedInit(fs);
      FieldLies(js, f, m1, m2, m3, m4, q);
      FieldsLie(js, p, init, m1);
      BlankMore(js, TreesOf(init, p), p, m1, m3);
      CoversMore(js, TreesOf(init, p), TreeOf(f.value, m3), p, q);
      TreesLast(fs, p, m3);
    }
  }

  lemma {:induction false} SepFollows(js: string, p: nat, sep: string, q: nat)
    requires Has(js, p, sep, q) && (sep == "" || sep == "," || sep == ":")
    ensures sep != "" ==> Follows(js, p)
  {
    assert sep != "" ==> js[p] == js[p..q][0];
  }

  // ---- JSON texts ----

  /** A JSON text: one value with whitespace around it. */
  function DocumentText(before: string, j: Json, after: string): string {
    before + TextOf(j) + after
  }

  /** Section 2 of RFC 8259: every JSON text is accepted by an array with room for its values, and
      the tokens are the preorder listing of the value tree, one token per value and per object key,
      an object counting both. */
  lemma {:induction false} JsonAccepted(before: string, j: Json, after: string, cap: nat)
    requires IsSpace(before) && IsJson(j) && IsSpace(after) && |ListOne(TreeOf(j, |before|))| <= cap
    ensures var js := DocumentText(before, j, after);
            Run(js, FRESH, cap, false) == Outcome(Fine, St(|js|, ListOne(TreeOf(j, |before|)), -1))
  {
    var js, v, p := DocumentText(before, j, after), TreeOf(j, |before|), |before|;
    var n := |js|;
    assert Has(js, 0, before + TextOf(j) + after, n);
    var q := HasTwo(js, 0, before + TextOf(j), after, n);
    var m := HasTwo(js, 0, before, TextOf(j), q);
    SpaceIsBlank(js, 0, before, p);
    SpaceIsBlank(js, q, after, n);
    BlankFollows(js, q, n);
    JsonLies(js, p, j, q);
    CoversMore(js, [], v, 0, n);
    assert [] + [v] == [v];
    ForestAccepted(js, [v], n, cap) by {
      ListPut([], v);
    }
    ListPut([], v);
  }
}
