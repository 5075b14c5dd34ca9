/** Sequences: a stretch of a longer one, one without an element, one without repetitions. */
module Sequences {

  /** `text` from `p` to `q` is `s`. */
  predicate Has<T(==)>(text: seq<T>, p: nat, s: seq<T>, q: nat) {
    p <= q == p + |s| <= |text| && text[p..q] == s
  }

  lemma {:induction false} HasTwo<T>(text: seq<T>, p: nat, a: seq<T>, b: seq<T>, q: nat) returns (m: nat)
    requires Has(text, p, a + b, q)
    ensures Has(text, p, a, m) && Has(text, m, b, q)
  {
    m := p + |a|;
    assert text[p..q][..|a|] == a && text[p..q][|a|..] == b;
    assert text[p..m] == text[p..q][..|a|] && text[m..q] == text[p..q][|a|..];
  }

  function Without<T>(s: seq<T>, i: nat): (r: seq<T>)
    requires i < |s|
    ensures |r| == |s| - 1
  {
    s[..i] + s[i + 1..]
  }

  lemma {:induction false} WithoutAt<T>(s: seq<T>, i: nat, j: nat)
    requires i < |s| && j < |s| - 1
    ensures Without(s, i)[j] == if j < i then s[j] else s[j + 1]
  {
  }

  predicate NoRepeats<T(==)>(s: seq<T>) {
    forall i, j :: 0 <= i < j < |s| ==> s[i] != s[j]
  }

  lemma {:induction false} NoRepeatsMore<T>(s: seq<T>, e: T)
    requires NoRepeats(s) && e !in s
    ensures NoRepeats(s + [e]) && NoRepeats([e] + s)
  {
  }

  lemma {:induction false} NoRepeatsLess<T>(s: seq<T>, i: nat)
    requires NoRepeats(s) && i < |s|
    ensures NoRepeats(Without(s, i)) && s[i] !in Without(s, i)
  {
  }

  lemma {:induction false} NoRepeatsJoin<T>(a: seq<T>, b: seq<T>)
    requires NoRepeats(a) && NoRepeats(b) && forall k :: k in a ==> k !in b
    ensures NoRepeats(a + b)
  {
    var s := a + b;
    forall i, j | 0 <= i < j < |s|
      ensures s[i] != s[j]
    {
      if i < |a| <= j {
        assert s[i] in a && s[j] in b;
      }
    }
  }
}
