/** Splitting at a separator and joining again (lib/sds/sds.c:470-507, 774-783) as functions, and
    when each undoes the other. */
module SdsSplit {
  import opened Words

  type bytes = seq<byte>

  /** `sep` occurs in `s` at `j`. */
  predicate SepAt(s: bytes, sep: bytes, j: nat) {
    j + |sep| <= |s| && s[j..j + |sep|] == sep
  }

  ghost predicate Contains(s: bytes, sep: bytes) {
    exists j: nat :: SepAt(s, sep, j)
  }

  /** The tokens of `s[start..]`, when no separator begins between `start` and `j`. */
  function SplitFrom(s: bytes, sep: bytes, start: nat, j: nat): (ts: seq<bytes>)
    requires sep != [] && start <= j && start <= |s|
    ensures |ts| > 0
    decreases if j <= |s| then |s| - j else 0
  {
    if j + |sep| > |s| then [s[start..]]
    else if s[j..j + |sep|] == sep then [s[start..j]] + SplitFrom(s, sep, j + |sep|, j + |sep|)
    else SplitFrom(s, sep, start, j + 1)
  }

  datatype Tokens = Tokens(list: seq<bytes>) | NoTokens

  /** `sdssplitlen`: nothing for an empty separator, no tokens for an empty string. */
  function Split(s: bytes, sep: bytes): Tokens {
    if sep == [] then NoTokens else if s == [] then Tokens([]) else Tokens(SplitFrom(s, sep, 0, 0))
  }

  /** `sdsjoinsds` */
  function Join(ts: seq<bytes>, sep: bytes): bytes {
    if ts == [] then [] else
      Join(ts[..|ts| - 1], sep) + (if |ts| == 1 then [] else sep) + ts[|ts| - 1]
  }

  lemma {:induction false} JoinFirst(ts: seq<bytes>, sep: bytes)
    requires |ts| > 1
    ensures Join(ts, sep) == ts[0] + sep + Join(ts[1..], sep)
  {
    var init, last := ts[..|ts| - 1], ts[|ts| - 1];
    if |ts| == 2 {
      assert init == [ts[0]] && ts[1..] == [last];
      JoinOne(ts[0], sep);
      JoinOne(last, sep);
    } else {
      JoinFirst(init, sep);
      var rest := ts[1..];
      assert init[1..] == rest[..|rest| - 1] && rest[|rest| - 1] == last;
      assert Join(rest, sep) == Join(init[1..], sep) + sep + last;
    }
  }

  lemma {:induction false} JoinOne(t: bytes, sep: bytes)
    ensures Join([t], sep) == t
  {
    var ts: seq<bytes> := [t];
    assert ts[..0] == [] && Join([], sep) == [];
  }

  lemma {:induction false} JoinMore(t: bytes, ts: seq<bytes>, sep: bytes)
    requires ts != []
    ensures Join([t] + ts, sep) == t + sep + Join(ts, sep)
  {
    assert ([t] + ts)[1..] == ts;
    JoinFirst([t] + ts, sep);
  }

  // ---- Joining what was split ----

  lemma {:induction false} JoinOfSplitFrom(s: bytes, sep: bytes, start: nat, j: nat)
    requires sep != [] && start <= j && start <= |s|
    ensures Join(SplitFrom(s, sep, start, j), sep) == s[start..]
    decreases if j <= |s| then |s| - j else 0
  {
    if j + |sep| > |s| {
      JoinOne(s[start..], sep);
    } else if s[j..j + |sep|] == sep {
      var k := j + |sep|;
      JoinOfSplitFrom(s, sep, k, k);
      JoinToken(s, sep, start, j, k, SplitFrom(s, sep, k, k));
      SplitHit(s, sep, start, j, k);
    } else {
      var j1, j2 := j + 1, j + |sep|;
      JoinOfSplitFrom(s, sep, start, j1);
      SplitMiss(s, sep, start, j, j2, j1);
    }
  }

  lemma JoinToken(s: bytes, sep: bytes, start: nat, j: nat, k: nat, ts: seq<bytes>)
    requires start <= j <= k <= |s| && s[j..k] == sep && ts != [] && Join(ts, sep) == s[k..]
    ensures Join([s[start..j]] + ts, sep) == s[start..]
  {
    JoinMore(s[start..j], ts, sep);
    assert s[start..j] + s[j..k] + s[k..] == s[start..];
  }

  /** Joining the tokens of any string with the separator gives the string back. */
  lemma {:induction false} JoinOfSplit(s: bytes, sep: bytes)
    requires sep != []
    ensures Split(s, sep).Tokens? && Join(Split(s, sep).list, sep) == s
  {
    if s != [] {
      JoinOfSplitFrom(s, sep, 0, 0);
    }
  }

  predicate NoneFrom(s: bytes, sep: bytes, i: nat, j: nat) {
    forall k: nat :: i <= k < j ==> !SepAt(s, sep, k)
  }

  lemma {:induction false} Inside(s: bytes, sep: bytes, start: nat, end: nat, k: nat)
    requires start <= end <= |s|
    ensures SepAt(s[start..end], sep, k) <==> start + k + |sep| <= end && SepAt(s, sep, start + k)
  {
    var k1 := k + |sep|;
    if start + k1 <= end {
      SliceOfSlice(s, start, end, k, k1);
    }
  }

  /** A stretch in which no separator begins contains none. */
  lemma {:induction false} NoneInside(s: bytes, sep: bytes, start: nat, end: nat, j: nat)
    requires sep != [] && start <= end <= |s| && NoneFrom(s, sep, start, j) && end < j + |sep|
    ensures !Contains(s[start..end], sep)
  {
    forall k: nat
      ensures !SepAt(s[start..end], sep, k)
    {
      Inside(s, sep, start, end, k);
    }
  }

  /** No token contains the separator. */
  lemma {:induction false} TokensFree(s: bytes, sep: bytes, start: nat, j: nat)
    requires sep != [] && start <= j && start <= |s| && NoneFrom(s, sep, start, j)
    ensures forall t :: t in SplitFrom(s, sep, start, j) ==> !Contains(t, sep)
    decreases if j <= |s| then |s| - j else 0
  {
    if j + |sep| > |s| {
      NoneInside(s, sep, start, |s|, j);
      assert s[start..] == s[start..|s|];
    } else if s[j..j + |sep|] == sep {
      NoneInside(s, sep, start, j, j);
      TokensFree(s, sep, j + |sep|, j + |sep|);
    } else {
      TokensFree(s, sep, start, j + 1);
    }
  }

  lemma {:induction false} SplitTokensFree(s: bytes, sep: bytes)
    requires sep != []
    ensures forall t :: t in Split(s, sep).list ==> !Contains(t, sep)
  {
    if s != [] {
      TokensFree(s, sep, 0, 0);
    }
  }

  // ---- Splitting what was joined ----

  /** The first separator in `t + sep` is the one behind `t`. */
  predicate Ends(t: bytes, sep: bytes) {
    NoneFrom(t + sep, sep, 0, |t|)
  }

  /** Every token but the last ends where the separator first occurs, and the last has none. */
  ghost predicate Separable(ts: seq<bytes>, sep: bytes) {
    ts != [] && (forall i :: 0 <= i < |ts| - 1 ==> Ends(ts[i], sep)) && !Contains(ts[|ts| - 1], sep)
  }

  /** The search steps over positions where no separator begins. */
  lemma {:induction false} StepOver(s: bytes, sep: bytes, start: nat, i: nat, j: nat)
    requires sep != [] && start <= i <= j && start <= |s| && NoneFrom(s, sep, i, j)
    ensures SplitFrom(s, sep, start, i) == SplitFrom(s, sep, start, j)
    decreases j - i
  {
    if i < j {
      if i + |sep| <= |s| {
        assert !SepAt(s, sep, i);
        StepOver(s, sep, start, i + 1, j);
      }
    }
  }

  lemma SplitHit(s: bytes, sep: bytes, start: nat, j: nat, j2: nat)
    requires sep != [] && start <= j && j2 == j + |sep| <= |s| && s[j..j2] == sep
    ensures SplitFrom(s, sep, start, j) == [s[start..j]] + SplitFrom(s, sep, j2, j2)
  {
  }

  lemma SplitMiss(s: bytes, sep: bytes, start: nat, j: nat, j2: nat, j1: nat)
    requires sep != [] && start <= j && j2 == j + |sep| <= |s| && s[j..j2] != sep && j1 == j + 1
    ensures SplitFrom(s, sep, start, j) == SplitFrom(s, sep, start, j1)
  {
  }

  /** Tokens do not depend on what is in front of `start`. */
  lemma {:induction false} Shift(a: bytes, s: bytes, sep: bytes, start: nat, j: nat, n: nat, m: nat)
    requires sep != [] && start <= j && start <= |s| && n == |a| + start && m == |a| + j
    ensures SplitFrom(a + s, sep, n, m) == SplitFrom(s, sep, start, j)
    decreases if j <= |s| then |s| - j else 0
  {
    var t := a + s;
    var j1, j2, m1, m2 := j + 1, j + |sep|, m + 1, m + |sep|;
    if j2 <= |s| {
      SliceBehind(a, s, j, j2, m, m2);
      SliceBehind(a, s, start, j, n, m);
      if s[j..j2] == sep {
        Shift(a, s, sep, j2, j2, m2, m2);
        SplitHit(s, sep, start, j, j2);
        SplitHit(t, sep, n, m, m2);
      } else {
        Shift(a, s, sep, start, j1, n, m1);
        SplitMiss(s, sep, start, j, j2, j1);
        SplitMiss(t, sep, n, m, m2, m1);
      }
    } else {
      SliceBehind(a, s, start, |s|, n, |t|);
      assert t[n..] == t[n..|t|] && s[start..] == s[start..|s|];
    }
  }

  lemma SliceBehind(a: bytes, s: bytes, i: nat, j: nat, p: nat, q: nat)
    requires i <= j <= |s| && p == |a| + i && q == |a| + j
    ensures (a + s)[p..q] == s[i..j]
  {
  }

  /** Splitting `t + sep + rest` yields `t` first exactly when the separator behind `t` is the first. */
  lemma {:induction false} SplitFirst(t: bytes, sep: bytes, rest: bytes)
    requires sep != []
    ensures var ts := SplitFrom(t + sep + rest, sep, 0, 0);
            && (Ends(t, sep) ==> ts == [t] + SplitFrom(rest, sep, 0, 0))
            && (!Ends(t, sep) ==> |ts[0]| < |t|)
  {
    var s, k := t + sep + rest, |t| + |sep|;
    forall i: nat | i < |t|
      ensures SepAt(s, sep, i) <==> SepAt(t + sep, sep, i)
    {
      var j := i + |sep|;
      assert s[i..j] == (t + sep)[i..j];
    }
    if Ends(t, sep) {
      StepOver(s, sep, 0, 0, |t|);
      assert s[|t|..k] == sep && s[0..|t|] == t;
      Shift(t + sep, rest, sep, 0, 0, k, k);
    } else {
      var i: nat :| i < |t| && SepAt(s, sep, i);
      FirstShort(s, sep, 0, i);
    }
  }

  lemma {:induction false} FirstShort(s: bytes, sep: bytes, j: nat, i: nat)
    requires sep != [] && j <= i && SepAt(s, sep, i)
    ensures |SplitFrom(s, sep, 0, j)[0]| <= i
    decreases i - j
  {
    if j < i {
      if s[j..j + |sep|] != sep {
        FirstShort(s, sep, j + 1, i);
      }
    }
  }

  lemma {:induction false} SplitLast(t: bytes, sep: bytes)
    requires sep != []
    ensures SplitFrom(t, sep, 0, 0) == [t] <==> !Contains(t, sep)
  {
    if Contains(t, sep) {
      var i: nat :| SepAt(t, sep, i);
      FirstShort(t, sep, 0, i);
    } else {
      StepOver(t, sep, 0, 0, |t|);
    }
  }

  lemma {:induction false} SplitOfFirst(t: bytes, rest: seq<bytes>, joined: bytes, sep: bytes)
    requires sep != []
    ensures SplitFrom(t + sep + joined, sep, 0, 0) == [t] + rest
            <==> Ends(t, sep) && SplitFrom(joined, sep, 0, 0) == rest
  {
    SplitFirst(t, sep, joined);
    var tail := SplitFrom(joined, sep, 0, 0);
    assert ([t] + rest)[0] == t && ([t] + rest)[1..] == rest && ([t] + tail)[1..] == tail;
  }

  lemma {:induction false} SplitFromOfJoin(ts: seq<bytes>, sep: bytes)
    requires sep != [] && ts != []
    ensures SplitFrom(Join(ts, sep), sep, 0, 0) == ts <==> Separable(ts, sep)
    decreases |ts|
  {
    if |ts| == 1 {
      assert ts == [ts[0]];
      JoinOne(ts[0], sep);
      SplitLast(ts[0], sep);
    } else {
      JoinFirst(ts, sep);
      SplitOfFirst(ts[0], ts[1..], Join(ts[1..], sep), sep);
      SplitFromOfJoin(ts[1..], sep);
      SeparableFirst(ts, sep);
      assert ts == [ts[0]] + ts[1..];
    }
  }

  lemma {:induction false} SeparableFirst(ts: seq<bytes>, sep: bytes)
    requires |ts| > 1
    ensures Separable(ts, sep) <==> Ends(ts[0], sep) && Separable(ts[1..], sep)
  {
    var rest := ts[1..];
    assert rest[|rest| - 1] == ts[|ts| - 1];
    assert forall i :: 1 <= i < |ts| - 1 ==> rest[i - 1] == ts[i];
  }

  /** Splitting a join returns the tokens exactly when there are none, or the join is not empty and
      each token can be told from the separator behind it. */
  lemma {:induction false} SplitOfJoin(ts: seq<bytes>, sep: bytes)
    requires sep != []
    ensures Split(Join(ts, sep), sep) == Tokens(ts) <==> ts == [] || (Join(ts, sep) != [] && Separable(ts, sep))
  {
    if ts != [] {
      SplitFromOfJoin(ts, sep);
    }
  }

  /** The difference is real: one empty token joins to the empty string, which splits into no token. */
  lemma {:induction false} EmptyTokenLost(sep: bytes)
    requires sep != []
    ensures Split(Join([[]], sep), sep) == Tokens([]) != Tokens([[]])
  {
    JoinOne([], sep);
  }

  /** So is this one: a token that contains the separator comes back in pieces. */
  lemma {:induction false} SeparatorInToken(sep: bytes)
    requires sep != []
    ensures Split(Join([sep], sep), sep) == Tokens([[], []])
  {
    JoinOne(sep, sep);
    var n := |sep|;
    assert sep[0..n] == sep && sep[0..0] == [] && sep[n..] == [];
    SplitHit(sep, sep, 0, 0, n);
  }
}
