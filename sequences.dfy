/**
 * Facts about sequences and maps that the manager's loops rely on, stated
 * for any element type so that no reasoning about the names themselves is
 * needed.
 */
module Sequences {

  /**
   * No element occurs twice: each element is absent from those before it.
   * Stated element by element, so that the solver unfolds it only as far
   * as a proof asks.
   */
  ghost predicate Distinct<T>(s: seq<T>)
  {
    s == [] || (Distinct(s[..|s| - 1]) && s[|s| - 1] !in s[..|s| - 1])
  }

  /** Two positions of a sequence without repeats hold different elements. */
  lemma {:induction false} DistinctAt<T>(s: seq<T>, i: int, j: int)
    requires Distinct(s) && 0 <= i < j < |s|
    ensures s[i] != s[j]
  {
    var init := s[..|s| - 1];
    if j == |s| - 1 {
      assert s[i] == init[i];
    } else {
      DistinctAt(init, i, j);
    }
  }

  /** A sequence without repeats holds an element at one position only. */
  lemma DistinctIndex<T>(s: seq<T>, i: int, j: int)
    requires Distinct(s) && 0 <= i < |s| && 0 <= j < |s| && s[i] == s[j]
    ensures i == j
  {
    if i < j {
      DistinctAt(s, i, j);
    } else if j < i {
      DistinctAt(s, j, i);
    }
  }

  /** Elements that differ pairwise are distinct. */
  lemma {:induction false} DistinctFromPairs<T>(s: seq<T>)
    requires forall i, j :: 0 <= i < j < |s| ==> s[i] != s[j]
    ensures Distinct(s)
  {
    if s != [] {
      var init := s[..|s| - 1];
      DistinctFromPairs(init);
    }
  }

  /** Appending an element not yet present keeps the elements distinct. */
  lemma AppendFresh<T>(s: seq<T>, x: T)
    requires Distinct(s) && x !in s
    ensures Distinct(s + [x])
  {
    assert (s + [x])[..|s|] == s;
  }

  /** The empty sequence is a left unit of concatenation. */
  lemma EmptyConcat<T>(s: seq<T>)
    ensures [] + s == s
  {
  }

  /** Concatenation is associative. */
  lemma AppendAssoc<T>(a: seq<T>, b: seq<T>, c: seq<T>)
    ensures (a + b) + c == a + (b + c)
  {
  }

  /** In a sequence without repeats, an element does not occur again later. */
  lemma DistinctNotAfter<T>(s: seq<T>, i: int)
    requires Distinct(s) && 0 <= i < |s|
    ensures s[i] !in s[i + 1..]
  {
    var later := s[i + 1..];
    forall j | 0 <= j < |later|
      ensures later[j] != s[i]
    {
      assert later[j] == s[i + 1 + j];
      DistinctAt(s, i, i + 1 + j);
    }
  }

  /** An element of the first `i` elements sits at some position below `i`. */
  lemma PrefixIndex<T>(s: seq<T>, i: int, x: T) returns (j: nat)
    requires 0 <= i <= |s| && x in s[..i]
    ensures j < i && s[j] == x
  {
    j :| 0 <= j < i && s[..i][j] == x;
  }

  /** `s` reversed. */
  function Reversed<T>(s: seq<T>): (r: seq<T>)
    ensures |r| == |s| && forall i :: 0 <= i < |s| ==> r[i] == s[|s| - 1 - i]
  {
    if s == [] then [] else [s[|s| - 1]] + Reversed(s[..|s| - 1])
  }

  /** Reversing keeps the elements. */
  lemma ReversedHas<T>(s: seq<T>, x: T)
    ensures x in Reversed(s) <==> x in s
  {
    if x in s {
      var i :| 0 <= i < |s| && s[i] == x;
      assert Reversed(s)[|s| - 1 - i] == x;
    }
  }

  /** A sequence that starts with `s` reversed holds `s[i]` at `|s| - 1 - i`. */
  lemma ReversedAt<T>(s: seq<T>, r: seq<T>, i: int)
    requires |s| <= |r| && r[..|s|] == Reversed(s) && 0 <= i < |s|
    ensures r[|s| - 1 - i] == s[i]
  {
    assert r[..|s|][|s| - 1 - i] == r[|s| - 1 - i];
  }

  /** Reversing one more element from the back of `s`: it joins the end. */
  lemma ReversedSuffixStep<T>(s: seq<T>, n: int)
    requires 0 < n <= |s|
    ensures Reversed(s[n - 1..]) == Reversed(s[n..]) + [s[n - 1]]
  {
    var a, b := Reversed(s[n - 1..]), Reversed(s[n..]) + [s[n - 1]];
    forall i | 0 <= i < |a|
      ensures a[i] == b[i]
    {
      if i < |a| - 1 {
        assert s[n..][|s[n..]| - 1 - i] == s[n - 1..][|s[n - 1..]| - 1 - i];
      }
    }
  }

  /**
   * Walking `s` from the back, with `order` the elements after `n` reversed:
   * the element before them is new to `order`, and joins its end.
   */
  lemma ReversedTailStep<T>(s: seq<T>, n: int, order: seq<T>)
    requires Distinct(s) && 0 < n <= |s| && order == Reversed(s[n..])
    ensures s[n - 1] !in order && order + [s[n - 1]] == Reversed(s[n - 1..])
  {
    DistinctNotAfter(s, n - 1);
    assert s[n - 1 + 1..] == s[n..];
    ReversedHas(s[n..], s[n - 1]);
    ReversedSuffixStep(s, n);
  }

  /** Appending keeps a prefix. */
  lemma PrefixKept<T>(s: seq<T>, p: seq<T>, x: T)
    requires |p| <= |s| && s[..|p|] == p
    ensures |p| <= |s + [x]| && (s + [x])[..|p|] == p
  {
    assert (s + [x])[..|p|] == s[..|p|];
  }

  /** A sequence that starts with `p`, where `p` is `s` reversed, starts with `s` reversed. */
  lemma StartsReversed<T>(r: seq<T>, p: seq<T>, s: seq<T>)
    requires |p| <= |r| && r[..|p|] == p && p == Reversed(s)
    ensures |s| <= |r| && r[..|s|] == Reversed(s)
  {
  }

  /**
   * In a sequence that starts with `s` reversed, a later element of `s` comes
   * earlier: `x == s[i]` and `y == s[j]` with `j < i` sit at `|s| - 1 - i`
   * and `|s| - 1 - j`.
   */
  lemma ReversedPositions<T>(s: seq<T>, r: seq<T>, i: int, j: int, x: T, y: T)
    requires |s| <= |r| && r[..|s|] == Reversed(s) && 0 <= j < i < |s|
    requires x == s[i] && y == s[j]
    ensures 0 <= |s| - 1 - i < |s| - 1 - j < |r|
    ensures x == r[|s| - 1 - i] && y == r[|s| - 1 - j]
  {
    ReversedAt(s, r, i);
    ReversedAt(s, r, j);
  }

  /** The segments one after the other. */
  function Concat<E>(segs: seq<seq<E>>): seq<E>
  {
    if segs == [] then [] else Concat(segs[..|segs| - 1]) + segs[|segs| - 1]
  }

  /** Where a position of the concatenation lies: in segment `i`, at `a` minus the length of the segments before it. */
  lemma {:induction false} ConcatLocate<E>(segs: seq<seq<E>>, a: int) returns (i: nat)
    requires 0 <= a < |Concat(segs)|
    ensures i < |segs| && |Concat(segs[..i])| <= a < |Concat(segs[..i])| + |segs[i]|
    ensures Concat(segs)[a] == segs[i][a - |Concat(segs[..i])|]
    decreases |segs|
  {
    var n := |segs|;
    var prefix := segs[..n - 1];
    if a >= |Concat(prefix)| {
      i := n - 1;
    } else {
      i := ConcatLocate(prefix, a);
      assert segs[..i] == prefix[..i] && segs[i] == prefix[i];
    }
  }

  /** Segment `i` ends no later than the first `j > i` segments do. */
  lemma {:induction false} ConcatGrows<E>(segs: seq<seq<E>>, i: int, j: int)
    requires 0 <= i < j <= |segs|
    ensures |Concat(segs[..i])| + |segs[i]| <= |Concat(segs[..j])|
    decreases j
  {
    assert segs[..j][..j - 1] == segs[..j - 1];
    if i < j - 1 {
      ConcatGrows(segs, i, j - 1);
    }
  }

  /** `m` is `m0` with the keys of `order`, all distinct, erased and nothing else changed. */
  ghost predicate Erased<K, V>(m0: map<K, V>, m: map<K, V>, order: seq<K>)
  {
    Distinct(order) && (forall k :: k in order ==> k in m0) &&
    m.Keys == m0.Keys - (set k | k in order) &&
    (forall k :: k in m ==> m[k] == m0[k])
  }

  /** Erasing one more key that is still present. */
  lemma ErasedStep<K, V>(m0: map<K, V>, m: map<K, V>, order: seq<K>, x: K)
    requires Erased(m0, m, order) && x in m
    ensures x !in order && m[x] == m0[x]
    ensures Erased(m0, m - {x}, order + [x])
  {
    AppendFresh(order, x);
    assert (m - {x}).Keys == m0.Keys - (set k | k in order + [x]);
  }

  /** A key of `m0` that was not erased is still there. */
  lemma ErasedHas<K, V>(m0: map<K, V>, m: map<K, V>, order: seq<K>, x: K)
    requires Erased(m0, m, order) && x in m0 && x !in order
    ensures x in m
  {
    assert x !in (set k | k in order);
  }

  /** Once every key is erased, `order` lists exactly the keys of `m0`. */
  lemma ErasedAll<K, V>(m0: map<K, V>, order: seq<K>)
    requires Erased(m0, map[], order)
    ensures forall k :: k in order <==> k in m0
  {
    forall k | k in m0
      ensures k in order
    {
      assert k !in m0.Keys - (set k | k in order);
    }
  }
}
