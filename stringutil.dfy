/**
 * `StringUtil::strdup_custom` of src/private/stringutil.h: a copy of a C
 * string into a freshly allocated buffer, over character arrays.
 */
module StringUtil {
  import opened CStringUtil

  /** `strlen`: walks the buffer up to its first NUL. */
  method Strlen(s: array<char>) returns (n: nat)
    requires NUL in s[..]
    ensures n < s.Length && s[n] == NUL
    ensures NUL !in s[..n]
    ensures n == CLen(s[..])
  {
    n := 0;
    while s[n] != NUL
      invariant n < s.Length
      invariant NUL !in s[..n]
      invariant NUL in s[n..]
      decreases s.Length - n
    {
      assert s[n..] == [s[n]] + s[n + 1..];
      n := n + 1;
    }
    CLenAtNul(s[..], n);
  }

  /** The first NUL of a buffer sits at index `strlen`. */
  lemma {:induction false} CLenAtNul(s: string, n: nat)
    requires n < |s| && s[n] == NUL && NUL !in s[..n]
    ensures CLen(s) == n
  {
    if n > 0 {
      assert s[1..][..n - 1] == s[1..n];
      assert s[0] == s[..n][0];
      CLenAtNul(s[1..], n - 1);
    }
  }

  /**
   * `strdup_custom(s)`: allocates `strlen(s) + 1` characters and copies `s`
   * into them, terminator included. `allocates` is the outcome of `malloc`;
   * when it fails the result is null and nothing is copied.
   */
  method StrdupCustom(s: array<char>, allocates: bool) returns (p: array?<char>)
    requires NUL in s[..]
    ensures !allocates ==> p == null
    ensures allocates ==> p != null && fresh(p) && p.Length == CLen(s[..]) + 1
    ensures p != null ==> p[..] == s[..p.Length] && TextOf(p[..]) == TextOf(s[..])
    ensures s[..] == old(s[..])
  {
    var len := Strlen(s);
    var size := len + 1;
    if !allocates {
      return null;
    }
    p := new char[size];
    var i := 0;
    while i < size
      invariant 0 <= i <= size
      invariant p[..i] == s[..i]
    {
      p[i] := s[i];
      i := i + 1;
    }
    assert p[..] == p[..size];
    CLenAtNul(p[..], len);
  }
}
