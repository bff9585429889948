/** Java's String.contains, on strings modelled as sequences of characters. */
module JavaStrings {

  /** s contains t as a contiguous substring. */
  function ContainsSubstring(s: string, t: string): bool
    decreases |s|
  {
    t <= s || (|s| > 0 && ContainsSubstring(s[1..], t))
  }

  /** The substring test agrees with "t is a prefix of some suffix of s". */
  lemma {:induction false} ContainsSubstringAt(s: string, t: string)
    ensures ContainsSubstring(s, t) <==> exists i :: 0 <= i <= |s| && t <= s[i..]
    decreases |s|
  {
    if |s| == 0 {
      if exists i :: 0 <= i <= |s| && t <= s[i..] {
        var i :| 0 <= i <= |s| && t <= s[i..];
        assert s[i..] == s;
      }
    } else {
      ContainsSubstringAt(s[1..], t);
      if ContainsSubstring(s, t) {
        if t <= s {
          assert s[0..] == s;
        } else {
          var i :| 0 <= i <= |s[1..]| && t <= s[1..][i..];
          assert s[1..][i..] == s[i + 1..];
          assert 0 <= i + 1 <= |s| && t <= s[i + 1..];
        }
      }
      if exists i :: 0 <= i <= |s| && t <= s[i..] {
        var i :| 0 <= i <= |s| && t <= s[i..];
        if i == 0 {
          assert s[0..] == s;
        } else {
          assert s[1..][i - 1..] == s[i..];
          assert 0 <= i - 1 <= |s[1..]| && t <= s[1..][i - 1..];
        }
      }
    }
  }

  /** A string lacking one of t's characters does not contain t. */
  lemma MissingCharacter(s: string, t: string, k: int)
    requires 0 <= k < |t| && t[k] !in s
    ensures !ContainsSubstring(s, t)
  {
    ContainsSubstringAt(s, t);
  }

  /** A string with t in the middle contains t. */
  lemma ContainsInfix(p: string, t: string, q: string)
    ensures ContainsSubstring(p + t + q, t)
  {
    ContainsSubstringAt(p + t + q, t);
    assert (p + t + q)[|p|..] == t + q;
  }
}
