/**
 * Python's `str.strip()` with no argument: leading and trailing whitespace
 * removed, for a whitespace class given as a predicate.
 */
module Strip {

  /** Every character of `s` is whitespace. */
  ghost predicate AllSpace(space: char -> bool, s: string)
  {
    forall k :: 0 <= k < |s| ==> space(s[k])
  }

  /** `s` neither starts nor ends with whitespace (the empty string qualifies). */
  ghost predicate Trimmed(space: char -> bool, s: string)
  {
    s == [] || (!space(s[0]) && !space(s[|s| - 1]))
  }

  /** How many whitespace characters `s` starts with: where `str.lstrip()` cuts. */
  function LeadingSpace(space: char -> bool, s: string): (n: nat)
    ensures n <= |s|
    ensures forall k :: 0 <= k < n ==> space(s[k])
    ensures n == |s| || !space(s[n])
  {
    if s == [] || !space(s[0]) then 0 else 1 + LeadingSpace(space, s[1..])
  }

  /** How many whitespace characters `s` ends with: where `str.rstrip()` cuts. */
  function TrailingSpace(space: char -> bool, s: string): (n: nat)
    ensures n <= |s|
    ensures forall k :: |s| - n <= k < |s| ==> space(s[k])
    ensures n == |s| || !space(s[|s| - 1 - n])
  {
    if s == [] || !space(s[|s| - 1]) then 0 else 1 + TrailingSpace(space, s[..|s| - 1])
  }

  /**
   * `str.strip()`: `s` is the result wrapped in whitespace on both sides, and
   * the result neither starts nor ends with whitespace.
   */
  function StripSpace(space: char -> bool, s: string): (r: string)
    ensures |r| <= |s|
    ensures Trimmed(space, r)
    ensures exists a :: 0 <= a <= |s| - |r| && r == s[a..a + |r|] && AllSpace(space, s[..a]) && AllSpace(space, s[a + |r|..])
  {
    var a := LeadingSpace(space, s);
    var rest := s[a..];
    var r := rest[..|rest| - TrailingSpace(space, rest)];
    assert Trimmed(space, r) by {
      assert r != [] ==> r[0] == s[a] && r[|r| - 1] == rest[|r| - 1];
    }
    assert 0 <= a <= |s| - |r| && r == s[a..a + |r|] && AllSpace(space, s[..a]) && AllSpace(space, s[a + |r|..]) by {
      assert s[a + |r|..] == rest[|r|..];
    }
    r
  }

  /** Where the result of `str.strip()` sits in the text: right after the leading whitespace. */
  lemma StripOffset(space: char -> bool, s: string) returns (a: nat)
    ensures a + |StripSpace(space, s)| <= |s|
    ensures StripSpace(space, s) == s[a..a + |StripSpace(space, s)|]
  {
    a := LeadingSpace(space, s);
  }

  /** `str.strip()` is empty exactly for whitespace-only text: the filter condition of the cleaner. */
  lemma {:induction false} StripEmptyIffAllSpace(space: char -> bool, s: string)
    ensures StripSpace(space, s) == [] <==> AllSpace(space, s)
  {
    var r := StripSpace(space, s);
    var a :| 0 <= a <= |s| - |r| && r == s[a..a + |r|] && AllSpace(space, s[..a]) && AllSpace(space, s[a + |r|..]);
    if r == [] {
      assert forall k :: 0 <= k < |s| ==> space(s[k]) by {
        forall k | 0 <= k < |s| ensures space(s[k]) {
          if k < a { assert s[k] == s[..a][k]; } else { assert s[k] == s[a..][k - a]; }
        }
      }
    } else {
      assert s[a] == r[0];
    }
  }

  /** Text that already has no surrounding whitespace is left as it is. */
  lemma {:induction false} StripTrimmed(space: char -> bool, s: string)
    requires Trimmed(space, s)
    ensures StripSpace(space, s) == s
  {
    var r := StripSpace(space, s);
    var a :| 0 <= a <= |s| - |r| && r == s[a..a + |r|] && AllSpace(space, s[..a]) && AllSpace(space, s[a + |r|..]);
  }

  /** Whitespace throughout the slice `s[i..j]`, by index into `s`. */
  lemma AllSpaceSlice(space: char -> bool, s: string, i: nat, j: nat)
    requires i <= j <= |s| && AllSpace(space, s[i..j])
    ensures forall k :: i <= k < j ==> space(s[k])
  {
    assert forall k :: i <= k < j ==> s[k] == s[i..j][k - i];
  }

  /** The leading whitespace ends at the first non-whitespace character. */
  lemma LeadingSpaceAt(space: char -> bool, s: string, a: nat)
    requires a < |s| && !space(s[a])
    requires forall k :: 0 <= k < a ==> space(s[k])
    ensures LeadingSpace(space, s) == a
  {
  }

  /** The trailing whitespace ends at the last non-whitespace character. */
  lemma TrailingSpaceAt(space: char -> bool, s: string, n: nat)
    requires n < |s| && !space(s[|s| - 1 - n])
    requires forall k :: |s| - n <= k < |s| ==> space(s[k])
    ensures TrailingSpace(space, s) == n
  {
  }

  /** A non-empty trimmed window with only whitespace around it is what `str.strip()` keeps. */
  lemma {:induction false} StripWindow(space: char -> bool, s: string, a: nat, n: nat)
    requires 1 <= n && a + n <= |s|
    requires AllSpace(space, s[..a]) && Trimmed(space, s[a..a + n]) && AllSpace(space, s[a + n..])
    ensures StripSpace(space, s) == s[a..a + n]
  {
    var rest := s[a..];
    assert !space(s[a]) && !space(s[a + n - 1]) by {
      assert s[a..a + n][0] == s[a] && s[a..a + n][n - 1] == s[a + n - 1];
    }
    assert s[..a] == s[0..a] && s[a + n..] == s[a + n..|s|];
    AllSpaceSlice(space, s, 0, a);
    AllSpaceSlice(space, s, a + n, |s|);
    LeadingSpaceAt(space, s, a);
    assert forall k :: n <= k < |rest| ==> rest[k] == s[a + k];
    TrailingSpaceAt(space, rest, |rest| - n);
    assert rest[..n] == s[a..a + n];
  }

  /**
   * The result of `str.strip()` is determined by any split of the text into
   * whitespace, a trimmed middle, and whitespace: it is that middle.
   */
  lemma {:induction false} StripSurrounded(space: char -> bool, u: string, t: string, w: string)
    requires AllSpace(space, u) && Trimmed(space, t) && AllSpace(space, w)
    ensures StripSpace(space, u + t + w) == t
  {
    var s := u + t + w;
    if t == [] {
      assert AllSpace(space, s) by {
        forall k | 0 <= k < |s| ensures space(s[k]) {
          if k < |u| { assert s[k] == u[k]; } else { assert s[k] == w[k - |u|]; }
        }
      }
      StripEmptyIffAllSpace(space, s);
    } else {
      assert s[..|u|] == u && s[|u|..|u| + |t|] == t && s[|u| + |t|..] == w;
      StripWindow(space, s, |u|, |t|);
    }
  }

  /** Stripping is idempotent. */
  lemma StripIdempotent(space: char -> bool, s: string)
    ensures StripSpace(space, StripSpace(space, s)) == StripSpace(space, s)
  {
    StripTrimmed(space, StripSpace(space, s));
  }
}
