/** The two string operations of Go's standard library that the input handler
    relies on: `strings.TrimSpace` and `strings.ToLower`. Strings are
    sequences of Unicode scalar values. */
module Strings {

  /** Go's `unicode.IsSpace`: the Latin-1 spaces (tab, line feed, vertical
      tab, form feed, carriage return, space, NEL, no-break space) and the
      other characters with the Unicode White_Space property. */
  predicate IsSpace(c: char)
  {
    c in Spaces
  }

  const Spaces: set<char> := {
    '\t', '\n', '\U{000B}', '\U{000C}', '\r', ' ', '\U{0085}', '\U{00A0}', '\U{1680}',
    '\U{2000}', '\U{2001}', '\U{2002}', '\U{2003}', '\U{2004}', '\U{2005}',
    '\U{2006}', '\U{2007}', '\U{2008}', '\U{2009}', '\U{200A}',
    '\U{2028}', '\U{2029}', '\U{202F}', '\U{205F}', '\U{3000}'
  }

  predicate AllSpace(s: string)
  {
    forall k :: 0 <= k < |s| ==> IsSpace(s[k])
  }

  /** Neither end of `s` is a space (vacuously true of the empty string). */
  predicate Trimmed(s: string)
  {
    s == [] || (!IsSpace(s[0]) && !IsSpace(s[|s| - 1]))
  }

  /** Drops the leading spaces of `s` (see TrimLeftSpec). */
  function TrimLeft(s: string): string
    decreases |s|
  {
    if s != [] && IsSpace(s[0]) then TrimLeft(s[1..]) else s
  }

  /** Drops the trailing spaces of `s` (see TrimRightSpec). */
  function TrimRight(s: string): string
    decreases |s|
  {
    if s != [] && IsSpace(s[|s| - 1]) then TrimRight(s[..|s| - 1]) else s
  }

  /** Go's `strings.TrimSpace`: `s` without its leading and trailing spaces
      (see TrimSpaceSpec). */
  function TrimSpace(s: string): string
  {
    TrimRight(TrimLeft(s))
  }

  /** TrimLeft gives the longest suffix of `s` that does not start with a
      space: what it drops is all space. */
  lemma {:induction false} TrimLeftSpec(s: string)
    ensures |TrimLeft(s)| <= |s| && TrimLeft(s) == s[|s| - |TrimLeft(s)|..]
    ensures forall k :: 0 <= k < |s| - |TrimLeft(s)| ==> IsSpace(s[k])
    ensures TrimLeft(s) == [] || !IsSpace(TrimLeft(s)[0])
    decreases |s|
  {
    if s != [] && IsSpace(s[0]) {
      TrimLeftSpec(s[1..]);
      assert forall k :: 1 <= k < |s| ==> s[k] == s[1..][k - 1];
    }
  }

  /** TrimRight gives the longest prefix of `s` that does not end with a
      space: what it drops is all space. */
  lemma {:induction false} TrimRightSpec(s: string)
    ensures |TrimRight(s)| <= |s| && TrimRight(s) == s[..|TrimRight(s)|]
    ensures forall k :: |TrimRight(s)| <= k < |s| ==> IsSpace(s[k])
    ensures TrimRight(s) == [] || !IsSpace(TrimRight(s)[|TrimRight(s)| - 1])
    decreases |s|
  {
    if s != [] && IsSpace(s[|s| - 1]) {
      TrimRightSpec(s[..|s| - 1]);
      assert forall k :: 0 <= k < |s| - 1 ==> s[k] == s[..|s| - 1][k];
    }
  }

  /** TrimSpace gives the piece of `s` that starts after its `Lead(s)`
      leading spaces; the piece has no space at either end, and everything
      cut away on both sides is space. */
  lemma TrimSpaceSpec(s: string)
    ensures |TrimLeft(s)| <= |s|
    ensures Trimmed(TrimSpace(s))
    ensures Lead(s) + |TrimSpace(s)| <= |s|
    ensures TrimSpace(s) == s[Lead(s)..Lead(s) + |TrimSpace(s)|]
    ensures forall k :: 0 <= k < Lead(s) ==> IsSpace(s[k])
    ensures forall k :: Lead(s) + |TrimSpace(s)| <= k < |s| ==> IsSpace(s[k])
  {
    TrimLeftSpec(s);
    var lead, t := Lead(s), TrimLeft(s);
    TrimRightSpec(t);
    var r := TrimRight(t);
    assert r == s[lead..lead + |r|] by {
      SuffixPrefix(s, lead, |r|);
    }
    assert forall k :: lead + |r| <= k < |s| ==> IsSpace(s[k]) by {
      SpacesInSuffix(s, lead, |r|);
    }
    assert Trimmed(r) by {
      if r != [] {
        assert r[0] == t[0];
      }
    }
  }

  /** A prefix of a suffix of `s` is a slice of `s`. */
  lemma SuffixPrefix(s: string, lead: nat, n: nat)
    requires lead + n <= |s|
    ensures s[lead..][..n] == s[lead..lead + n]
  {
  }

  /** Spaces at the end of the suffix `s[lead..]` are spaces at the end of `s`. */
  lemma SpacesInSuffix(s: string, lead: nat, m: nat)
    requires lead + m <= |s|
    requires forall k :: m <= k < |s| - lead ==> IsSpace(s[lead..][k])
    ensures forall k :: lead + m <= k < |s| ==> IsSpace(s[k])
  {
    forall k | lead + m <= k < |s|
      ensures IsSpace(s[k])
    {
      assert s[k] == s[lead..][k - lead];
    }
  }

  /** The number of leading spaces of `s`. */
  function Lead(s: string): int
  {
    |s| - |TrimLeft(s)|
  }

  /** Trimming leaves nothing exactly when the input is all space. */
  lemma TrimSpaceEmptyIff(s: string)
    ensures TrimSpace(s) == [] <==> AllSpace(s)
  {
    TrimSpaceSpec(s);
    var r := TrimSpace(s);
    if r != [] {
      assert r[0] == s[Lead(s)];
    }
  }

  /** A string framed by spaces trims down to its non-space core. */
  lemma TrimSurrounded(pre: string, core: string, post: string)
    requires AllSpace(pre) && AllSpace(post) && Trimmed(core)
    ensures TrimSpace(pre + core + post) == core
  {
    var s := pre + core + post;
    TrimSpaceSpec(s);
    assert forall k :: 0 <= k < |pre| ==> s[k] == pre[k];
    assert forall k :: 0 <= k < |core| ==> s[|pre| + k] == core[k];
    assert forall k :: |pre| + |core| <= k < |s| ==> s[k] == post[k - |pre| - |core|];
    TrimSpaceEmptyIff(s);
    var r := TrimSpace(s);
    if core != [] {
      assert r != [] by {
        assert !IsSpace(s[|pre|]);
      }
      assert r[0] == s[Lead(s)];
      assert Lead(s) == |pre|;
      assert r[|r| - 1] == s[|pre| + |r| - 1];
      assert |r| == |core|;
      assert r == s[|pre|..|pre| + |core|];
    }
  }

  /** Trimming is idempotent. */
  lemma TrimSpaceIdempotent(s: string)
    ensures TrimSpace(TrimSpace(s)) == TrimSpace(s)
  {
    TrimSpaceSpec(s);
    TrimSurrounded([], TrimSpace(s), []);
    assert [] + TrimSpace(s) + [] == TrimSpace(s);
  }

  /** The ASCII upper-case letters map to their lower-case forms; every other
      character is left as it is. */
  function LowerChar(c: char): char
  {
    if 'A' <= c <= 'Z' then (c as int + 32) as char else c
  }

  /** The ASCII lower-case letters map to their upper-case forms. */
  function UpperChar(c: char): char
  {
    if 'a' <= c <= 'z' then (c as int - 32) as char else c
  }

  predicate HasNoUpper(w: string)
  {
    forall k :: 0 <= k < |w| ==> !('A' <= w[k] <= 'Z')
  }

  /** `s` spells `w` with any mix of letter cases. */
  predicate CaseVariant(s: string, w: string)
  {
    |s| == |w| && forall k :: 0 <= k < |s| ==> s[k] == w[k] || s[k] == UpperChar(w[k])
  }

  /** Go's `strings.ToLower`, restricted to ASCII case mapping. */
  function ToLower(s: string): string
  {
    seq(|s|, k requires 0 <= k < |s| => LowerChar(s[k]))
  }

  /** Lower-casing yields a word with no upper-case letter exactly when the
      input spells that word in some mix of letter cases: this is what makes
      the exit-word test case-insensitive. */
  lemma LowerMatchesIff(s: string, w: string)
    requires HasNoUpper(w)
    ensures ToLower(s) == w <==> CaseVariant(s, w)
  {
    if ToLower(s) == w {
      forall k | 0 <= k < |s| ensures s[k] == w[k] || s[k] == UpperChar(w[k]) {
        assert LowerChar(s[k]) == w[k];
      }
    }
    if CaseVariant(s, w) {
      forall k | 0 <= k < |s| ensures ToLower(s)[k] == w[k] {
        assert s[k] == w[k] || s[k] == UpperChar(w[k]);
      }
    }
  }

  /** Lower-casing is idempotent. */
  lemma ToLowerIdempotent(s: string)
    ensures ToLower(ToLower(s)) == ToLower(s)
  {
  }
}
