/**
 * The three Python string operations the client relies on: `str.lower()`,
 * `str.strip()` and the substring test `pat in s`.
 */
module PyStr {

  /** Lower-casing of one character, restricted to the ASCII letters A-Z. */
  function LowerChar(c: char): char {
    if 'A' <= c <= 'Z' then (c as int + 32) as char else c
  }

  /** `s.lower()`, character by character (ASCII only). */
  function Lower(s: string): (r: string)
    ensures |r| == |s|
    ensures forall i :: 0 <= i < |s| ==> !('A' <= r[i] <= 'Z')
    ensures forall i :: 0 <= i < |s| && !('A' <= s[i] <= 'Z') ==> r[i] == s[i]
    ensures forall i :: 0 <= i < |s| && 'A' <= s[i] <= 'Z' ==> r[i] as int == s[i] as int + 32
  {
    seq(|s|, i requires 0 <= i < |s| => LowerChar(s[i]))
  }

  /** `pat` occurs in `s` starting at offset `i`. */
  predicate OccursAt(s: string, pat: string, i: int) {
    0 <= i && i + |pat| <= |s| && s[i..i + |pat|] == pat
  }

  /** `pat in s`: scans `s` from the left for an occurrence of `pat`. */
  function Contains(s: string, pat: string): (b: bool)
    ensures b <==> exists i :: OccursAt(s, pat, i)
    decreases |s|
  {
    if |s| < |pat| then
      false
    else if s[..|pat|] == pat then
      assert OccursAt(s, pat, 0);
      true
    else
      var tail := s[1..];
      if Contains(tail, pat) then
        var j :| OccursAt(tail, pat, j);
        assert tail[j..j + |pat|] == s[j + 1..j + 1 + |pat|];
        assert OccursAt(s, pat, j + 1);
        true
      else
        assert forall i :: OccursAt(s, pat, i) ==> OccursAt(tail, pat, i - 1) by {
          forall i | OccursAt(s, pat, i) ensures OccursAt(tail, pat, i - 1) {
            assert tail[i - 1..i - 1 + |pat|] == s[i..i + |pat|];
          }
        }
        false
  }

  /**
   * The characters `str.isspace()` accepts, and so the ones `str.strip()`
   * removes: the code points of Unicode category Zs and of bidirectional
   * classes WS, B and S.
   */
  predicate IsSpace(c: char)
    ensures c == ' ' || c == '\t' || c == '\n' || c == '\r' ==> IsSpace(c)
    ensures IsSpace(c) ==> !('0' <= c <= '9') && !('A' <= c <= 'Z') && !('a' <= c <= 'z')
  {
    var n := c as int;
    (0x09 <= n <= 0x0D) || (0x1C <= n <= 0x20) || n == 0x85 || n == 0xA0 ||
    n == 0x1680 || (0x2000 <= n <= 0x200A) || n == 0x2028 || n == 0x2029 ||
    n == 0x202F || n == 0x205F || n == 0x3000
  }

  /** Every character of `s` is white space (true of the empty string). */
  predicate AllSpace(s: string) {
    forall i :: 0 <= i < |s| ==> IsSpace(s[i])
  }

  /** `s.lstrip()`: the longest suffix of `s` that does not start with white space. */
  function StripLeft(s: string): (r: string)
    ensures |r| <= |s| && r == s[|s| - |r|..]
    ensures AllSpace(s[..|s| - |r|])
    ensures r != [] ==> !IsSpace(r[0])
  {
    if |s| > 0 && IsSpace(s[0]) then
      var t := s[1..];
      var r := StripLeft(t);
      assert r == s[|s| - |r|..] by {
        assert t[|t| - |r|..] == s[|s| - |r|..];
      }
      assert AllSpace(s[..|s| - |r|]) by {
        assert s[..|s| - |r|] == [s[0]] + t[..|t| - |r|];
      }
      r
    else
      s
  }

  /** `s.rstrip()`: the longest prefix of `s` that does not end with white space. */
  function StripRight(s: string): (r: string)
    ensures |r| <= |s| && r == s[..|r|]
    ensures AllSpace(s[|r|..])
    ensures r != [] ==> !IsSpace(r[|r| - 1])
  {
    if |s| > 0 && IsSpace(s[|s| - 1]) then
      var t := s[..|s| - 1];
      var r := StripRight(t);
      assert r == s[..|r|] by {
        assert t[..|r|] == s[..|r|];
      }
      assert AllSpace(s[|r|..]) by {
        assert s[|r|..] == t[|r|..] + [s[|s| - 1]];
      }
      r
    else
      s
  }

  /** `s.strip()`: white space removed from both ends. */
  function Strip(s: string): (r: string)
    ensures r != [] ==> !IsSpace(r[0]) && !IsSpace(r[|r| - 1])
  {
    var l := StripLeft(s);
    var r := StripRight(l);
    assert r != [] ==> r[0] == l[0];
    r
  }

  /**
   * `s.strip()` is a contiguous piece of `s`, and everything cut off around
   * it is white space.
   */
  lemma {:induction false} StripIsTrimmedSlice(s: string)
    ensures exists lo, hi :: (0 <= lo <= hi <= |s| && Strip(s) == s[lo..hi] &&
                              AllSpace(s[..lo]) && AllSpace(s[hi..]))
  {
    var l := StripLeft(s);
    var r := StripRight(l);
    var lo := |s| - |l|;
    var hi := lo + |r|;
    assert Strip(s) == s[lo..hi] by {
      assert s[lo..hi] == l[..|r|];
    }
    assert AllSpace(s[hi..]) by {
      assert s[hi..] == l[|r|..];
    }
  }

  /** `not s.strip()` holds exactly when `s` is empty or all white space. */
  lemma {:induction false} StripEmptyIffAllSpace(s: string)
    ensures Strip(s) == [] <==> AllSpace(s)
  {
    var l := StripLeft(s);
    if Strip(s) == [] {
      assert AllSpace(l[0..]) by {
        assert l[0..] == l;
      }
      assert s == s[..|s| - |l|] + l;
    }
  }

  /** A string that neither starts nor ends with white space is its own strip. */
  lemma StripOfUnpadded(s: string)
    requires s != [] ==> !IsSpace(s[0]) && !IsSpace(s[|s| - 1])
    ensures Strip(s) == s
  {
    assert StripLeft(s) == s;
  }

  /** White space in front of a string is all `lstrip` removes from it. */
  lemma {:induction false} StripLeftSpacePrefix(p: string, x: string)
    requires AllSpace(p)
    ensures StripLeft(p + x) == StripLeft(x)
    decreases |p|
  {
    if p == [] {
      assert p + x == x;
    } else {
      assert (p + x)[1..] == p[1..] + x;
      StripLeftSpacePrefix(p[1..], x);
    }
  }

  /** `lstrip` of a string that is not all white space keeps whatever follows it. */
  lemma {:induction false} StripLeftAppend(n: string, q: string)
    requires !AllSpace(n)
    ensures StripLeft(n + q) == StripLeft(n) + q
    decreases |n|
  {
    if IsSpace(n[0]) {
      assert (n + q)[1..] == n[1..] + q;
      assert !AllSpace(n[1..]) by {
        forall i | 0 <= i < |n| && !IsSpace(n[i]) ensures !AllSpace(n[1..]) {
          assert n[1..][i - 1] == n[i];
        }
      }
      StripLeftAppend(n[1..], q);
    }
  }

  /** White space behind a string is all `rstrip` removes from it. */
  lemma {:induction false} StripRightSpaceSuffix(y: string, q: string)
    requires AllSpace(q)
    ensures StripRight(y + q) == StripRight(y)
    decreases |q|
  {
    if q == [] {
      assert y + q == y;
    } else {
      var q' := q[..|q| - 1];
      assert (y + q)[..|y + q| - 1] == y + q';
      StripRightSpaceSuffix(y, q');
    }
  }

  /** Padding a string with white space on either side does not change its strip. */
  lemma StripPadded(p: string, n: string, q: string)
    requires AllSpace(p) && AllSpace(q)
    ensures Strip(p + n + q) == Strip(n)
  {
    assert p + n + q == p + (n + q);
    StripLeftSpacePrefix(p, n + q);
    if AllSpace(n) {
      assert AllSpace(n + q);
      StripEmptyIffAllSpace(n + q);
      StripEmptyIffAllSpace(n);
      assert StripLeft(n + q) == [] by {
        assert StripRight(StripLeft(n + q)) == [];
      }
    } else {
      StripLeftAppend(n, q);
      StripRightSpaceSuffix(StripLeft(n), q);
    }
  }

  /** Stripping an already stripped string changes nothing. */
  lemma {:induction false} StripIdempotent(s: string)
    ensures Strip(Strip(s)) == Strip(s)
  {
    StripOfUnpadded(Strip(s));
  }
}
