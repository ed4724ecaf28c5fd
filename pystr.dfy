/** The two pieces of Python's `str` that the report-id scraper is built on:
    `s.find(pat)` and slicing `s[i:j]` / `s[i:]`, with Python's treatment of
    negative and out-of-range indices written out. */
module PyStr {

  /** `pat` occurs in `s` starting at offset `i`. */
  predicate OccursAt(s: string, pat: string, i: int)
  {
    0 <= i && i + |pat| <= |s| && s[i..i + |pat|] == pat
  }

  /** `c` does not appear in `s`. */
  predicate NoChar(s: string, c: char)
  {
    forall k :: 0 <= k < |s| ==> s[k] != c
  }

  /** Python's `s.find(pat)`: the lowest offset at which `pat` occurs, or -1. */
  function Find(s: string, pat: string): (r: int)
    ensures -1 <= r <= |s|
    ensures r >= 0 ==> OccursAt(s, pat, r)
    ensures forall j :: 0 <= j < r ==> !OccursAt(s, pat, j)
    ensures r == -1 ==> forall j :: !OccursAt(s, pat, j)
    decreases |s|
  {
    if |pat| > |s| then -1
    else if s[..|pat|] == pat then 0
    else
      var k := Find(s[1..], pat);
      assert forall j :: 1 <= j ==> OccursAt(s, pat, j) == OccursAt(s[1..], pat, j - 1) by {
        forall j | 1 <= j
          ensures OccursAt(s, pat, j) == OccursAt(s[1..], pat, j - 1)
        {
          if j + |pat| <= |s| {
            var here, there := s[j..j + |pat|], s[1..][j - 1..j - 1 + |pat|];
            assert forall m :: 0 <= m < |here| ==> here[m] == there[m];
          }
        }
      }
      if k < 0 then -1 else k + 1
  }

  /** Python's normalisation of one slice bound: a negative index counts from
      the end, and the result is clamped to `0..n`. */
  function Bound(n: nat, i: int): (k: nat)
    ensures k <= n
    ensures 0 <= i <= n ==> k == i
    ensures i > n ==> k == n
    ensures i < 0 && 0 <= n + i ==> k == n + i
    ensures n + i < 0 ==> k == 0
  {
    if i < 0 then (if i + n < 0 then 0 else i + n)
    else if i > n then n
    else i
  }

  /** Python's `s[i:j]`. It never fails: bounds are normalised and an
      inverted range is empty. */
  function Slice(s: string, i: int, j: int): (r: string)
    ensures |r| == if Bound(|s|, i) < Bound(|s|, j) then Bound(|s|, j) - Bound(|s|, i) else 0
    ensures forall k :: 0 <= k < |r| ==> r[k] == s[Bound(|s|, i) + k]
  {
    var lo, hi := Bound(|s|, i), Bound(|s|, j);
    if lo < hi then s[lo..hi] else []
  }

  /** Python's `s[i:]`. */
  function Suffix(s: string, i: int): (r: string)
  {
    Slice(s, i, |s|)
  }

  /** On non-negative bounds in range Python slicing is Dafny's subsequence. */
  lemma SliceInRange(s: string, i: int, j: int)
    requires 0 <= i <= j <= |s|
    ensures Slice(s, i, j) == s[i..j]
  {
  }

  /** An inverted range `s[i:j]` with `j < i` (both non-negative) is empty. */
  lemma SliceInverted(s: string, i: int, j: int)
    requires 0 <= j < i
    ensures Slice(s, i, j) == []
  {
  }

  /** `s[-1:]` is the last character, or empty for an empty string. */
  lemma SuffixFromLast(s: string)
    ensures Suffix(s, -1) == if |s| > 0 then s[|s| - 1..] else []
  {
  }

  /** `s[0:-1]` is everything but the last character. */
  lemma SliceDropLast(s: string)
    requires |s| > 0
    ensures Slice(s, 0, -1) == s[..|s| - 1]
  {
  }

  /** `s[-1:-2]` is empty. */
  lemma SliceLastInverted(s: string)
    ensures Slice(s, -1, -2) == []
  {
  }

  /** A one-character pattern occurs exactly where that character is. */
  lemma OccursAtChar(s: string, c: char, i: int)
    ensures OccursAt(s, [c], i) <==> 0 <= i < |s| && s[i] == c
  {
  }

  /** `find` of one character returns `k` exactly when `s[k]` is the first
      occurrence of it. */
  lemma {:induction false} FindCharAt(s: string, c: char, k: int)
    requires 0 <= k < |s| && s[k] == c
    requires NoChar(s[..k], c)
    ensures Find(s, [c]) == k
  {
    OccursAtChar(s, c, k);
    forall j | 0 <= j < k ensures !OccursAt(s, [c], j) {
      assert s[..k][j] == s[j];
      OccursAtChar(s, c, j);
    }
    FindFirst(s, [c], k);
  }

  /** `find` of a character that does not appear returns -1. */
  lemma {:induction false} FindCharAbsent(s: string, c: char)
    requires NoChar(s, c)
    ensures Find(s, [c]) == -1
  {
    var r := Find(s, [c]);
    if r >= 0 { OccursAtChar(s, c, r); }
  }

  /** When `find` of one character succeeds, what it skipped is free of it. */
  lemma FindCharFound(s: string, c: char)
    requires Find(s, [c]) >= 0
    ensures Find(s, [c]) < |s| && s[Find(s, [c])] == c
    ensures NoChar(s[..Find(s, [c])], c)
  {
    var r := Find(s, [c]);
    OccursAtChar(s, c, r);
    forall j | 0 <= j < r ensures s[..r][j] != c {
      OccursAtChar(s, c, j);
    }
  }

  /** `find` of a character that appears succeeds. */
  lemma FindCharPresent(s: string, c: char, k: int)
    requires 0 <= k < |s| && s[k] == c
    ensures Find(s, [c]) >= 0
  {
    OccursAtChar(s, c, k);
  }

  /** When `find` of one character fails, the string is free of it. */
  lemma FindCharMissing(s: string, c: char)
    requires Find(s, [c]) == -1
    ensures NoChar(s, c)
  {
  }

  /** `find` returns the first occurrence of a pattern. */
  lemma FindFirst(s: string, pat: string, k: int)
    requires OccursAt(s, pat, k)
    requires forall j :: 0 <= j < k ==> !OccursAt(s, pat, j)
    ensures Find(s, pat) == k
  {
  }
}
