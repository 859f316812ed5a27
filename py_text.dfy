/**
 * The handful of Python `str` operations the catalog updater is built from,
 * with their exact Python 3 semantics on already-decoded text:
 * `s.find(sub, start)`, `s.rfind(c)` for one character, `s.replace(old, new)`
 * and slicing `s[:k]`, `s[k:]` with a possibly negative index.
 */
module PyText {

  /** `sub` occurs in `s` starting at index `k`. */
  predicate OccursAt(s: string, sub: string, k: int)
  {
    0 <= k && k + |sub| <= |s| && s[k..k + |sub|] == sub
  }

  /** `sub` occurs somewhere in `s`. */
  predicate Occurs(s: string, sub: string)
  {
    exists k | 0 <= k <= |s| :: OccursAt(s, sub, k)
  }

  /**
   * `s.find(sub, start)`: the first index at or after `start` where `sub`
   * occurs, or -1 when there is none.
   */
  function FindFrom(s: string, sub: string, start: nat): (r: int)
    ensures r == -1 ==> forall k :: start <= k ==> !OccursAt(s, sub, k)
    ensures r != -1 ==> start <= r && OccursAt(s, sub, r)
    ensures r != -1 ==> forall k :: start <= k < r ==> !OccursAt(s, sub, k)
    decreases |s| - start
  {
    if start + |sub| > |s| then -1
    else if s[start..start + |sub|] == sub then start
    else FindFrom(s, sub, start + 1)
  }

  /** `s.find(sub)`. */
  function Find(s: string, sub: string): (r: int)
    ensures r == -1 <==> !Occurs(s, sub)
    ensures r != -1 ==> OccursAt(s, sub, r) && forall k :: 0 <= k < r ==> !OccursAt(s, sub, k)
  {
    FindFrom(s, sub, 0)
  }

  /** `s.rfind(c)` for a single character `c`: its last index, or -1. */
  function LastIndexOf(s: string, c: char): (r: int)
    ensures -1 <= r < |s|
    ensures r == -1 <==> c !in s
    ensures r != -1 ==> s[r] == c && c !in s[r + 1..]
  {
    if s == [] then -1
    else if s[|s| - 1] == c then |s| - 1
    else
      var r := LastIndexOf(s[..|s| - 1], c);
      assert s == s[..|s| - 1] + [s[|s| - 1]];
      r
  }

  /** The last occurrence is the one with no occurrence after it. */
  lemma LastIndexOfIs(s: string, c: char, i: nat)
    requires i < |s| && s[i] == c && c !in s[i + 1..]
    ensures LastIndexOf(s, c) == i
  {
    assert s[i] in s;
  }

  /** A slice of a slice is a slice of the whole. */
  lemma SliceOfSlice(s: string, a: nat, b: nat, i: nat, j: nat)
    requires a <= b <= |s| && i <= j <= b - a
    ensures s[a..b][i..j] == s[a + i..a + j]
  {
    assert forall m | 0 <= m < j - i :: s[a..b][i..j][m] == s[a + i..a + j][m];
  }

  /** Texts that agree up to `n + |sub|` agree on where `sub` occurs before `n`. */
  lemma SamePrefixSameOccurrences(s: string, t: string, sub: string, n: nat)
    requires n + |sub| <= |s| && n + |sub| <= |t| && s[..n + |sub|] == t[..n + |sub|]
    ensures forall k :: 0 <= k < n ==> (OccursAt(s, sub, k) <==> OccursAt(t, sub, k))
  {
    forall k | 0 <= k < n
      ensures OccursAt(s, sub, k) <==> OccursAt(t, sub, k)
    {
      SliceOfSlice(s, 0, n + |sub|, k, k + |sub|);
      SliceOfSlice(t, 0, n + |sub|, k, k + |sub|);
    }
  }

  /**
   * Python's reading of a slice bound `k` against a sequence of length `n`:
   * a negative bound counts from the end, and the result is clamped to
   * `0..n`.
   */
  function SliceIndex(k: int, n: nat): (i: nat)
    ensures i <= n
    ensures 0 <= k <= n ==> i == k
    ensures k > n ==> i == n
    ensures k < 0 && -k <= n ==> i == n + k
    ensures k < 0 && -k > n ==> i == 0
  {
    if k < 0 then (if n + k < 0 then 0 else n + k)
    else if k > n then n
    else k
  }

  /** `s[:k]`: the first `SliceIndex(k, |s|)` characters of `s`. */
  function SliceTo(s: string, k: int): (r: string)
    ensures |r| == SliceIndex(k, |s|)
    ensures r == s[..|r|]
  {
    s[..SliceIndex(k, |s|)]
  }

  /** `s[k:]`: the last `|s| - SliceIndex(k, |s|)` characters of `s`. */
  function SliceFrom(s: string, k: int): (r: string)
    ensures |r| == |s| - SliceIndex(k, |s|)
    ensures r == s[|s| - |r|..]
  {
    s[SliceIndex(k, |s|)..]
  }

  /** `s[:k] + s[k:] == s`: the two slices keep every character, in order. */
  lemma SlicesSplit(s: string, k: int)
    ensures SliceTo(s, k) + SliceFrom(s, k) == s
  {
    var i := SliceIndex(k, |s|);
    assert s == s[..i] + s[i..];
  }

  /**
   * `s.replace(pat, rep)` for a non-empty `pat`: scanning left to right,
   * every non-overlapping occurrence of `pat` is replaced by `rep`.
   */
  function Replace(s: string, pat: string, rep: string): (r: string)
    requires |pat| > 0
    ensures !Occurs(s, pat) ==> r == s
    decreases |s|
  {
    if |s| < |pat| then s
    else if s[..|pat|] == pat then
      assert OccursAt(s, pat, 0);
      rep + Replace(s[|pat|..], pat, rep)
    else
      var r := Replace(s[1..], pat, rep);
      assert !Occurs(s, pat) ==> !Occurs(s[1..], pat) by {
        if Occurs(s[1..], pat) {
          var k :| 0 <= k <= |s[1..]| && OccursAt(s[1..], pat, k);
          assert s[1..] == s[1..|s|];
          SliceOfSlice(s, 1, |s|, k, k + |pat|);
          assert s[k + 1..k + 1 + |pat|] == s[1..][k..k + |pat|];
          assert OccursAt(s, pat, k + 1);
        }
      }
      assert s == [s[0]] + s[1..];
      [s[0]] + r
  }

  /** One step of `Replace` on a non-empty text. */
  lemma ReplaceStep(s: string, pat: string, rep: string)
    requires |pat| > 0 && s != []
    ensures Replace(s, pat, rep)
         == if |s| >= |pat| && s[..|pat|] == pat then rep + Replace(s[|pat|..], pat, rep)
            else [s[0]] + Replace(s[1..], pat, rep)
  {
    if |s| < |pat| {
      assert |s[1..]| < |pat|;
      assert s == [s[0]] + s[1..];
    }
  }

  /** Replacing a single character distributes over concatenation. */
  lemma {:induction false} ReplaceCharConcat(a: string, b: string, c: char, rep: string)
    ensures Replace(a + b, [c], rep) == Replace(a, [c], rep) + Replace(b, [c], rep)
    decreases |a|
  {
    if a == [] {
      assert a + b == b;
    } else {
      assert (a + b)[1..] == a[1..] + b;
      assert (a + b)[..1] == a[..1];
      ReplaceCharConcat(a[1..], b, c, rep);
    }
  }

  /** Replacing a character with text free of character `d` keeps `d` out. */
  lemma {:induction false} ReplaceKeepsCharOut(s: string, pat: string, rep: string, d: char)
    requires |pat| > 0
    requires d !in s && d !in rep
    ensures d !in Replace(s, pat, rep)
    decreases |s|
  {
    if |s| < |pat| {
    } else if s[..|pat|] == pat {
      ReplaceKeepsCharOut(s[|pat|..], pat, rep, d);
    } else {
      ReplaceKeepsCharOut(s[1..], pat, rep, d);
    }
  }

  /** After replacing a character by text without it, the character is gone. */
  lemma {:induction false} ReplaceRemovesChar(s: string, c: char, rep: string)
    requires c !in rep
    ensures c !in Replace(s, [c], rep)
    decreases |s|
  {
    if |s| < 1 {
    } else if s[..1] == [c] {
      ReplaceRemovesChar(s[1..], c, rep);
    } else {
      ReplaceRemovesChar(s[1..], c, rep);
    }
  }
}
