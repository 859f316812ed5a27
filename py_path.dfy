/**
 * The two POSIX path functions the handler applies to the object key to name
 * the mod: `os.path.basename` and `os.path.splitext`, as Python's `posixpath`
 * defines them (separator `/`, extension separator `.`).
 */
module PyPath {
  import opened PyText

  /**
   * `os.path.basename(p)`: everything after the last `/`. The result is the
   * longest suffix of `p` without a `/`.
   */
  function Basename(p: string): (r: string)
    ensures '/' !in r
    ensures |r| <= |p| && r == p[|p| - |r|..]
    ensures |r| < |p| ==> p[|p| - |r| - 1] == '/'
  {
    p[LastIndexOf(p, '/') + 1..]
  }

  /**
   * True when some character other than `.` stands between index `from`
   * and index `to` of `p`: the guard by which `splitext` ignores the leading
   * dots of a file name.
   */
  predicate HasNonDot(p: string, from: int, to: int)
    requires 0 <= from && to <= |p|
  {
    exists k | from <= k < to :: p[k] != '.'
  }

  /**
   * `os.path.splitext(p)`: splits off the last extension. The split happens at
   * the last `.` only when it comes after the last `/` and something other
   * than a dot precedes it within the final component; otherwise the
   * extension is empty.
   */
  function SplitExt(p: string): (r: (string, string))
    ensures r.0 + r.1 == p
    ensures r.1 == [] || (r.1[0] == '.' && '.' !in r.1[1..] && '/' !in r.1)
  {
    var sep := LastIndexOf(p, '/');
    var dot := LastIndexOf(p, '.');
    if dot > sep && HasNonDot(p, sep + 1, dot) then
      assert p[dot..][1..] == p[dot + 1..];
      (p[..dot], p[dot..])
    else
      (p, [])
  }

  /** A file name that `splitext` splits: a non-dot character before its last dot. */
  predicate HasExtension(base: string)
  {
    exists i, j | 0 <= i < j < |base| :: base[i] != '.' && base[j] == '.'
  }

  /** A dot before index `dot` that has a non-dot before it makes the name splittable. */
  lemma NonDotBeforeDot(base: string, dot: int)
    requires 0 <= dot < |base| && base[dot] == '.' && HasNonDot(base, 0, dot)
    ensures HasExtension(base)
  {
    var k :| 0 <= k < dot && base[k] != '.';
    assert base[k] != '.' && base[dot] == '.';
  }

  /**
   * For a file name (no `/`), `splitext` splits off an extension exactly when
   * a non-dot character precedes the last dot: the leading dots of a name
   * such as `.zip` do not start an extension.
   */
  lemma SplitExtOfFileName(base: string)
    requires '/' !in base
    ensures SplitExt(base).1 != [] <==> HasExtension(base)
  {
    var dot := LastIndexOf(base, '.');
    if dot >= 0 && HasNonDot(base, 0, dot) {
      NonDotBeforeDot(base, dot);
    }
    if HasExtension(base) {
      var i, j :| 0 <= i < j < |base| && base[i] != '.' && base[j] == '.';
      assert base[i] != '.';
    }
  }
}
