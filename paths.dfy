/** The two POSIX path operations the backend uses: `os.path.join` and `os.path.splitext`. */
module Paths {
  import opened Text

  /** `os.path.join(a, b)` on POSIX: an absolute `b` replaces `a`; otherwise one `/` separates them. */
  function PathJoin(a: string, b: string): string
  {
    if |b| > 0 && b[0] == '/' then b
    else if |a| == 0 || a[|a| - 1] == '/' then a + b
    else a + "/" + b
  }

  predicate NoSlash(s: string)
  {
    forall j :: 0 <= j < |s| ==> s[j] != '/'
  }

  predicate NoDotOrSlash(s: string)
  {
    forall j :: 0 <= j < |s| ==> s[j] != '.' && s[j] != '/'
  }

  /** Some character of `p[lo..hi]` is not a dot. */
  predicate HasNonDot(p: string, lo: int, hi: int)
    requires 0 <= lo <= hi <= |p|
  {
    exists k :: lo <= k < hi && p[k] != '.'
  }

  /**
   * `os.path.splitext(p)`: the last dot after the last `/` starts the
   * extension, unless everything between that `/` and the dot is dots
   * (a leading-dot name such as `.bashrc` has no extension).
   */
  function Splitext(p: string): (string, string)
  {
    var sepIndex := LastIndexOf(p, '/');
    var dotIndex := LastIndexOf(p, '.');
    if dotIndex > sepIndex && HasNonDot(p, sepIndex + 1, dotIndex)
    then (p[..dotIndex], p[dotIndex..])
    else (p, "")
  }

  /** `d` is the dot that starts a real extension of `p`. */
  predicate ExtensionAt(p: string, d: int)
  {
    && 0 <= d < |p| && p[d] == '.'
    && NoDotOrSlash(p[d + 1..])
    && exists k :: 0 <= k < d && p[k] != '.' && NoSlash(p[k..d])
  }

  /**
   * The contract of `splitext`: root and extension concatenate to the path;
   * the extension is empty exactly when the last component has no real
   * extension, and otherwise starts at the dot that begins it.
   */
  lemma SplitextSpec(p: string)
    ensures Splitext(p).0 + Splitext(p).1 == p
    ensures Splitext(p).1 != "" <==> exists d :: ExtensionAt(p, d)
    ensures Splitext(p).1 != "" ==> ExtensionAt(p, |Splitext(p).0|)
  {
    var sepIndex := LastIndexOf(p, '/');
    var dotIndex := LastIndexOf(p, '.');
    var (root, ext) := Splitext(p);
    if dotIndex > sepIndex && HasNonDot(p, sepIndex + 1, dotIndex) {
      assert root + ext == p;
      var k :| sepIndex + 1 <= k < dotIndex && p[k] != '.';
      assert NoSlash(p[k..dotIndex]);
      assert NoDotOrSlash(p[dotIndex + 1..]);
      assert ExtensionAt(p, dotIndex);
    }
  }
}
