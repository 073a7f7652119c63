/** `os.path.splitext` as it behaves on POSIX, where the separator is '/' and there is no alternative separator. */
module PosixPath {

  /** `p.rfind(c)`: index of the last `c` in `p`, or -1 when there is none. */
  function RFind(p: string, c: char): (i: int)
    ensures -1 <= i < |p|
    ensures i >= 0 ==> p[i] == c
    ensures forall j :: i < j < |p| ==> p[j] != c
    decreases |p|
  {
    if p == [] then -1
    else if p[|p| - 1] == c then |p| - 1
    else RFind(p[..|p| - 1], c)
  }

  /** Some character of `p[lo..hi]` is not a dot. */
  predicate HasNonDot(p: string, lo: nat, hi: nat)
    requires lo <= hi <= |p|
    decreases hi - lo
  {
    lo < hi && (p[lo] != '.' || HasNonDot(p, lo + 1, hi))
  }

  /**
   * `os.path.splitext(p)` as `(root, ext)`: the split is made before the last
   * dot when that dot lies in the final path component and some character
   * before it in that component is not a dot (leading dots, as in ".bashrc",
   * do not start an extension); otherwise the extension is empty.
   */
  function SplitExt(p: string): (parts: (string, string))
    ensures parts.0 + parts.1 == p
    ensures parts.1 == [] || (parts.1[0] == '.' && '.' !in parts.1[1..] && '/' !in parts.1)
  {
    var sepIndex := RFind(p, '/');
    var dotIndex := RFind(p, '.');
    if dotIndex > sepIndex && HasNonDot(p, sepIndex + 1, dotIndex) then
      assert p[..dotIndex] + p[dotIndex..] == p;
      (p[..dotIndex], p[dotIndex..])
    else
      (p, [])
  }

  /** `os.path.splitext(p)[1]`. */
  function Ext(p: string): string {
    SplitExt(p).1
  }

  /**
   * A name without '/' that starts with a character other than a dot and has
   * a dot at `d` and none after it splits before that dot.
   */
  lemma SplitExtAtLastDot(p: string, d: nat)
    requires '/' !in p && 0 < d < |p| && p[0] != '.' && p[d] == '.'
    requires forall j :: d < j < |p| ==> p[j] != '.'
    ensures SplitExt(p) == (p[..d], p[d..])
  {
    assert RFind(p, '/') == -1;
    assert RFind(p, '.') == d;
    assert p[0] != '.';
  }

  /** A name without any dot has an empty extension. */
  lemma NoDotNoExt(p: string)
    requires '.' !in p
    ensures SplitExt(p) == (p, [])
  {
  }
}
