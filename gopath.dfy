/** The parts of Go's `path` package that migration.go uses: Ext and Base on slash-separated paths. */
module GoPath {

  /**
   The backward scan of path.Ext over `p[..k]`: the index of the last dot
   that follows the last slash, or |p| when the scan meets a slash or the
   start of the path first.
   */
  function ExtStart(p: string, k: nat): (i: nat)
    requires k <= |p|
    ensures i <= |p|
    ensures i == |p| ==> forall j :: 0 <= j < k && p[j] == '.' ==> '/' in p[j..k]
    ensures i < |p| ==> i < k && p[i] == '.' && forall j :: i < j < k ==> p[j] != '.' && p[j] != '/'
    decreases k
  {
    if k == 0 || p[k - 1] == '/' then |p|
    else if p[k - 1] == '.' then k - 1
    else ExtStart(p, k - 1)
  }

  /**
   What path.Ext promises: `e` ends `p`; it is empty when no dot follows
   the last slash, and otherwise runs from the last such dot to the end.
   */
  ghost predicate IsExtOf(e: string, p: string) {
    && |e| <= |p| && p[|p| - |e|..] == e
    && '/' !in e
    && (e != "" ==> e[0] == '.' && '.' !in e[1..])
    && (e == "" ==> forall j :: 0 <= j < |p| && p[j] == '.' ==> '/' in p[j..])
  }

  /** Go's path.Ext: the file name extension of the last element of `p`. */
  function Ext(p: string): (e: string)
    ensures IsExtOf(e, p)
  {
    var i := ExtStart(p, |p|);
    assert i < |p| ==> p[i..][1..] == p[i + 1..];
    p[i..]
  }

  /** IsExtOf determines the extension: only Ext(p) satisfies it. */
  lemma ExtUnique(e: string, p: string)
    requires IsExtOf(e, p)
    ensures e == Ext(p)
  {
    var x := Ext(p);
    assert |e| == |x|;
  }

  /** `p` without its trailing slashes. */
  function TrimTrailingSlashes(p: string): (r: string)
    ensures |r| <= |p| && p[..|r|] == r
    ensures r == "" || r[|r| - 1] != '/'
    ensures forall j :: |r| <= j < |p| ==> p[j] == '/'
  {
    if p != "" && p[|p| - 1] == '/' then TrimTrailingSlashes(p[..|p| - 1]) else p
  }

  /** The part of `p` after its last slash, or all of `p` when it has none. */
  function AfterLastSlash(p: string): (r: string)
    ensures |r| <= |p| && p[|p| - |r|..] == r
    ensures '/' !in r
    ensures |r| < |p| ==> p[|p| - |r| - 1] == '/'
  {
    if p == "" || p[|p| - 1] == '/' then "" else AfterLastSlash(p[..|p| - 1]) + [p[|p| - 1]]
  }

  /**
   Go's path.Base: the last element of `p` once trailing slashes are
   removed; "." for the empty path and "/" for a path of slashes only.
   */
  function Base(p: string): (r: string)
    ensures r != ""
    ensures p == "" ==> r == "."
    ensures r == "/" || '/' !in r
    ensures p != "" && (forall j :: 0 <= j < |p| ==> p[j] == '/') ==> r == "/"
  {
    if p == "" then "."
    else
      var elem := AfterLastSlash(TrimTrailingSlashes(p));
      if elem == "" then "/" else elem
  }

  /** Trailing slashes do not count: dropping one leaves the base unchanged. */
  lemma BaseDropsTrailingSlash(p: string)
    requires |p| >= 2 && p[|p| - 1] == '/'
    ensures Base(p) == Base(p[..|p| - 1])
  {
  }

  /** The base of a non-empty element placed after a directory (or alone) is that element. */
  lemma BaseOfElement(dir: string, name: string)
    requires name != "" && '/' !in name
    requires dir == "" || dir[|dir| - 1] == '/'
    ensures Base(dir + name) == name
  {
    var p := dir + name;
    assert p[|p| - 1] == name[|name| - 1];
    assert TrimTrailingSlashes(p) == p;
    var r := AfterLastSlash(p);
    assert p[|p| - |name|..] == name;
    assert |r| == |name|;
  }
}
