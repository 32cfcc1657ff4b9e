/** Destination paths and the two string derivations the client applies to
    them: Python's `os.path.dirname` (posixpath) and the `.saved` backup
    suffix. */
module Paths {

  type Path = string

  /** Suffix of the backup copy synctool keeps of a replaced file. */
  const SavedSuffix: string := ".saved"

  /** The backup name of `p`: `p + '.saved'`. */
  function SavedName(p: Path): (s: Path)
    ensures |s| == |p| + |SavedSuffix|
    ensures s[..|p|] == p && s[|p|..] == SavedSuffix
  {
    p + SavedSuffix
  }

  /** A full destination path, as the client demands of `-d`, `-1` and `-r`
      arguments: non-empty and starting with '/'. */
  predicate IsFullPath(p: Path) {
    |p| > 0 && p[0] == '/'
  }

  predicate NoSlash(s: string) {
    forall i :: 0 <= i < |s| ==> s[i] != '/'
  }

  predicate AllSlashes(s: string) {
    forall i :: 0 <= i < |s| ==> s[i] == '/'
  }

  /** `p.rfind('/')`: the index of the last '/', or -1 when there is none. */
  function LastSlash(p: Path): (i: int)
    ensures -1 <= i < |p|
    ensures i >= 0 ==> p[i] == '/'
    ensures forall k :: i < k < |p| ==> p[k] != '/'
  {
    if |p| == 0 then -1
    else if p[|p| - 1] == '/' then |p| - 1
    else LastSlash(p[..|p| - 1])
  }

  /** The last '/' is the only index with a '/' and none after it. */
  lemma LastSlashUnique(p: Path, k: int)
    requires -1 <= k < |p|
    requires k >= 0 ==> p[k] == '/'
    requires forall m :: k < m < |p| ==> p[m] != '/'
    ensures LastSlash(p) == k
  {
  }

  /** `s.rstrip('/')`. */
  function RStripSlashes(s: string): (r: string)
    ensures r <= s
    ensures forall k :: |r| <= k < |s| ==> s[k] == '/'
    ensures |r| == 0 || r[|r| - 1] != '/'
  {
    if |s| == 0 || s[|s| - 1] != '/' then s
    else RStripSlashes(s[..|s| - 1])
  }

  /** posixpath.dirname: everything up to and including the last '/', with
      trailing slashes removed unless the head consists of slashes only. */
  function Dirname(p: Path): (d: Path)
    ensures d <= p
    ensures LastSlash(p) < 0 ==> d == ""
    ensures LastSlash(p) >= 0 ==> 0 < |d| <= LastSlash(p) + 1
    ensures forall k :: |d| <= k <= LastSlash(p) ==> p[k] == '/'
    ensures AllSlashes(p[..LastSlash(p) + 1]) ==> d == p[..LastSlash(p) + 1]
    ensures !AllSlashes(p[..LastSlash(p) + 1]) ==> |d| > 0 && d[|d| - 1] != '/'
  {
    var head := p[..LastSlash(p) + 1];
    if |head| > 0 && !AllSlashes(head) then
      RStripSlashes(head)
    else head
  }

  lemma LastSlashOfSlashFree(p: Path, s: string)
    requires NoSlash(s)
    ensures LastSlash(p + s) == LastSlash(p)
  {
    var q := p + s;
    forall m | LastSlash(p) < m < |q| ensures q[m] != '/' {
      if m >= |p| { assert q[m] == s[m - |p|]; }
    }
    LastSlashUnique(q, LastSlash(p));
  }

  /** The backup of a file lives in the same directory as the file itself,
      so registering the parent of `dest + '.saved'` registers the parent of
      `dest`. */
  lemma DirnameOfSaved(p: Path)
    ensures Dirname(SavedName(p)) == Dirname(p)
  {
    assert NoSlash(SavedSuffix);
    LastSlashOfSlashFree(p, SavedSuffix);
    var i := LastSlash(p);
    assert SavedName(p)[..i + 1] == p[..i + 1];
  }
}
