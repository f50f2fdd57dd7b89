/** The two path operations main.py relies on, for POSIX paths. */
module Paths {

  /**
    `os.path.basename`: the part of the path after its last `/`, i.e. its
    longest suffix without a `/`.
  */
  function Basename(path: string): (name: string)
    ensures '/' !in name
    ensures |name| <= |path| && path[|path| - |name|..] == name
    ensures |name| < |path| ==> path[|path| - |name| - 1] == '/'
    decreases |path|
  {
    if path == [] || path[|path| - 1] == '/' then []
    else Basename(path[..|path| - 1]) + [path[|path| - 1]]
  }

  /** `str.endswith`: a case-sensitive test whether some tail of `s` is exactly `suffix`. */
  predicate EndsWith(s: string, suffix: string)
    ensures EndsWith(s, suffix) <==> exists k :: 0 <= k <= |s| && s[k..] == suffix
  {
    |suffix| <= |s| && s[|s| - |suffix|..] == suffix
  }

  /** A suffix without a `/` survives `os.path.basename`. */
  lemma BasenameKeepsSuffix(path: string, suffix: string)
    requires '/' !in suffix
    ensures EndsWith(path, suffix) ==> EndsWith(Basename(path), suffix)
  {
    if EndsWith(path, suffix) {
      var name := Basename(path);
      var start := |path| - |suffix|;
      assert forall m :: start <= m < |path| ==> path[m] == suffix[m - start] && path[m] != '/';
      assert |name| >= |suffix|;
      assert name[|name| - |suffix|..] == path[start..];
    }
  }
}
