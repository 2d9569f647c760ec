/** The POSIX `os.path` operations the modelled code uses (`join`, `basename`, `splitext`). */
module PyPath {
  import opened Base

  /** `s.rfind(c)`, with `None` for -1. */
  function LastIndexOf(s: string, c: char): (r: Option<nat>)
    ensures r.Some? ==> r.value < |s| && s[r.value] == c
    ensures r.Some? ==> forall i :: r.value < i < |s| ==> s[i] != c
    ensures r.None? ==> forall i :: 0 <= i < |s| ==> s[i] != c
  {
    if s == [] then None
    else if s[|s| - 1] == c then Some(|s| - 1)
    else LastIndexOf(s[..|s| - 1], c)
  }

  /** `os.path.join(dir, name)` */
  function PathJoin(dir: string, name: string): string {
    if |name| > 0 && name[0] == '/' then name
    else if dir == [] || dir[|dir| - 1] == '/' then dir + name
    else dir + "/" + name
  }

  /** `os.path.basename(p)`: the text after the last `/`. */
  function Basename(p: string): (r: string)
    ensures |r| <= |p| && r == p[|p| - |r|..]
    ensures forall i :: 0 <= i < |r| ==> r[i] != '/'
    ensures |r| < |p| ==> p[|p| - |r| - 1] == '/'
  {
    match LastIndexOf(p, '/')
    case None => p
    case Some(k) => p[k + 1..]
  }

  /** `os.path.splitext(p)[0]`: `p` without its last extension. A dot only starts an
      extension when a character other than a dot precedes it in the last path component,
      so `.wav` keeps its name. */
  function SplitExtRoot(p: string): string {
    match LastIndexOf(p, '.')
    case None => p
    case Some(d) =>
      var start := match LastIndexOf(p, '/') case None => 0 case Some(k) => k + 1;
      if start <= d && exists i :: start <= i < d && p[i] != '.' then p[..d] else p
  }

  /** `os.path.splitext(os.path.basename(p))[0]` */
  function Stem(p: string): string {
    SplitExtRoot(Basename(p))
  }

  /** A component without `/` is the basename of any join that ends in it. */
  lemma {:induction false} BasenameOfJoin(dir: string, name: string)
    requires forall i :: 0 <= i < |name| ==> name[i] != '/'
    ensures Basename(PathJoin(dir, name)) == name
  {
    var pre := if dir == [] || dir[|dir| - 1] == '/' then dir else dir + "/";
    assert PathJoin(dir, name) == pre + name;
    assert pre == [] || pre[|pre| - 1] == '/';
    BasenameAfterSlash(pre, name);
  }

  lemma BasenameAfterSlash(pre: string, name: string)
    requires pre == [] || pre[|pre| - 1] == '/'
    requires forall i :: 0 <= i < |name| ==> name[i] != '/'
    ensures Basename(pre + name) == name
  {
    var p := pre + name;
    var r := Basename(p);
    assert |r| == |name|;
    assert r == p[|pre|..];
  }

  /** A name `x.wav` with a non-dot character in `x` and no `/` loses exactly `.wav`;
      a name made only of dots followed by `.wav` (such as `.wav`) keeps it. */
  lemma StemOfWavName(x: string)
    requires forall i :: 0 <= i < |x| ==> x[i] != '/'
    ensures (exists i :: 0 <= i < |x| && x[i] != '.') ==> SplitExtRoot(x + ".wav") == x
    ensures (forall i :: 0 <= i < |x| ==> x[i] == '.') ==> SplitExtRoot(x + ".wav") == x + ".wav"
  {
    var p := x + ".wav";
    assert p[|x|] == '.';
    assert forall i :: |x| < i < |p| ==> p[i] != '.';
    assert LastIndexOf(p, '.') == Some(|x|);
    assert forall i :: 0 <= i < |p| ==> p[i] != '/';
    assert LastIndexOf(p, '/') == None;
    assert p[..|x|] == x;
  }
}
