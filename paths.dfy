/** POSIX path handling as `os.path` does it: the directory and file name
    of a path, joining, and the extension. */
module Paths {
  import opened TextUtil

  /** One past the last '/', or 0 when there is none. */
  function AfterLastSlash(p: string): (i: nat)
    ensures i <= |p| && (i == 0 || p[i - 1] == '/')
    ensures forall k :: i <= k < |p| ==> p[k] != '/'
    decreases |p|
  {
    if p == [] then 0
    else if p[|p| - 1] == '/' then |p|
    else AfterLastSlash(p[..|p| - 1])
  }

  /** `s` without its trailing slashes. */
  function TrimSlashes(s: string): (r: string)
    ensures |r| <= |s| && r == s[..|r|]
    ensures r == [] || r[|r| - 1] != '/'
    decreases |s|
  {
    if s != [] && s[|s| - 1] == '/' then TrimSlashes(s[..|s| - 1]) else s
  }

  predicate AllSlashes(s: string) { forall k :: 0 <= k < |s| ==> s[k] == '/' }

  /** `os.path.dirname`: everything up to the last slash, without trailing
      slashes unless it is slashes only. */
  function Dirname(p: string): string
  {
    var head := p[..AfterLastSlash(p)];
    if head != [] && !AllSlashes(head) then TrimSlashes(head) else head
  }

  /** `os.path.basename`: everything after the last slash. */
  function Basename(p: string): (r: string)
    ensures forall k :: 0 <= k < |r| ==> r[k] != '/'
  {
    p[AfterLastSlash(p)..]
  }

  /** `os.path.join(a, b)`. */
  function JoinPath(a: string, b: string): string
  {
    if b != [] && b[0] == '/' then b
    else if a == [] || a[|a| - 1] == '/' then a + b
    else a + "/" + b
  }

  /** A path `dir/name`: its directory is `dir` and its file name `name`. */
  lemma PathParts(dir: string, name: string)
    requires dir != [] && dir[|dir| - 1] != '/'
    requires forall k :: 0 <= k < |name| ==> name[k] != '/'
    ensures Dirname(dir + "/" + name) == dir && Basename(dir + "/" + name) == name
  {
    var p := dir + "/" + name;
    AfterLastSlashOfSuffix(dir + "/", name);
    assert p[..|dir| + 1] == dir + "/";
    assert p[|dir| + 1..] == name;
    assert !AllSlashes(dir + "/") by { assert (dir + "/")[|dir| - 1] != '/'; }
    assert (dir + "/")[..|dir|] == dir;
    assert TrimSlashes(dir) == dir;
    assert TrimSlashes(dir + "/") == dir;
  }

  /** A name without slashes after a path ending in a slash: the last slash
      is that one. */
  lemma {:induction false} AfterLastSlashOfSuffix(a: string, name: string)
    requires a != [] && a[|a| - 1] == '/'
    requires forall k :: 0 <= k < |name| ==> name[k] != '/'
    ensures AfterLastSlash(a + name) == |a|
    decreases |name|
  {
    if name == [] {
      assert a + name == a;
    } else {
      var n := |name| - 1;
      assert (a + name)[..|a| + n] == a + name[..n];
      AfterLastSlashOfSuffix(a, name[..n]);
    }
  }

  /** A path without slashes has no directory part. */
  lemma {:induction false} NoSlashStart(p: string)
    requires forall k :: 0 <= k < |p| ==> p[k] != '/'
    ensures AfterLastSlash(p) == 0
    decreases |p|
  {
    if p != [] {
      NoSlashStart(p[..|p| - 1]);
    }
  }

  /** The index of the last '.', if any. */
  function LastDot(s: string): (r: Option<nat>)
    ensures r.Some? ==> r.value < |s| && s[r.value] == '.' && forall k :: r.value < k < |s| ==> s[k] != '.'
    ensures r.None? ==> forall k :: 0 <= k < |s| ==> s[k] != '.'
    decreases |s|
  {
    if s == [] then None
    else if s[|s| - 1] == '.' then Some(|s| - 1)
    else LastDot(s[..|s| - 1])
  }

  /** The extension of a file name: from its last point on, unless only
      points come before that point (".xls" alone is a hidden file without
      extension). */
  function NameExtension(name: string): (ext: string)
    ensures ext == [] || (ext[0] == '.' && EndsWith(name, ext) && forall k :: 1 <= k < |ext| ==> ext[k] != '.')
    ensures ext == [] <==> LastDot(name).None? || forall k :: 0 <= k < LastDot(name).value ==> name[k] == '.'
  {
    match LastDot(name)
    case None => ""
    case Some(d) => if exists k :: 0 <= k < d && name[k] != '.' then name[d..] else ""
  }

  /** `os.path.splitext(p)[1]`: the extension of the file name. */
  function Extension(p: string): string
  {
    NameExtension(Basename(p))
  }
}
