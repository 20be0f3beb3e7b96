/**
 * The `os.path` functions the image selection uses, with POSIX semantics
 * (`posixpath.join`, `posixpath.basename`, `posixpath.splitext`).
 */
module Paths {
  import opened Text

  const Sep: char := '/'
  const ExtSep: char := '.'

  /** `s.rfind(c)`: the last index of c in s, or -1. */
  function LastIndex(s: string, c: char): (k: int)
    ensures -1 <= k < |s|
    ensures k >= 0 ==> s[k] == c
    ensures forall i :: k < i < |s| ==> s[i] != c
  {
    if s == [] then -1
    else if s[|s| - 1] == c then |s| - 1
    else LastIndex(s[..|s| - 1], c)
  }

  /** `os.path.join(a, b)` for two components. */
  function PathJoin(a: string, b: string): string {
    if b != [] && b[0] == Sep then b
    else if a == [] || a[|a| - 1] == Sep then a + b
    else a + [Sep] + b
  }

  /** `os.path.basename(p)`: what follows the last separator. */
  function Basename(p: string): (r: string)
    ensures Sep !in r
    ensures EndsWith(p, r)
    ensures |r| < |p| ==> p[|p| - |r| - 1] == Sep
  {
    if p == [] || p[|p| - 1] == Sep then []
    else
      var init := p[..|p| - 1];
      var r := Basename(init) + [p[|p| - 1]];
      assert init[|init| - |r| + 1..] + [p[|p| - 1]] == p[|p| - |r|..];
      r
  }

  /**
   * The last path component of p has an extension: after the last separator,
   * some character other than a dot is followed, later on, by a dot.
   */
  ghost predicate HasExtension(p: string) {
    exists i, j :: LastIndex(p, Sep) < i < j < |p| && p[i] != ExtSep && p[j] == ExtSep
  }

  /**
   * `os.path.splitext(p)`: cut before the last dot of the last component,
   * unless every character before that dot in the component is a dot too
   * (so ".bashrc" and "..x" have no extension).
   */
  function SplitExt(p: string): (parts: (string, string))
    ensures parts.0 + parts.1 == p
    ensures parts.1 != [] <==> HasExtension(p)
    ensures parts.1 != [] ==> parts.1[0] == ExtSep && ExtSep !in parts.1[1..] && Sep !in parts.1
  {
    var sepIndex := LastIndex(p, Sep);
    var dotIndex := LastIndex(p, ExtSep);
    if dotIndex > sepIndex && exists i :: sepIndex + 1 <= i < dotIndex && p[i] != ExtSep then
      var i :| sepIndex + 1 <= i < dotIndex && p[i] != ExtSep;
      assert p[..dotIndex] + p[dotIndex..] == p;
      (p[..dotIndex], p[dotIndex..])
    else
      (p, "")
  }

  /** The display name of a file: its base name without the final extension. */
  function Stem(path: string): (name: string)
    ensures Sep !in name
    ensures StartsWith(Basename(path), name)
  {
    var b := Basename(path);
    var name := SplitExt(b).0;
    assert b[..|name|] == name;
    name
  }

  /** Joining onto a directory that ends with a separator appends, and the base name is what was appended. */
  lemma BasenameOfJoin(dir: string, name: string)
    requires EndsWith(dir, [Sep])
    requires Sep !in name
    ensures PathJoin(dir, name) == dir + name
    ensures Basename(dir + name) == name
  {
    var p := dir + name;
    assert p[|dir| - 1] == Sep;
    var k := LastIndex(p, Sep);
    assert k == |dir| - 1 by {
      assert forall i :: |dir| <= i < |p| ==> p[i] == name[i - |dir|];
    }
    assert p[k + 1..] == name;
  }
}
