/**
 * The POSIX path operations the script relies on (`os.path.join`, `os.path.basename`,
 * `os.path.splitext`), on paths written as strings with `/` as separator.
 */
module Paths {
  import opened Text

  /**
   * `os.path.join(dir, name)` for two components: an absolute `name` replaces `dir`;
   * otherwise the result holds both, with at most one character added between them.
   */
  function Join(dir: string, name: string): (p: string)
    ensures |name| > 0 && name[0] == '/' ==> p == name
    ensures !(|name| > 0 && name[0] == '/') ==> |dir| + |name| <= |p| <= |dir| + |name| + 1
  {
    if |name| > 0 && name[0] == '/' then name
    else if dir == [] || dir[|dir| - 1] == '/' then dir + name
    else dir + "/" + name
  }

  /**
   * A relative `name` is joined after `dir`: the result starts with `dir`, ends with `name`,
   * and has a `/` right before `name` when `dir` is not empty, adding one only when `dir`
   * does not already end with it.
   */
  lemma JoinParts(dir: string, name: string)
    requires !(|name| > 0 && name[0] == '/')
    ensures var p := Join(dir, name);
            && p[..|dir|] == dir && p[|p| - |name|..] == name
            && (dir != [] ==> p[|p| - |name| - 1] == '/')
            && (dir == [] || dir[|dir| - 1] == '/' ==> |p| == |dir| + |name|)
  {
  }

  /** `os.path.basename(p)`: what follows the last `/`. */
  function Basename(p: string): (b: string)
    ensures '/' !in b
    ensures |b| <= |p| && p[|p| - |b|..] == b
    ensures |b| < |p| ==> p[|p| - |b| - 1] == '/'
  {
    p[LastIndex(p, '/') + 1..]
  }

  /**
   * `os.path.splitext(p)`: the extension starts at the last `.` of the last component,
   * unless that component has only dots before it (a hidden file such as `.bashrc`).
   */
  function SplitExt(p: string): (parts: (string, string))
    ensures parts.0 + parts.1 == p
    ensures parts.1 == [] || (parts.1[0] == '.' && '.' !in parts.1[1..] && '/' !in parts.1)
    ensures parts.1 != [] ==> exists i :: LastIndex(p, '/') < i < |parts.0| && p[i] != '.'
    ensures parts.1 == [] ==> forall i, j :: LastIndex(p, '/') < i < j < |p| && p[j] == '.' ==> p[i] == '.'
  {
    var sepIndex := LastIndex(p, '/');
    var dotIndex := LastIndex(p, '.');
    if dotIndex > sepIndex && exists i :: sepIndex + 1 <= i < dotIndex && p[i] != '.' then
      (p[..dotIndex], p[dotIndex..])
    else
      (p, "")
  }

  /** Joining a plain file name onto a directory and taking the basename gives the name back. */
  lemma BasenameOfJoin(dir: string, name: string)
    requires name != [] && '/' !in name
    ensures Basename(Join(dir, name)) == name
  {
    var prefix := if dir == [] || dir[|dir| - 1] == '/' then dir else dir + "/";
    var p := prefix + name;
    assert Join(dir, name) == p;
    var k := |prefix| - 1;
    assert k >= 0 ==> p[k] == '/';
    forall j | k < j < |p| ensures p[j] != '/' {
      assert p[j] == name[j - |prefix|];
    }
    LastIndexAt(p, '/', k);
    assert p[k + 1..] == name;
  }

  /** Joining a relative component onto a directory that does not end with `/` inserts one `/`. */
  lemma JoinPlain(dir: string, name: string)
    requires dir != [] && dir[|dir| - 1] != '/'
    requires name == [] || name[0] != '/'
    ensures Join(dir, name) == dir + "/" + name
  {
  }
}
