/** File paths as `java.io.File` treats a normalised absolute path: the name
    is the text after the last '/', the parent the text before it. */
module Paths {
  import opened Text

  /** `File(parent, name).absolutePath` for an absolute `parent`: one '/'
      between the directory and the name, none doubled at the root. */
  function ChildPath(parent: string, name: string): string {
    TrimEnd(parent, '/') + "/" + name
  }

  /** `getFilenameFromPath` and `File.name`: the text after the last '/'. */
  function FilenameFromPath(path: string): (name: string)
    ensures '/' !in name
    ensures |name| <= |path| && path[|path| - |name|..] == name
    ensures '/' !in path ==> name == path
    ensures |name| < |path| ==> path[|path| - |name| - 1] == '/'
  {
    path[LastIndexOf(path, '/') + 1..]
  }

  /** `File.parent`: the text before the last '/', the root "/" for an entry
      directly under it, and `None` (`null`) for the root or a bare name. */
  function ParentOf(path: string): (r: Option<string>)
    ensures r.Some? <==> '/' in path && path != "/"
    ensures r.Some? && r.value != "/" ==> r.value + "/" + FilenameFromPath(path) == path
  {
    var i := LastIndexOf(path, '/');
    if i > 0 then Some(path[..i])
    else if i == 0 && |path| > 1 then Some("/")
    else None
  }

  /** The name of a child path is the name it was built from. */
  lemma FilenameOfChildPath(parent: string, name: string)
    requires '/' !in name
    ensures FilenameFromPath(ChildPath(parent, name)) == name
  {
    var p := ChildPath(parent, name);
    var d := TrimEnd(parent, '/');
    assert p[|d|] == '/' && p[|d| + 1..] == name;
    LastSlashOfChildPath(parent, name);
  }

  lemma LastSlashOfChildPath(parent: string, name: string)
    requires '/' !in name
    ensures LastIndexOf(ChildPath(parent, name), '/') == |TrimEnd(parent, '/')|
  {
    var p := ChildPath(parent, name);
    var d := TrimEnd(parent, '/');
    assert p[|d|] == '/';
    assert p[|d| + 1..] == name;
  }

  /** The parent of a child path is the directory it was built from, without
      its trailing '/', or the root. */
  lemma ParentOfChildPath(parent: string, name: string)
    requires '/' !in name && name != ""
    ensures ParentOf(ChildPath(parent, name)) == Some(if TrimEnd(parent, '/') == "" then "/" else TrimEnd(parent, '/'))
  {
    var p := ChildPath(parent, name);
    var d := TrimEnd(parent, '/');
    LastSlashOfChildPath(parent, name);
    assert p[..|d|] == d;
  }
}
