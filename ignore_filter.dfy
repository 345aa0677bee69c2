/**
 * The call discipline around the gitignore matcher. The matcher itself (the
 * `ignore` package) and Node's `path.relative` are host functions: a `Filter`
 * is the matcher's verdict on a root-relative posix path, and a `Folder`
 * carries the workspace root together with `path.relative(root, .)`.
 */
module IgnoreFilter {
  import opened Wrappers

  /** `ignores(relativePath)` of a loaded rule set. */
  type Filter = string -> bool

  /** `ignore()` with no rules added: ignores nothing. */
  const NoRules: Filter := (p: string) => false

  /** A workspace folder: its root path and `path.relative(root, .)`. */
  datatype Folder = Folder(root: string, relative: string -> string)

  /** What `path.relative` promises for the root itself. */
  predicate RootIsEmpty(f: Folder)
  {
    f.relative(f.root) == ""
  }

  /**
   * The rule set after `ignore()` plus the `.gitignore` read: `None` when the
   * read failed or there is no file, which fails open.
   */
  function Load(gitignore: Option<Filter>): (ig: Filter)
    ensures gitignore.None? ==> forall p :: !ig(p)
    ensures gitignore.Some? ==> forall p :: ig(p) == gitignore.value(p)
  {
    match gitignore
    case Some(rules) => rules
    case None => NoRules
  }

  /** `AiderSessionManager.isIgnored`. */
  function IsIgnored(ws: Option<Folder>, ig: Filter, filePath: string): (r: bool)
    ensures ws.None? ==> !r
    ensures ws.Some? && ws.value.relative(filePath) == "" ==> !r
    ensures ws.Some? && ws.value.relative(filePath) != "" ==> r == ig(ws.value.relative(filePath))
  {
    match ws
    case None => false
    case Some(folder) =>
      var relativePath := folder.relative(filePath);
      if relativePath == "" then false else ig(relativePath)
  }

  /** The workspace root itself is never ignored, whatever the rules say. */
  lemma RootNeverIgnored(f: Folder, ig: Filter)
    requires RootIsEmpty(f)
    ensures !IsIgnored(Some(f), ig, f.root)
  {
  }

  /** With a rule set that failed to load, only the folder's presence matters: nothing is ignored. */
  lemma FailedLoadIgnoresNothing(ws: Option<Folder>, p: string)
    ensures !IsIgnored(ws, Load(None), p)
  {
  }

  /** The paths `IsIgnored` lets through, in input order. */
  function Unignored(ws: Option<Folder>, ig: Filter, filePaths: seq<string>): (r: seq<string>)
    ensures |r| <= |filePaths|
    ensures forall p :: p in r <==> p in filePaths && !IsIgnored(ws, ig, p)
  {
    if filePaths == [] then []
    else
      var rest := Unignored(ws, ig, filePaths[..|filePaths| - 1]);
      var last := filePaths[|filePaths| - 1];
      assert filePaths == filePaths[..|filePaths| - 1] + [last];
      if IsIgnored(ws, ig, last) then rest else rest + [last]
  }
}
