/**
 * The recursive `walk` of `aider.addAllFromDirectory`: it reads a directory,
 * skips every entry whose root-relative path the rules ignore (so an ignored
 * directory is never entered), collects entries of type File and descends
 * into entries of type Directory. The directory tree is what
 * `readDirectory` reports, given as a value.
 */
module DirectoryWalk {
  import opened Wrappers
  import opened IgnoreFilter

  /** `vscode.FileType` is a bit set; a symbolic link to a file is `File | SymbolicLink`. */
  const FileTypeFile: nat := 1
  const FileTypeDirectory: nat := 2
  const FileTypeSymbolicLink: nat := 64

  /** One `[name, type]` pair of `readDirectory`; for a directory, what reading it yields. */
  datatype Entry = Entry(name: string, fileType: nat, children: seq<Entry>)

  /** The URI of entry `name` inside directory `dir`, on posix paths. */
  function JoinPath(dir: string, name: string): (p: string)
    ensures |p| == |dir| + 1 + |name| && p[..|dir| + 1] == dir + "/"
  {
    dir + "/" + name
  }

  /**
   * The walk's own test: the rules applied to the root-relative path. Every
   * path it tests is an entry inside the selected folder, so its relative path
   * is never empty, and there the test is `isIgnored`'s verdict.
   */
  function Skipped(ig: Filter, ws: Folder, current: string): (r: bool)
    ensures ws.relative(current) != "" ==> (r <==> IsIgnored(Some(ws), ig, current))
    ensures ws.relative(current) == "" ==> (r <==> ig(""))
  {
    ig(ws.relative(current))
  }

  /** What the walk appends for the entries of one directory, in order. */
  function Collect(ig: Filter, ws: Folder, dir: string, entries: seq<Entry>): (r: seq<string>)
    ensures forall p :: p in r ==> |dir| + 1 <= |p| && p[..|dir| + 1] == dir + "/"
    decreases entries
  {
    if entries == [] then []
    else
      var last := entries[|entries| - 1];
      Collect(ig, ws, dir, entries[..|entries| - 1]) + CollectEntry(ig, ws, dir, last)
  }

  /** What the walk appends for one entry of directory `dir`. */
  function CollectEntry(ig: Filter, ws: Folder, dir: string, e: Entry): (r: seq<string>)
    ensures forall p :: p in r ==> |dir| + 1 <= |p| && p[..|dir| + 1] == dir + "/"
    decreases e
  {
    var current := JoinPath(dir, e.name);
    if Skipped(ig, ws, current) then []
    else if e.fileType == FileTypeFile then [current]
    else if e.fileType == FileTypeDirectory then
      var r := Collect(ig, ws, current, e.children);
      assert forall p :: p in r ==> p[..|dir| + 1] == p[..|current| + 1][..|dir| + 1];
      r
    else []
  }

  /**
   * `walk(dir)`: `filesToAdd` is the shared array before the call and
   * `files` the array after it.
   */
  method Walk(ig: Filter, ws: Folder, dir: string, entries: seq<Entry>, filesToAdd: seq<string>)
    returns (files: seq<string>)
    ensures files == filesToAdd + Collect(ig, ws, dir, entries)
    decreases entries
  {
    files := filesToAdd;
    for i := 0 to |entries|
      invariant files == filesToAdd + Collect(ig, ws, dir, entries[..i])
    {
      var entry := entries[i];
      CollectStep(ig, ws, dir, entries, i);
      var currentUri := JoinPath(dir, entry.name);
      var relativePath := ws.relative(currentUri);
      AppendAssoc(filesToAdd, Collect(ig, ws, dir, entries[..i]), CollectEntry(ig, ws, dir, entry));
      if ig(relativePath) {
        continue;
      }
      if entry.fileType == FileTypeFile {
        files := files + [currentUri];
      } else if entry.fileType == FileTypeDirectory {
        files := Walk(ig, ws, currentUri, entry.children, files);
      }
    }
    assert entries[..|entries|] == entries;
  }

  /** Appending in two steps is appending once: the shared `filesToAdd` array grows in place. */
  lemma AppendAssoc(a: seq<string>, b: seq<string>, c: seq<string>)
    ensures a + b + c == a + (b + c)
  {
  }

  /** One more entry of the loop appends what that entry contributes. */
  lemma CollectStep(ig: Filter, ws: Folder, dir: string, entries: seq<Entry>, i: nat)
    requires i < |entries|
    ensures Collect(ig, ws, dir, entries[..i + 1]) == Collect(ig, ws, dir, entries[..i]) + CollectEntry(ig, ws, dir, entries[i])
  {
    assert entries[..i + 1][..i] == entries[..i];
  }

  // ---------------------------------------------------------------------------
  // What is collected, described by routes through the tree
  // ---------------------------------------------------------------------------

  /**
   * `route` leads from entry `e` (inside `dir`) down to a file: every entry
   * on the way, the file included, is not skipped, every entry above the
   * file has type exactly Directory and the file has type exactly File.
   */
  ghost predicate Reaches(ig: Filter, ws: Folder, dir: string, e: Entry, route: seq<nat>)
    decreases route
  {
    var current := JoinPath(dir, e.name);
    && !Skipped(ig, ws, current)
    && if route == [] then e.fileType == FileTypeFile
       else
         && e.fileType == FileTypeDirectory
         && route[0] < |e.children|
         && Reaches(ig, ws, current, e.children[route[0]], route[1..])
  }

  /** The path of the entry that `route` leads to from `e`. */
  function EndPath(dir: string, e: Entry, route: seq<nat>): string
    decreases route
  {
    var current := JoinPath(dir, e.name);
    if route == [] || route[0] >= |e.children| then current
    else EndPath(current, e.children[route[0]], route[1..])
  }

  lemma {:induction false} CollectPrefix(ig: Filter, ws: Folder, dir: string, entries: seq<Entry>, i: nat)
    requires i < |entries|
    ensures forall p :: p in CollectEntry(ig, ws, dir, entries[i]) ==> p in Collect(ig, ws, dir, entries)
    decreases |entries|
  {
    var init := entries[..|entries| - 1];
    if i < |entries| - 1 {
      assert init[i] == entries[i];
      CollectPrefix(ig, ws, dir, init, i);
    }
  }

  /** Every file a route reaches is collected. */
  lemma {:induction false} ReachedIsCollected(ig: Filter, ws: Folder, dir: string, e: Entry, route: seq<nat>)
    requires Reaches(ig, ws, dir, e, route)
    ensures EndPath(dir, e, route) in CollectEntry(ig, ws, dir, e)
    decreases route
  {
    if route != [] {
      var current := JoinPath(dir, e.name);
      ReachedIsCollected(ig, ws, current, e.children[route[0]], route[1..]);
      CollectPrefix(ig, ws, current, e.children, route[0]);
    }
  }

  /** Every collected path is the end of a route from one of the entries. */
  lemma {:induction false} CollectedIsReached(ig: Filter, ws: Folder, dir: string, entries: seq<Entry>, p: string)
    requires p in Collect(ig, ws, dir, entries)
    ensures exists i, route :: 0 <= i < |entries| && Reaches(ig, ws, dir, entries[i], route) && EndPath(dir, entries[i], route) == p
    decreases entries, 1
  {
    var init, last := entries[..|entries| - 1], entries[|entries| - 1];
    if p in Collect(ig, ws, dir, init) {
      CollectedIsReached(ig, ws, dir, init, p);
      var i, route :| 0 <= i < |init| && Reaches(ig, ws, dir, init[i], route) && EndPath(dir, init[i], route) == p;
      assert entries[i] == init[i];
    } else {
      var route := EntryCollectedIsReached(ig, ws, dir, last, p);
      assert entries[|entries| - 1] == last;
    }
  }

  lemma {:induction false} EntryCollectedIsReached(ig: Filter, ws: Folder, dir: string, e: Entry, p: string)
    returns (route: seq<nat>)
    requires p in CollectEntry(ig, ws, dir, e)
    ensures Reaches(ig, ws, dir, e, route) && EndPath(dir, e, route) == p
    decreases e, 0
  {
    var current := JoinPath(dir, e.name);
    if e.fileType == FileTypeFile {
      route := [];
    } else {
      CollectedIsReached(ig, ws, current, e.children, p);
      var i, rest :| 0 <= i < |e.children| && Reaches(ig, ws, current, e.children[i], rest) && EndPath(current, e.children[i], rest) == p;
      route := [i] + rest;
      assert route[1..] == rest;
    }
  }

  /**
   * The walk collects exactly the files reachable through unskipped
   * directories: no file beneath a skipped directory, and no skipped file,
   * is ever collected, and nothing else is missed.
   */
  lemma CollectedIffReached(ig: Filter, ws: Folder, dir: string, entries: seq<Entry>, p: string)
    ensures p in Collect(ig, ws, dir, entries)
        <==> exists i, route :: 0 <= i < |entries| && Reaches(ig, ws, dir, entries[i], route) && EndPath(dir, entries[i], route) == p
  {
    if p in Collect(ig, ws, dir, entries) {
      CollectedIsReached(ig, ws, dir, entries, p);
    }
    if exists i, route :: 0 <= i < |entries| && Reaches(ig, ws, dir, entries[i], route) && EndPath(dir, entries[i], route) == p {
      var i, route :| 0 <= i < |entries| && Reaches(ig, ws, dir, entries[i], route) && EndPath(dir, entries[i], route) == p;
      ReachedIsCollected(ig, ws, dir, entries[i], route);
      CollectPrefix(ig, ws, dir, entries, i);
    }
  }

  /** A route that passes through a skipped entry reaches nothing: skipping prunes the whole subtree. */
  lemma {:induction false} SkippedPrunesSubtree(ig: Filter, ws: Folder, dir: string, e: Entry, route: seq<nat>, k: nat)
    requires k <= |route|
    requires Skipped(ig, ws, EndPath(dir, e, route[..k]))
    ensures !Reaches(ig, ws, dir, e, route)
    decreases k
  {
    if k > 0 && Reaches(ig, ws, dir, e, route) {
      var current := JoinPath(dir, e.name);
      assert route[..k][0] == route[0] && route[..k][1..] == route[1..][..k - 1];
      SkippedPrunesSubtree(ig, ws, current, e.children[route[0]], route[1..], k - 1);
    }
  }

  /** `route` leads to a File through Directory entries, whatever the rules. */
  ghost predicate IsFileRoute(e: Entry, route: seq<nat>)
    decreases route
  {
    if route == [] then e.fileType == FileTypeFile
    else e.fileType == FileTypeDirectory && route[0] < |e.children| && IsFileRoute(e.children[route[0]], route[1..])
  }

  lemma {:induction false} NoRulesReachEveryFile(ws: Folder, dir: string, e: Entry, route: seq<nat>)
    requires IsFileRoute(e, route)
    ensures Reaches(Load(None), ws, dir, e, route)
    decreases route
  {
    if route != [] {
      NoRulesReachEveryFile(ws, JoinPath(dir, e.name), e.children[route[0]], route[1..]);
    }
  }

  /** When the `.gitignore` read fails nothing is pruned: every file under the directory is collected. */
  lemma FailedReadCollectsEverything(ws: Folder, dir: string, entries: seq<Entry>, i: nat, route: seq<nat>)
    requires i < |entries| && IsFileRoute(entries[i], route)
    ensures EndPath(dir, entries[i], route) in Collect(Load(None), ws, dir, entries)
  {
    NoRulesReachEveryFile(ws, dir, entries[i], route);
    CollectedIffReached(Load(None), ws, dir, entries, EndPath(dir, entries[i], route));
  }

  /**
   * The type tests are equalities, so a symbolic link (its type has the
   * SymbolicLink bit set besides File or Directory) is neither collected nor
   * entered, even when it is not ignored.
   */
  lemma SymbolicLinksNotFollowed(ig: Filter, ws: Folder, dir: string, e: Entry)
    requires e.fileType == FileTypeFile + FileTypeSymbolicLink || e.fileType == FileTypeDirectory + FileTypeSymbolicLink
    ensures CollectEntry(ig, ws, dir, e) == []
  {
  }
}
