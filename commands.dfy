/**
 * The commands of `extension.ts` that feed the session manager: the
 * directory bulk-add, the read-only and writable add commands, and the
 * custom-task runner. Dialog answers, file reads and `JSON.parse` results are
 * parameters.
 */
module Commands {
  import opened Wrappers
  import opened IgnoreFilter
  import opened ContextStore
  import opened Session
  import opened DirectoryWalk

  /** The folder chosen in the open dialog, with what `readDirectory` reports beneath it. */
  datatype SelectedDirectory = SelectedDirectory(path: string, entries: seq<Entry>)

  /**
   * `aider.addAllFromDirectory`. `selected` is `None` when the dialog is
   * cancelled; `containing` is `getWorkspaceFolder(directoryUri)`, `None`
   * when the directory is outside every workspace folder; `gitignore` is
   * the outcome of reading that folder's `.gitignore`.
   */
  method AddAllFromDirectory(manager: SessionManager, selected: Option<SelectedDirectory>,
                             containing: Option<Folder>, gitignore: Option<Filter>)
    returns (filesToAdd: seq<string>)
    requires manager.Valid()
    modifies manager
    ensures manager.Valid()
    ensures selected.None? || containing.None? ==>
      && filesToAdd == []
      && manager.contextFiles == old(manager.contextFiles) && manager.isContextDirty == old(manager.isContextDirty)
    ensures selected.Some? && containing.Some? ==>
      filesToAdd == Collect(Load(gitignore), containing.value, selected.value.path, selected.value.entries)
    ensures var kept := Unignored(manager.workspaceFolder, manager.ignorer, filesToAdd);
      && manager.contextFiles == (if manager.terminalActive then UpsertAll(old(manager.contextFiles), kept, false) else old(manager.contextFiles))
      && manager.isContextDirty == (old(manager.isContextDirty)
           || (manager.terminalActive && AnyNeedsUpdate(old(manager.contextFiles), kept, false)))
    ensures manager.terminalActive == old(manager.terminalActive) && manager.sent == old(manager.sent)
    ensures manager.sessionDisposables == old(manager.sessionDisposables)
    ensures manager.ignorer == old(manager.ignorer) && manager.workspaceFolder == old(manager.workspaceFolder)
    ensures manager.synced == old(manager.synced) && (old(manager.InSync()) ==> manager.InSync())
  {
    filesToAdd := [];
    if selected.None? {
      return;
    }
    var directory := selected.value;
    if containing.None? {
      return;
    }
    var workspaceFolder := containing.value;
    var ig := Load(gitignore);
    filesToAdd := Walk(ig, workspaceFolder, directory.path, directory.entries, []);
    manager.AddFiles(filesToAdd);
  }

  /** `aider.addActiveFileAsReadOnly`: the active editor's file, read-only. */
  method AddActiveFileAsReadOnly(manager: SessionManager, activeEditor: Option<Document>)
    requires manager.Valid()
    modifies manager
    ensures manager.Valid()
    ensures var kept := if activeEditor.Some? then Unignored(manager.workspaceFolder, manager.ignorer, [activeEditor.value.fsPath]) else [];
      && manager.contextFiles == (if manager.terminalActive then UpsertAll(old(manager.contextFiles), kept, true) else old(manager.contextFiles))
      && manager.isContextDirty == (old(manager.isContextDirty)
           || (manager.terminalActive && AnyNeedsUpdate(old(manager.contextFiles), kept, true)))
    ensures manager.terminalActive == old(manager.terminalActive) && manager.sent == old(manager.sent)
    ensures manager.sessionDisposables == old(manager.sessionDisposables)
    ensures manager.ignorer == old(manager.ignorer) && manager.workspaceFolder == old(manager.workspaceFolder)
    ensures manager.synced == old(manager.synced) && (old(manager.InSync()) ==> manager.InSync())
  {
    if activeEditor.Some? {
      manager.AddFiles([activeEditor.value.fsPath], readOnly := true);
    }
  }

  /**
   * The file-system paths of the explorer selection, or of the clicked item
   * when there is no selection, with empty paths dropped.
   */
  function ExplorerPaths(uri: string, uris: Option<seq<string>>): (paths: seq<string>)
    ensures forall p :: p in paths ==> p != ""
    ensures uris.None? ==> paths == (if uri == "" then [] else [uri])
    ensures uris.Some? ==> forall p :: p in uris.value && p != "" ==> p in paths
    ensures uris.Some? ==> forall p :: p in paths ==> p in uris.value
  {
    var urisToProcess := match uris case Some(us) => us case None => [uri];
    assert uris.None? ==> urisToProcess[1..] == [] && NonEmptyPaths(urisToProcess[1..]) == [];
    NonEmptyPaths(urisToProcess)
  }

  function NonEmptyPaths(ps: seq<string>): (r: seq<string>)
    ensures forall p :: p in r <==> p in ps && p != ""
  {
    if ps == [] then []
    else (if ps[0] == "" then [] else [ps[0]]) + NonEmptyPaths(ps[1..])
  }

  /**
   * `aider.addFileAsReadOnlyFromExplorer` (`readOnly` true) and
   * `aider.addFileFromExplorer` (`readOnly` false): the mode is passed
   * explicitly, and only a non-empty batch reaches `addFiles`.
   */
  method AddFromExplorer(manager: SessionManager, uri: string, uris: Option<seq<string>>, readOnly: bool)
    requires manager.Valid()
    modifies manager
    ensures manager.Valid()
    ensures var kept := Unignored(manager.workspaceFolder, manager.ignorer, ExplorerPaths(uri, uris));
      && manager.contextFiles == (if manager.terminalActive then UpsertAll(old(manager.contextFiles), kept, readOnly) else old(manager.contextFiles))
      && manager.isContextDirty == (old(manager.isContextDirty)
           || (manager.terminalActive && AnyNeedsUpdate(old(manager.contextFiles), kept, readOnly)))
    ensures manager.terminalActive == old(manager.terminalActive) && manager.sent == old(manager.sent)
    ensures manager.sessionDisposables == old(manager.sessionDisposables)
    ensures manager.ignorer == old(manager.ignorer) && manager.workspaceFolder == old(manager.workspaceFolder)
    ensures manager.synced == old(manager.synced) && (old(manager.InSync()) ==> manager.InSync())
  {
    var filePaths := ExplorerPaths(uri, uris);
    if |filePaths| > 0 {
      manager.AddFiles(filePaths, readOnly := readOnly);
    }
  }

  // ---------------------------------------------------------------------------
  // aider.runCustomTask
  // ---------------------------------------------------------------------------

  /** One element of `.vscode/aider-tasks.json` (`label` is a Dafny keyword). */
  datatype AiderTask = AiderTask(taskLabel: string, description: string, command: string)

  /** A parsed JSON value: an array of tasks, or anything that is not an array. */
  datatype Json = JsonArray(items: seq<AiderTask>) | JsonNotArray

  /** Reading and parsing the task file. */
  datatype TaskFileRead = FileNotFound | ReadOrParseError | Parsed(json: Json)

  datatype TaskOutcome =
    | SessionNotActive
    | NoWorkspaceFolder
    | OfferTemplate
    | ReadFailed
    | MalformedTaskFile
    | NothingPicked
    | SentTask(command: string)

  /** The quick pick can only return one of the tasks it was shown. */
  predicate PickInRange(read: TaskFileRead, pick: Option<nat>)
  {
    pick.Some? && read.Parsed? && read.json.JsonArray? ==> pick.value < |read.json.items|
  }

  /** The decision `aider.runCustomTask` makes, in the order it checks. */
  function TaskOutcomeOf(active: bool, hasFolder: bool, read: TaskFileRead, pick: Option<nat>): (r: TaskOutcome)
    requires PickInRange(read, pick)
    ensures !active ==> r == SessionNotActive
    ensures active && !hasFolder ==> r == NoWorkspaceFolder
    ensures active && hasFolder ==> (r == OfferTemplate <==> read.FileNotFound?)
    ensures active && hasFolder ==> (r == ReadFailed <==> read.ReadOrParseError?)
    ensures r.SentTask? ==> active && hasFolder && read.Parsed? && pick.Some?
  {
    if !active then SessionNotActive
    else if !hasFolder then NoWorkspaceFolder
    else match read
      case FileNotFound => OfferTemplate
      case ReadOrParseError => ReadFailed
      case Parsed(json) =>
        if !json.JsonArray? || |json.items| == 0 then MalformedTaskFile
        else if pick.None? then NothingPicked
        else SentTask(json.items[pick.value].command)
  }

  /** A task file that is not an array, or is an empty one, is an error whenever it is read. */
  lemma MalformedTasksRejected(read: TaskFileRead, pick: Option<nat>)
    requires PickInRange(read, pick)
    requires read.Parsed? && (read.json.JsonNotArray? || read.json.items == [])
    ensures TaskOutcomeOf(true, true, read, pick) == MalformedTaskFile
    ensures forall active, hasFolder :: !TaskOutcomeOf(active, hasFolder, read, pick).SentTask?
  {
  }

  /** A command is sent exactly when everything checks out, and it is the picked task's command verbatim. */
  lemma SentTaskIsPicked(active: bool, hasFolder: bool, read: TaskFileRead, pick: Option<nat>)
    requires PickInRange(read, pick)
    ensures TaskOutcomeOf(active, hasFolder, read, pick).SentTask?
        <==> active && hasFolder && read.Parsed? && read.json.JsonArray? && read.json.items != [] && pick.Some?
    ensures TaskOutcomeOf(active, hasFolder, read, pick).SentTask? ==>
        TaskOutcomeOf(active, hasFolder, read, pick).command == read.json.items[pick.value].command
  {
  }

  /**
   * `aider.runCustomTask`. `hasFolder` says whether a workspace folder is
   * open, `read` is the outcome of reading and parsing the task file, and
   * `pick` the index the quick pick returned (`None` when dismissed).
   */
  method RunCustomTask(manager: SessionManager, hasFolder: bool, read: TaskFileRead, pick: Option<nat>)
    returns (outcome: TaskOutcome)
    requires manager.Valid()
    requires PickInRange(read, pick)
    modifies manager
    ensures manager.Valid()
    ensures outcome == TaskOutcomeOf(old(manager.terminalActive), hasFolder, read, pick)
    ensures manager.sent == old(manager.sent) + (if outcome.SentTask? then [outcome.command] else [])
    ensures manager.terminalActive == old(manager.terminalActive) && manager.contextFiles == old(manager.contextFiles)
    ensures manager.isContextDirty == old(manager.isContextDirty) && manager.sessionDisposables == old(manager.sessionDisposables)
    ensures manager.ignorer == old(manager.ignorer) && manager.workspaceFolder == old(manager.workspaceFolder)
    ensures manager.synced == old(manager.synced) && (old(manager.InSync()) ==> manager.InSync())
  {
    if !manager.IsSessionActive() {
      return SessionNotActive;
    }
    if !hasFolder {
      return NoWorkspaceFolder;
    }
    match read {
      case FileNotFound =>
        outcome := OfferTemplate;
      case ReadOrParseError =>
        outcome := ReadFailed;
      case Parsed(tasks) =>
        if !tasks.JsonArray? || |tasks.items| == 0 {
          return MalformedTaskFile;
        }
        if pick.None? {
          return NothingPicked;
        }
        var selectedTask := tasks.items[pick.value];
        manager.SendCommand(selectedTask.command);
        outcome := SentTask(selectedTask.command);
    }
  }
}
