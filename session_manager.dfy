/**
 * `AiderSessionManager`: one session at a time, the tracked files, the dirty
 * flag and the two editor listeners. The terminal is a flag saying whether a
 * session's terminal exists plus the log of every line sent to a terminal.
 * Editor and configuration state reach the methods as parameters.
 */
module Session {
  import opened Wrappers
  import opened OrderedMaps
  import opened IgnoreFilter
  import opened ContextStore
  import opened SyncProtocol

  /** The two subscriptions a session holds in `_sessionDisposables`. */
  datatype Listener = ActiveEditorListener | CloseDocumentListener

  const SessionListeners: seq<Listener> := [ActiveEditorListener, CloseDocumentListener]

  /** What the listeners and the seeding look at in a `TextDocument`. */
  datatype Document = Document(isUntitled: bool, scheme: string, fsPath: string)

  predicate IsFileDocument(d: Document)
  {
    !d.isUntitled && d.scheme == "file"
  }

  /** The fs paths of the saved, `file:`-scheme documents, in order. */
  function OpenFilePaths(docs: seq<Document>): (r: seq<string>)
    ensures |r| <= |docs|
    ensures forall p :: p in r <==> exists d :: d in docs && IsFileDocument(d) && d.fsPath == p
  {
    if docs == [] then []
    else
      var init, last := docs[..|docs| - 1], docs[|docs| - 1];
      assert docs == init + [last];
      OpenFilePaths(init) + (if IsFileDocument(last) then [last.fsPath] else [])
  }

  /** The store a new session starts from before its initial sync. */
  function SeedStore(ws: Option<Folder>, ig: Filter, autoAddOnOpen: bool, docs: seq<Document>): (s: Store)
    ensures s.Valid()
    ensures forall p :: s.Has(p) <==> autoAddOnOpen && p in OpenFilePaths(docs) && !IsIgnored(ws, ig, p)
    ensures forall p :: s.Has(p) ==> !s.values[p]
  {
    if autoAddOnOpen then
      UpsertAllFromEmpty(Unignored(ws, ig, OpenFilePaths(docs)), false);
      UpsertAll(Empty(), Unignored(ws, ig, OpenFilePaths(docs)), false)
    else Empty()
  }

  /**
   * `addFiles` never inserts an ignored path: whatever the mode and the rest
   * of the batch, such a path is tracked afterwards exactly when it was before.
   */
  lemma AddNeverInsertsIgnored(s: Store, ws: Option<Folder>, ig: Filter, ps: seq<string>, readOnly: bool, p: string)
    requires s.Valid() && IsIgnored(ws, ig, p)
    ensures UpsertAll(s, Unignored(ws, ig, ps), readOnly).Has(p) <==> s.Has(p)
  {
    UpsertAllFrame(s, Unignored(ws, ig, ps), readOnly, p);
  }

  class SessionManager {
    /** `_terminal !== undefined`. */
    var terminalActive: bool
    /** Every line sent to a session terminal, oldest first. */
    var sent: seq<string>
    var contextFiles: Store
    var sessionDisposables: seq<Listener>
    var ignorer: Filter
    var workspaceFolder: Option<Folder>
    var isContextDirty: bool
    /** The store the last sync sent, so what the assistant holds since then. */
    ghost var synced: Store

    /**
     * An active session has a workspace folder and holds exactly its two
     * listeners; without a session there are no listeners, nothing is
     * tracked and nothing is dirty.
     */
    ghost predicate Valid()
      reads this
    {
      && contextFiles.Valid()
      && synced.Valid()
      && (terminalActive ==> workspaceFolder.Some? && sessionDisposables == SessionListeners)
      && (!terminalActive ==> sessionDisposables == [] && contextFiles.keys == [] && !isContextDirty)
    }

    /**
     * The meaning of the dirty flag: while a session is active and the flag
     * is clear, the store is what the last sync sent.
     */
    ghost predicate InSync()
      reads this
    {
      terminalActive && !isContextDirty ==> contextFiles == synced
    }

    constructor ()
      ensures Valid()
      ensures !terminalActive && sent == [] && contextFiles == Empty()
      ensures sessionDisposables == [] && workspaceFolder == None && !isContextDirty
      ensures forall p :: !ignorer(p)
      ensures synced == Empty() && InSync()
    {
      terminalActive := false;
      sent := [];
      contextFiles := Empty();
      sessionDisposables := [];
      ignorer := NoRules;
      workspaceFolder := None;
      isContextDirty := false;
      synced := Empty();
    }

    method SetContextDirty(isDirty: bool)
      modifies this
      ensures isContextDirty == isDirty
      ensures terminalActive == old(terminalActive) && sent == old(sent) && contextFiles == old(contextFiles)
      ensures sessionDisposables == old(sessionDisposables) && ignorer == old(ignorer) && workspaceFolder == old(workspaceFolder)
      ensures synced == old(synced)
    {
      if isContextDirty == isDirty {
        return;
      }
      isContextDirty := isDirty;
    }

    /** `isIgnored`, against the session's folder and rule set. */
    function IsIgnoredPath(filePath: string): (r: bool)
      reads this
      ensures workspaceFolder.None? ==> !r
      ensures workspaceFolder.Some? && workspaceFolder.value.relative(filePath) == "" ==> !r
    {
      IsIgnored(workspaceFolder, ignorer, filePath)
    }

    function IsSessionActive(): (b: bool)
      reads this
      requires Valid()
      ensures b ==> sessionDisposables == SessionListeners
      ensures !b ==> contextFiles.keys == [] && !isContextDirty
    {
      terminalActive
    }

    /** `loadIgnoreRules`, with the `.gitignore` read given as its outcome. */
    method LoadIgnoreRules(gitignore: Option<Filter>)
      modifies this
      ensures workspaceFolder.Some? ==> ignorer == Load(gitignore)
      ensures workspaceFolder.None? ==> ignorer == old(ignorer)
      ensures terminalActive == old(terminalActive) && sent == old(sent) && contextFiles == old(contextFiles)
      ensures sessionDisposables == old(sessionDisposables) && workspaceFolder == old(workspaceFolder)
      ensures isContextDirty == old(isContextDirty) && synced == old(synced)
    {
      if workspaceFolder.None? {
        return;
      }
      ignorer := Load(gitignore);
    }

    /**
     * `startSession`. `firstFolder` is the first workspace folder, `gitignore`
     * the outcome of reading its `.gitignore`, `openDocuments` the editor's
     * text documents; the configuration values are parameters.
     */
    method StartSession(firstFolder: Option<Folder>, gitignore: Option<Filter>, executablePath: string,
                        autoAddOnOpen: bool, openDocuments: seq<Document>)
      requires Valid()
      modifies this
      ensures Valid()
      // already active: only brings the terminal to the front
      ensures old(terminalActive) ==>
        && terminalActive && sent == old(sent) && contextFiles == old(contextFiles)
        && isContextDirty == old(isContextDirty) && sessionDisposables == old(sessionDisposables)
        && workspaceFolder == old(workspaceFolder) && ignorer == old(ignorer) && synced == old(synced)
      // no folder: nothing starts, but the folder is forgotten
      ensures !old(terminalActive) && firstFolder.None? ==>
        && !terminalActive && sent == old(sent) && contextFiles == old(contextFiles)
        && sessionDisposables == [] && workspaceFolder == None && ignorer == old(ignorer)
        && !isContextDirty
      // a new session: launch line, silent seeding, one initial sync
      ensures !old(terminalActive) && firstFolder.Some? ==>
        && terminalActive && workspaceFolder == firstFolder && ignorer == Load(gitignore)
        && sessionDisposables == SessionListeners
        && contextFiles == SeedStore(firstFolder, Load(gitignore), autoAddOnOpen, openDocuments)
        && sent == old(sent) + [executablePath] + SyncLines(contextFiles)
        && !isContextDirty && synced == contextFiles
      ensures old(InSync()) ==> InSync()
      ensures !old(terminalActive) ==> InSync()
    {
      if terminalActive {
        return;
      }
      workspaceFolder := firstFolder;
      if workspaceFolder.None? {
        return;
      }
      LoadIgnoreRules(gitignore);
      terminalActive := true;
      sent := sent + [executablePath];
      RegisterSessionListeners();
      if autoAddOnOpen {
        var openFiles := OpenFilePaths(openDocuments);
        if |openFiles| > 0 {
          AddFiles(openFiles, silent := true);
        }
      }
      assert contextFiles == SeedStore(firstFolder, Load(gitignore), autoAddOnOpen, openDocuments);
      SyncContext();
    }

    method RegisterSessionListeners()
      requires sessionDisposables == []
      modifies this
      ensures sessionDisposables == SessionListeners
      ensures terminalActive == old(terminalActive) && sent == old(sent) && contextFiles == old(contextFiles)
      ensures ignorer == old(ignorer) && workspaceFolder == old(workspaceFolder) && isContextDirty == old(isContextDirty)
      ensures synced == old(synced)
    {
      sessionDisposables := sessionDisposables + [ActiveEditorListener, CloseDocumentListener];
    }

    /**
     * The `onDidChangeActiveTextEditor` callback. It runs only while its
     * subscription is held, and it inserts the file without consulting the
     * ignore rules.
     */
    method OnDidChangeActiveTextEditor(editor: Option<Document>, autoAddOnOpen: bool)
      requires Valid()
      modifies this
      ensures Valid()
      ensures var fires := ActiveEditorListener in old(sessionDisposables) && editor.Some?
                           && IsFileDocument(editor.value) && autoAddOnOpen && !old(contextFiles).Has(editor.value.fsPath);
        && contextFiles == (if fires then old(contextFiles).Set(editor.value.fsPath, false) else old(contextFiles))
        && isContextDirty == (old(isContextDirty) || fires)
      ensures terminalActive == old(terminalActive) && sent == old(sent) && sessionDisposables == old(sessionDisposables)
      ensures ignorer == old(ignorer) && workspaceFolder == old(workspaceFolder) && synced == old(synced)
      ensures old(InSync()) ==> InSync()
    {
      if ActiveEditorListener !in sessionDisposables {
        return;
      }
      if editor.None? {
        return;
      }
      var document := editor.value;
      if document.isUntitled || document.scheme != "file" {
        return;
      }
      if autoAddOnOpen && !contextFiles.Has(document.fsPath) {
        contextFiles := contextFiles.Set(document.fsPath, false);
        SetContextDirty(true);
      }
    }

    /** The `onDidCloseTextDocument` callback; runs only while its subscription is held. */
    method OnDidCloseTextDocument(document: Document, autoDropOnClose: bool)
      requires Valid()
      modifies this
      ensures Valid()
      ensures var fires := CloseDocumentListener in old(sessionDisposables) && IsFileDocument(document)
                           && old(contextFiles).Has(document.fsPath) && autoDropOnClose;
        && contextFiles == (if fires then old(contextFiles).Delete(document.fsPath) else old(contextFiles))
        && isContextDirty == (old(isContextDirty) || fires)
      ensures terminalActive == old(terminalActive) && sent == old(sent) && sessionDisposables == old(sessionDisposables)
      ensures ignorer == old(ignorer) && workspaceFolder == old(workspaceFolder) && synced == old(synced)
      ensures old(InSync()) ==> InSync()
    {
      if CloseDocumentListener !in sessionDisposables {
        return;
      }
      if document.isUntitled || document.scheme != "file" || !contextFiles.Has(document.fsPath) {
        return;
      }
      if autoDropOnClose {
        contextFiles := contextFiles.Delete(document.fsPath);
        SetContextDirty(true);
      }
    }

    /** `syncContext`: replace the assistant's context by the store. */
    method SyncContext()
      requires Valid()
      modifies this
      ensures Valid()
      ensures sent == old(sent) + (if terminalActive then SyncLines(contextFiles) else [])
      ensures !isContextDirty
      ensures terminalActive == old(terminalActive) && contextFiles == old(contextFiles)
      ensures sessionDisposables == old(sessionDisposables) && ignorer == old(ignorer) && workspaceFolder == old(workspaceFolder)
      ensures synced == (if terminalActive then contextFiles else old(synced))
      ensures InSync()
    {
      if !terminalActive {
        return;
      }
      var readOnlyFiles := ReadOnlyFiles(contextFiles);
      var normalFiles := NormalFiles(contextFiles);
      var lines := [DropAllLine];
      if |normalFiles| > 0 {
        lines := lines + ["/add " + JoinQuoted(normalFiles)];
      }
      if |readOnlyFiles| > 0 {
        lines := lines + ["/read " + JoinQuoted(readOnlyFiles)];
      }
      SyncLinesSpelled(contextFiles);
      assert lines == SyncLines(contextFiles);
      sent := sent + lines;
      synced := contextFiles;
      SetContextDirty(false);
    }

    /**
     * `endSession`, run when the session's terminal closes. It leaves the
     * manager without a session whatever state it was in, so a second call
     * is harmless.
     */
    method EndSession()
      requires Valid()
      modifies this
      ensures Valid()
      ensures !terminalActive && contextFiles == Empty() && !isContextDirty && sessionDisposables == []
      ensures sent == old(sent) && ignorer == old(ignorer) && workspaceFolder == old(workspaceFolder)
      ensures synced == old(synced) && InSync()
    {
      terminalActive := false;
      contextFiles := Empty();
      SetContextDirty(false);
      sessionDisposables := [];
    }

    /** `addFiles`; an option that is not given counts as false, for `readOnly` and for `silent`. */
    method AddFiles(filePaths: seq<string>, readOnly: bool := false, silent: bool := false)
      requires Valid()
      modifies this
      ensures Valid()
      ensures var kept := Unignored(workspaceFolder, ignorer, filePaths);
        && contextFiles == (if terminalActive then UpsertAll(old(contextFiles), kept, readOnly) else old(contextFiles))
        && isContextDirty == (old(isContextDirty)
             || (terminalActive && !silent && AnyNeedsUpdate(old(contextFiles), kept, readOnly)))
      ensures terminalActive == old(terminalActive) && sent == old(sent) && sessionDisposables == old(sessionDisposables)
      ensures ignorer == old(ignorer) && workspaceFolder == old(workspaceFolder) && synced == old(synced)
      ensures !silent && old(InSync()) ==> InSync()
    {
      if !terminalActive {
        return;
      }
      var unignoredFilePaths := Unignored(workspaceFolder, ignorer, filePaths);
      if |filePaths| == 0 || |unignoredFilePaths| == 0 {
        return;
      }
      var files, changed := UpsertBatch(contextFiles, unignoredFilePaths, readOnly);
      contextFiles := files;
      if changed {
        if !silent {
          SetContextDirty(true);
        }
      }
    }

    /** `dropFile`. */
    method DropFile(filePath: string)
      requires Valid()
      modifies this
      ensures Valid()
      ensures var drops := old(terminalActive) && old(contextFiles).Has(filePath);
        && contextFiles == (if drops then old(contextFiles).Delete(filePath) else old(contextFiles))
        && isContextDirty == (old(isContextDirty) || drops)
      ensures terminalActive == old(terminalActive) && sent == old(sent) && sessionDisposables == old(sessionDisposables)
      ensures ignorer == old(ignorer) && workspaceFolder == old(workspaceFolder) && synced == old(synced)
      ensures old(InSync()) ==> InSync()
    {
      if !terminalActive || !contextFiles.Has(filePath) {
        return;
      }
      var existed := contextFiles.Has(filePath);
      contextFiles := contextFiles.Delete(filePath);
      if existed {
        SetContextDirty(true);
      }
    }

    /** `listFiles`: asks the assistant to print its context. */
    method ListFiles()
      requires Valid()
      modifies this
      ensures Valid()
      ensures sent == old(sent) + (if terminalActive then ["/ls"] else [])
      ensures terminalActive == old(terminalActive) && contextFiles == old(contextFiles) && isContextDirty == old(isContextDirty)
      ensures sessionDisposables == old(sessionDisposables) && ignorer == old(ignorer) && workspaceFolder == old(workspaceFolder)
      ensures synced == old(synced) && (old(InSync()) ==> InSync())
    {
      if !terminalActive {
        return;
      }
      sent := sent + ["/ls"];
    }

    /** `clearContext`: empties the store; dirties only if something was tracked. */
    method ClearContext()
      requires Valid()
      modifies this
      ensures Valid()
      ensures var clears := old(terminalActive) && old(contextFiles).Size() > 0;
        && contextFiles == (if clears then Empty() else old(contextFiles))
        && isContextDirty == (old(isContextDirty) || clears)
      ensures !old(terminalActive) || old(contextFiles).Size() == 0 ==> contextFiles.values == map[]
      ensures terminalActive == old(terminalActive) && sent == old(sent) && sessionDisposables == old(sessionDisposables)
      ensures ignorer == old(ignorer) && workspaceFolder == old(workspaceFolder) && synced == old(synced)
      ensures old(InSync()) ==> InSync()
    {
      SizeZeroIffEmpty(contextFiles);
      if !terminalActive {
        return;
      }
      if contextFiles.Size() > 0 {
        contextFiles := Empty();
        SetContextDirty(true);
      }
    }

    /** `sendCommand`: forwards one line verbatim while a session is active. */
    method SendCommand(command: string)
      requires Valid()
      modifies this
      ensures Valid()
      ensures sent == old(sent) + (if terminalActive then [command] else [])
      ensures terminalActive == old(terminalActive) && contextFiles == old(contextFiles) && isContextDirty == old(isContextDirty)
      ensures sessionDisposables == old(sessionDisposables) && ignorer == old(ignorer) && workspaceFolder == old(workspaceFolder)
      ensures synced == old(synced) && (old(InSync()) ==> InSync())
    {
      if !terminalActive {
        return;
      }
      sent := sent + [command];
    }
  }

  /**
   * A clean, active session: replaying the last sync against whatever the
   * assistant held before gives exactly the tracked files and their modes.
   */
  lemma CleanSessionMatchesAssistant(m: SessionManager, ctx: map<string, bool>)
    requires m.Valid() && m.InSync() && m.terminalActive && !m.isContextDirty
    ensures Replay(ctx, SyncDirectives(m.synced)) == m.contextFiles.values
  {
    SyncReproducesStore(m.synced, ctx);
  }
}
