/** Clients that use only the contracts of the session manager. */
module Scenarios {
  import opened Wrappers
  import opened OrderedMaps
  import opened IgnoreFilter
  import opened ContextStore
  import opened SyncProtocol
  import opened Session
  import opened DirectoryWalk
  import opened Commands

  /** Two syncs with nothing in between send the same lines twice and change nothing else. */
  method SyncTwice(m: SessionManager) returns (first: seq<string>, second: seq<string>)
    requires m.Valid()
    modifies m
    ensures m.Valid()
    ensures m.sent == old(m.sent) + first + second
    ensures first == second
    ensures m.terminalActive ==> first == SyncLines(m.contextFiles)
    ensures !m.terminalActive ==> first == []
    ensures m.contextFiles == old(m.contextFiles) && !m.isContextDirty
  {
    var start := m.sent;
    m.SyncContext();
    var middle := m.sent;
    first := middle[|start|..];
    m.SyncContext();
    second := m.sent[|middle|..];
  }

  /** A session with three tracked files ends cleanly, and ending it again is harmless. */
  method TeardownTwice(m: SessionManager)
    requires m.Valid() && m.terminalActive && m.contextFiles.Size() == 3
    modifies m
    ensures m.Valid()
    ensures !m.terminalActive && m.contextFiles == Empty() && !m.isContextDirty && m.sessionDisposables == []
    ensures m.sent == old(m.sent)
  {
    m.EndSession();
    m.EndSession();
  }

  /**
   * A silent add after a sync leaves the flag clear although the assistant
   * lacks the new file: the dirty flag keeps its meaning only because the
   * one silent add runs before the initial sync of `startSession`.
   */
  method SilentAddAfterSync(m: SessionManager, p: string)
    requires m.Valid() && m.terminalActive && !m.contextFiles.Has(p) && !m.IsIgnoredPath(p)
    modifies m
    ensures m.Valid()
    ensures m.terminalActive && !m.isContextDirty
    ensures m.contextFiles.Has(p) && !m.synced.Has(p)
  {
    m.SyncContext();
    ghost var before := m.contextFiles;
    m.AddFiles([p], silent := true);
    UpsertAllTracks(before, Unignored(m.workspaceFolder, m.ignorer, [p]), false);
  }

  /**
   * Two user commands in a row, the directory bulk-add and the read-only add
   * of the active file: the flag stays honest across both, so while it is
   * clear the assistant's context is still exactly the tracked store.
   */
  method CommandsKeepFlagHonest(m: SessionManager, selected: Option<SelectedDirectory>, containing: Option<Folder>,
                                gitignore: Option<Filter>, activeEditor: Option<Document>)
    requires m.Valid() && m.InSync()
    modifies m
    ensures m.Valid() && m.InSync()
    ensures m.terminalActive && !m.isContextDirty ==>
      forall ctx :: Replay(ctx, SyncDirectives(m.synced)) == m.contextFiles.values
  {
    var filesToAdd := AddAllFromDirectory(m, selected, containing, gitignore);
    AddActiveFileAsReadOnly(m, activeEditor);
    if m.terminalActive && !m.isContextDirty {
      forall ctx: map<string, bool>
        ensures Replay(ctx, SyncDirectives(m.synced)) == m.contextFiles.values
      {
        CleanSessionMatchesAssistant(m, ctx);
      }
    }
  }
}
