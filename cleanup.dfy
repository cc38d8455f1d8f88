/** cleanupObsoleteFiles (sync.go): delete every regular local file that
    the remote listing no longer has, except the sentinel file. The
    directory read and each os.Remove are replaced by their results. */
module Cleanup {
  import opened Wrappers
  import opened Settings
  import opened Stats

  /** One entry of os.ReadDir. */
  datatype DirEntry = DirEntry(name: string, isDir: bool)

  /** The result of os.ReadDir on the device's local directory. */
  datatype ReadDir = NotExist | ReadFailed | Entries(entries: seq<DirEntry>)

  /** What the cleanup did: the files it removed, and the files whose
      removal failed (each logged), both in directory order. */
  datatype Report = Report(removed: seq<string>, failed: seq<string>)

  /** cleanupObsoleteFiles' result for a directory read and removal
      results. */
  function CleanupResult(dir: ReadDir, remote: set<string>, removeOk: string -> bool): Result<Report, ReadDir>
  {
    match dir
    case NotExist => Ok(Report([], []))
    case ReadFailed => Err(ReadFailed)
    case Entries(entries) =>
      var obsolete := Obsolete(entries, remote);
      Ok(Report(Outcome(obsolete, removeOk, true), Outcome(obsolete, removeOk, false)))
  }

  /** The entry is a regular file the mirror should no longer hold. */
  predicate IsObsolete(e: DirEntry, remote: set<string>)
  {
    !e.isDir && e.name != Sentinel && e.name !in remote
  }

  /** The names of the obsolete entries, in directory order. */
  function Obsolete(entries: seq<DirEntry>, remote: set<string>): seq<string>
  {
    if entries == [] then []
    else
      var rest := Obsolete(entries[..|entries| - 1], remote);
      var e := entries[|entries| - 1];
      if IsObsolete(e, remote) then rest + [e.name] else rest
  }

  /** The names in `names` whose removal does (keep) or does not succeed. */
  function Outcome(names: seq<string>, removeOk: string -> bool, keep: bool): seq<string>
  {
    if names == [] then []
    else
      var rest := Outcome(names[..|names| - 1], removeOk, keep);
      var n := names[|names| - 1];
      if removeOk(n) == keep then rest + [n] else rest
  }

  /** Exactly the obsolete files are candidates for deletion: no
      directory, no sentinel and no file the listing still names is ever
      removed, and every other file is. */
  lemma {:induction false} ObsoleteExactly(entries: seq<DirEntry>, remote: set<string>)
    ensures forall name :: name in Obsolete(entries, remote) <==>
              exists e :: e in entries && IsObsolete(e, remote) && e.name == name
  {
    if entries != [] {
      var init := entries[..|entries| - 1];
      ObsoleteExactly(init, remote);
      assert entries == init + [entries[|entries| - 1]];
    }
  }

  /** Every obsolete file is either removed or reported as failed, and
      never both counted. */
  lemma {:induction false} OutcomePartition(names: seq<string>, removeOk: string -> bool)
    ensures |Outcome(names, removeOk, true)| + |Outcome(names, removeOk, false)| == |names|
    ensures multiset(Outcome(names, removeOk, true)) + multiset(Outcome(names, removeOk, false)) == multiset(names)
  {
    if names != [] {
      var init := names[..|names| - 1];
      OutcomePartition(init, removeOk);
      assert names == init + [names[|names| - 1]];
    }
  }

  /** cleanupObsoleteFiles: a missing directory is nothing to clean, any
      other read error is returned, and otherwise every obsolete file is
      removed (counting one deletion each) or logged as a failure. */
  method CleanupObsoleteFiles(stats: SyncStats, dir: ReadDir, remote: set<string>, removeOk: string -> bool)
      returns (r: Result<Report, ReadDir>)
    requires stats.Valid()
    modifies stats
    ensures stats.Valid()
    ensures dir.NotExist? ==> r == Ok(Report([], []))
    ensures dir.ReadFailed? ==> r == Err(ReadFailed)
    ensures dir.Entries? ==> r == Ok(Report(Outcome(Obsolete(dir.entries, remote), removeOk, true),
                                           Outcome(Obsolete(dir.entries, remote), removeOk, false)))
    ensures stats.Snapshot() == old(stats.Snapshot()).(filesDeleted := old(stats.filesDeleted) +
                                                       if r.Ok? then |r.value.removed| else 0)
  {
    if dir.NotExist? {
      return Ok(Report([], []));
    }
    if dir.ReadFailed? {
      return Err(ReadFailed);
    }
    var entries := dir.entries;
    var removed: seq<string> := [];
    var failed: seq<string> := [];
    var deletedCount := 0;
    var i := 0;
    while i < |entries|
      invariant 0 <= i <= |entries|
      invariant stats.Valid()
      invariant removed == Outcome(Obsolete(entries[..i], remote), removeOk, true)
      invariant failed == Outcome(Obsolete(entries[..i], remote), removeOk, false)
      invariant deletedCount == |removed|
      invariant stats.Snapshot() == old(stats.Snapshot()).(filesDeleted := old(stats.filesDeleted) + deletedCount)
    {
      var entry := entries[i];
      assert entries[..i + 1][..i] == entries[..i];
      if !entry.isDir && entry.name != Sentinel && entry.name !in remote {
        if removeOk(entry.name) {
          stats.IncrementDeleted();
          deletedCount := deletedCount + 1;
          removed := removed + [entry.name];
        } else {
          failed := failed + [entry.name];
        }
      }
      i := i + 1;
    }
    assert entries[..i] == entries;
    return Ok(Report(removed, failed));
  }
}
