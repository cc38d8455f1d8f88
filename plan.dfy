/** The sync-set construction of syncDirectory (sync.go): which listed
    entries are synced, the set of remote names the cleanup sweep keeps,
    the byte estimate and the number of display slots. */
module Plan {
  import opened Text
  import opened Settings
  import opened Listing
  import opened Detect

  /** Entries that are never synced: the sentinel file and sub-directories. */
  predicate Excluded(name: string)
  {
    name == Sentinel || HasSuffix(name, "/")
  }

  /** The listed entries that are synced, in listing order. */
  function Kept(listing: seq<FileInfo>): seq<FileInfo>
  {
    if listing == [] then []
    else
      var last := listing[|listing| - 1];
      Kept(listing[..|listing| - 1]) + (if Excluded(last.Name) then [] else [last])
  }

  /** The quick-check byte estimate: the sizes of the files the quick
      check says need a transfer. */
  function Estimate(files: seq<FileInfo>, stat: string -> LocalStat): int
  {
    if files == [] then 0
    else
      var last := files[|files| - 1];
      Estimate(files[..|files| - 1], stat) + (if NeedsSync(stat(last.Name), last.Size) then last.Size else 0)
  }

  /** The sum of all sizes. */
  function TotalSize(files: seq<FileInfo>): int
  {
    if files == [] then 0 else TotalSize(files[..|files| - 1]) + files[|files| - 1].Size
  }

  /** Exactly the entries that are not excluded are kept, each once and in
      order. */
  lemma {:induction false} KeptExactly(listing: seq<FileInfo>)
    ensures forall f :: f in Kept(listing) <==> f in listing && !Excluded(f.Name)
    ensures |Kept(listing)| <= |listing|
  {
    if listing != [] {
      var init := listing[..|listing| - 1];
      KeptExactly(init);
      assert listing == init + [listing[|listing| - 1]];
    }
  }

  /** The positions in the listing of the entries that are kept. */
  function KeptPositions(listing: seq<FileInfo>): seq<nat>
  {
    if listing == [] then []
    else
      var n := |listing| - 1;
      KeptPositions(listing[..n]) + (if Excluded(listing[n].Name) then [] else [n])
  }

  /** Kept is an order-preserving selection from the listing: its k-th
      entry is the listing's entry at the k-th kept position, the
      positions strictly increase, and every position whose entry is not
      excluded is among them. */
  lemma {:induction false} KeptInOrder(listing: seq<FileInfo>)
    ensures |KeptPositions(listing)| == |Kept(listing)|
    ensures forall k :: 0 <= k < |Kept(listing)| ==>
      KeptPositions(listing)[k] < |listing| && Kept(listing)[k] == listing[KeptPositions(listing)[k]]
    ensures forall k, m :: 0 <= k < m < |KeptPositions(listing)| ==> KeptPositions(listing)[k] < KeptPositions(listing)[m]
    ensures forall i :: 0 <= i < |listing| && !Excluded(listing[i].Name) ==> i in KeptPositions(listing)
  {
    if listing != [] {
      var n := |listing| - 1;
      var init := listing[..n];
      KeptInOrder(init);
      assert forall i :: 0 <= i < n ==> init[i] == listing[i];
    }
  }

  /** With no negative sizes the estimate lies between 0 and the total of
      the synced files. */
  lemma {:induction false} EstimateBounds(files: seq<FileInfo>, stat: string -> LocalStat)
    requires forall i :: 0 <= i < |files| ==> files[i].Size >= 0
    ensures 0 <= Estimate(files, stat) <= TotalSize(files)
  {
    if files != [] {
      EstimateBounds(files[..|files| - 1], stat);
    }
  }

  /** With no local copies at all the estimate is the total size. */
  lemma {:induction false} EstimateWhenNothingLocal(files: seq<FileInfo>, stat: string -> LocalStat)
    requires forall i :: 0 <= i < |files| ==> stat(files[i].Name) == Missing
    ensures Estimate(files, stat) == TotalSize(files)
  {
    if files != [] {
      EstimateWhenNothingLocal(files[..|files| - 1], stat);
    }
  }

  /** The set of names of the files. */
  function Names(files: seq<FileInfo>): set<string>
  {
    set f | f in files :: f.Name
  }

  lemma NamesSnoc(files: seq<FileInfo>, f: FileInfo)
    ensures Names(files + [f]) == Names(files) + {f.Name}
  {
    assert forall g :: g in files + [f] <==> g in files || g == f;
  }

  lemma KeptStep(listing: seq<FileInfo>, i: nat)
    requires i < |listing|
    ensures Kept(listing[..i + 1]) == Kept(listing[..i]) + (if Excluded(listing[i].Name) then [] else [listing[i]])
  {
    assert listing[..i + 1][..i] == listing[..i];
  }

  lemma EstimateSnoc(files: seq<FileInfo>, f: FileInfo, stat: string -> LocalStat)
    ensures Estimate(files + [f], stat) == Estimate(files, stat) + (if NeedsSync(stat(f.Name), f.Size) then f.Size else 0)
  {
    assert (files + [f])[..|files|] == files;
  }

  /** The remote names are exactly the names of the listed entries that
      are not excluded. */
  lemma RemoteNames(listing: seq<FileInfo>)
    ensures forall name :: name in Names(Kept(listing)) <==> exists f :: f in listing && f.Name == name && !Excluded(name)
  {
    KeptExactly(listing);
  }

  /** The filter loop of syncDirectory: the files to sync, the set of
      remote names and the byte estimate. */
  method BuildSyncSet(listing: seq<FileInfo>, stat: string -> LocalStat)
    returns (filesToSync: seq<FileInfo>, remoteFiles: set<string>, totalSize: int)
    ensures filesToSync == Kept(listing)
    ensures remoteFiles == Names(filesToSync)
    ensures totalSize == Estimate(filesToSync, stat)
  {
    filesToSync, remoteFiles, totalSize := [], {}, 0;
    var i := 0;
    while i < |listing|
      invariant 0 <= i <= |listing|
      invariant filesToSync == Kept(listing[..i])
      invariant remoteFiles == Names(filesToSync)
      invariant totalSize == Estimate(filesToSync, stat)
    {
      var fileInfo := listing[i];
      KeptStep(listing, i);
      if !Excluded(fileInfo.Name) {
        assert Kept(listing[..i + 1]) == filesToSync + [fileInfo];
        EstimateSnoc(filesToSync, fileInfo, stat);
        NamesSnoc(filesToSync, fileInfo);
        filesToSync := filesToSync + [fileInfo];
        remoteFiles := remoteFiles + {fileInfo.Name};
        if NeedsSync(stat(fileInfo.Name), fileInfo.Size) {
          totalSize := totalSize + fileInfo.Size;
        }
      } else {
        assert Kept(listing[..i + 1]) == filesToSync;
      }
      i := i + 1;
    }
    assert listing[..|listing|] == listing;
  }

  /** activeSlots: min(maxConcurrent, number of files), at least 1. */
  function ActiveSlots(fileCount: nat): (r: nat)
    ensures 1 <= r <= MaxConcurrent
    ensures fileCount >= 1 ==> r <= fileCount
    ensures fileCount == 0 ==> r == 1
    ensures fileCount >= 1 ==> r == (if fileCount < MaxConcurrent then fileCount else MaxConcurrent)
  {
    var a := if MaxConcurrent < fileCount then MaxConcurrent else fileCount;
    if a == 0 then 1 else a
  }
}
