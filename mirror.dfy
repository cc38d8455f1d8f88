/** syncDirectory (sync.go) for one device, and the device loop of main
    (main.go): the listing, the local directory, the directory read, each
    removal and everything each file's task meets are given as an
    Environment. */
module Mirror {
  import opened Wrappers
  import opened Settings
  import opened Listing
  import opened Detect
  import opened Stats
  import opened Pool
  import opened Plan
  import opened Cleanup
  import opened Worker

  /** A configured device. */
  datatype Device = Device(remotePath: string, sync: bool, localPath: string)

  /** What the outside world answers while one device is synced. */
  datatype Environment = Environment(
    listing: HttpGet,          // GET of the device's remote directory
    mkdirOk: bool,             // os.MkdirAll of the local directory
    dir: ReadDir,              // os.ReadDir of the local directory
    removeOk: string -> bool,  // os.Remove of a local file
    files: string -> TaskInput // stat, HEAD and GET of one file
  )

  datatype SyncError = ListingFailed(fetchError: FetchError) | MkdirFailed

  /** The final state of a device's sync: the counters, the last frame
      drawn, and the cleanup sweep's result (a failed sweep is only a
      warning). */
  datatype Summary = Summary(counters: Counters, frame: Frame, cleanup: Result<Report, ReadDir>)

  /** The local state the quick estimate sees for each name. */
  function LocalOf(env: Environment): string -> LocalStat
  {
    name => env.files(name).local
  }

  function DeletedCount(cleanup: Result<Report, ReadDir>): nat
  {
    if cleanup.Ok? then |cleanup.value.removed| else 0
  }

  /** The frame Print draws once every task has finished. */
  function FinalFrame(c: Counters, erased: int): Frame
  {
    Frame(erased, [], c.filesChecked, c.filesDownloaded, c.filesSkipped, c.filesDeleted,
          c.bytesDownloaded, c.totalBytes, c.totalBytes > 0)
  }

  /** What syncing one device yields. */
  function SyncOutcome(env: Environment, parseTime: string -> Option<int>): Result<Summary, SyncError>
  {
    match env.listing
    case GetFailed => Err(ListingFailed(Transport))
    case GetResponse(status, body) =>
      if status != 200 then Err(ListingFailed(HttpStatus(status)))
      else if !env.mkdirOk then Err(MkdirFailed)
      else Ok(ListedOutcome(env, Kept(Listing.Listing(body)), parseTime))
  }

  /** What syncing the files kept from a fetched listing yields. */
  function ListedOutcome(env: Environment, files: seq<FileInfo>, parseTime: string -> Option<int>): Summary
  {
    var cleanup := CleanupResult(env.dir, Names(files), env.removeOk);
    var active := ActiveSlots(|files|);
    var start := Counters(0, 0, DeletedCount(cleanup), 0, 0, Estimate(files, LocalOf(env)), active, active + 3);
    var end := Tally(start, Outcomes(files, env.files, parseTime));
    Summary(end.(lastPrintedLines := 3), FinalFrame(end, active + 3), cleanup)
  }

  /** No activity line is left once every slot has been cleared. */
  lemma {:induction false} NoActivityLeft(s: seq<string>)
    requires forall i :: 0 <= i < |s| ==> s[i] == ""
    ensures NonEmpty(s) == [] && CountNonEmpty(s) == 0
  {
    if s != [] {
      NoActivityLeft(s[..|s| - 1]);
    }
  }

  /** No bytes are in flight once every slot has been cleared. */
  lemma {:induction false} NothingInFlight(s: seq<int>)
    requires forall i :: 0 <= i < |s| ==> s[i] == 0
    ensures Sum(s) == 0
  {
    if s != [] {
      NothingInFlight(s[..|s| - 1]);
    }
  }

  /** The slot of every task is one of the activity lines shown. */
  lemma SlotsShown(fileCount: nat, k: nat)
    requires k < fileCount
    ensures k % MaxConcurrent < ActiveSlots(fileCount)
  {
  }

  /** The steps of syncDirectory before any task runs: filter the
      listing, set the byte estimate and the shown slots, sweep obsolete
      local files, and reserve the lines of the first frame. */
  method PrepareDevice(stats: SyncStats, listing: seq<FileInfo>, env: Environment)
      returns (files: seq<FileInfo>, cleanup: Result<Report, ReadDir>)
    requires stats.Valid() && stats.Snapshot() == Counters(0, 0, 0, 0, 0, 0, 0, 0)
    modifies stats
    ensures stats.Valid()
    ensures files == Kept(listing)
    ensures cleanup == CleanupResult(env.dir, Names(files), env.removeOk)
    ensures stats.Snapshot() == Counters(0, 0, DeletedCount(cleanup), 0, 0, Estimate(files, LocalOf(env)),
                                         ActiveSlots(|files|), ActiveSlots(|files|) + 3)
  {
    var remoteFiles, totalSize;
    files, remoteFiles, totalSize := BuildSyncSet(listing, LocalOf(env));
    stats.SetTotalBytes(totalSize);
    stats.activeSlots := ActiveSlots(|files|);
    cleanup := CleanupObsoleteFiles(stats, env.dir, remoteFiles, env.removeOk);
    // a failed sweep is logged as a warning and the sync goes on
    stats.lastPrintedLines := stats.activeSlots + 3;
  }

  /** The final redraw once every task has finished: no activity line
      and no bytes in flight are left. */
  method FinishDevice(stats: SyncStats) returns (counters: Counters, frame: Frame)
    requires stats.Valid()
    requires forall i :: 0 <= i < MaxConcurrent ==> stats.bytesInProgress[i] == 0 && stats.activities[i] == ""
    modifies stats`lastPrintedLines
    ensures counters == old(stats.Snapshot()).(lastPrintedLines := 3)
    ensures frame == FinalFrame(old(stats.Snapshot()), old(stats.lastPrintedLines))
  {
    NoActivityLeft(stats.activities[..stats.activeSlots]);
    NothingInFlight(stats.bytesInProgress[..]);
    frame := stats.Print();
    counters := Counters(stats.filesChecked, stats.filesDownloaded, stats.filesDeleted, stats.filesSkipped,
                         stats.bytesDownloaded, stats.totalBytes, stats.activeSlots, stats.lastPrintedLines);
  }

  /** syncDirectory for one device. Besides its error, it returns the final
      counters and frame, and the slot each file's task ran in. */
  method SyncDirectory(env: Environment, parseTime: string -> Option<int>)
      returns (r: Result<Summary, SyncError>, slots: seq<int>)
    ensures r == SyncOutcome(env, parseTime)
    ensures r.Ok? ==> forall k :: 0 <= k < |slots| ==> 0 <= slots[k] < r.value.counters.activeSlots
  {
    slots := [];
    var listing := GetDirectoryListing(env.listing);
    if listing.Err? {
      return Err(ListingFailed(listing.error)), slots;
    }
    if !env.mkdirOk {
      return Err(MkdirFailed), slots;
    }
    var summary;
    summary, slots := SyncListed(env, listing.value, parseTime);
    r := Ok(summary);
  }

  /** The part of syncDirectory after the listing is fetched and the local
      directory exists: the sync set, the sweep, the tasks and the final
      redraw. */
  method SyncListed(env: Environment, listing: seq<FileInfo>, parseTime: string -> Option<int>)
      returns (summary: Summary, slots: seq<int>)
    ensures summary == ListedOutcome(env, Kept(listing), parseTime)
    ensures forall k :: 0 <= k < |slots| ==> 0 <= slots[k] < summary.counters.activeSlots
  {
    var stats := new SyncStats();
    var files, cleanup := PrepareDevice(stats, listing, env);
    ghost var start := stats.Snapshot();
    var pool := new SlotPool(MaxConcurrent);
    var outcomes;
    outcomes, slots := SyncFiles(stats, pool, files, env.files, parseTime);
    TallyTotals(start, outcomes);
    forall k | 0 <= k < |slots| ensures 0 <= slots[k] < start.activeSlots {
      SlotsShown(|files|, k);
    }
    ghost var end := stats.Snapshot();
    var counters, frame := FinishDevice(stats);
    summary := Summary(counters, frame, cleanup);
    ListedOutcomeOf(env, listing, parseTime, files, cleanup, outcomes, start, end, summary);
  }

  /** The pieces SyncListed computes, put together, are ListedOutcome. */
  lemma ListedOutcomeOf(env: Environment, listing: seq<FileInfo>, parseTime: string -> Option<int>,
                        files: seq<FileInfo>, cleanup: Result<Report, ReadDir>, outcomes: seq<TaskOutcome>,
                        start: Counters, end: Counters, summary: Summary)
    requires files == Kept(listing)
    requires cleanup == CleanupResult(env.dir, Names(files), env.removeOk)
    requires start == Counters(0, 0, DeletedCount(cleanup), 0, 0, Estimate(files, LocalOf(env)),
                               ActiveSlots(|files|), ActiveSlots(|files|) + 3)
    requires outcomes == Outcomes(files, env.files, parseTime)
    requires end == Tally(start, outcomes)
    requires summary == Summary(end.(lastPrintedLines := 3), FinalFrame(end, end.lastPrintedLines), cleanup)
    ensures summary == ListedOutcome(env, Kept(listing), parseTime)
    ensures summary.counters.activeSlots == start.activeSlots
  {
    TallyTotals(start, outcomes);
  }

  /** The devices with sync set, in configuration order. */
  function Synced(devices: seq<Device>): (r: seq<Device>)
    ensures |r| <= |devices|
  {
    if devices == [] then []
    else Synced(devices[..|devices| - 1]) + (if devices[|devices| - 1].sync then [devices[|devices| - 1]] else [])
  }

  /** Exactly the devices with sync set are synced. */
  lemma {:induction false} SyncedExactly(devices: seq<Device>)
    ensures forall d :: d in Synced(devices) <==> d in devices && d.sync
  {
    if devices != [] {
      SyncedExactly(devices[..|devices| - 1]);
      assert devices == devices[..|devices| - 1] + [devices[|devices| - 1]];
    }
  }

  lemma SyncedStep(devices: seq<Device>, i: nat)
    requires i < |devices|
    ensures Synced(devices[..i + 1]) == Synced(devices[..i]) + (if devices[i].sync then [devices[i]] else [])
  {
    assert devices[..i + 1][..i] == devices[..i];
  }

  /** What syncing each of the devices gives, in order. */
  function DeviceResults(devices: seq<Device>, envOf: Device -> Environment, parseTime: string -> Option<int>)
      : (r: seq<Result<Summary, SyncError>>)
    ensures |r| == |devices|
  {
    if devices == [] then []
    else DeviceResults(devices[..|devices| - 1], envOf, parseTime) + [SyncOutcome(envOf(devices[|devices| - 1]), parseTime)]
  }

  lemma DeviceResultsSnoc(devices: seq<Device>, d: Device, envOf: Device -> Environment, parseTime: string -> Option<int>)
    ensures DeviceResults(devices + [d], envOf, parseTime) == DeviceResults(devices, envOf, parseTime) + [SyncOutcome(envOf(d), parseTime)]
  {
    assert (devices + [d])[..|devices|] == devices;
  }

  lemma {:induction false} DeviceResultsAt(devices: seq<Device>, envOf: Device -> Environment, parseTime: string -> Option<int>)
    ensures forall k :: 0 <= k < |devices| ==> DeviceResults(devices, envOf, parseTime)[k] == SyncOutcome(envOf(devices[k]), parseTime)
  {
    if devices != [] {
      DeviceResultsAt(devices[..|devices| - 1], envOf, parseTime);
    }
  }

  /** The first pass of main: the number of devices with sync set. */
  method CountSynced(devices: seq<Device>) returns (total: nat)
    ensures total == |Synced(devices)|
  {
    total := 0;
    var i := 0;
    while i < |devices|
      invariant 0 <= i <= |devices|
      invariant total == |Synced(devices[..i])|
    {
      SyncedStep(devices, i);
      if devices[i].sync {
        total := total + 1;
      }
      i := i + 1;
    }
    assert devices[..|devices|] == devices;
  }

  /** The device loop of main: count the devices to sync, then sync each
      in configuration order under the banner [k/total]; an error is
      reported and the loop goes on. */
  method RunDevices(devices: seq<Device>, envOf: Device -> Environment, parseTime: string -> Option<int>)
      returns (totalDevices: nat, banners: seq<(nat, nat)>, results: seq<Result<Summary, SyncError>>)
    ensures totalDevices == |Synced(devices)|
    ensures |banners| == |results| == totalDevices
    ensures forall k :: 0 <= k < totalDevices ==>
              banners[k] == (k + 1, totalDevices) && results[k] == SyncOutcome(envOf(Synced(devices)[k]), parseTime)
  {
    totalDevices := CountSynced(devices);
    banners, results := [], [];
    var currentDevice := 0;
    var i := 0;
    while i < |devices|
      invariant 0 <= i <= |devices|
      invariant currentDevice == |Synced(devices[..i])| == |banners|
      invariant results == DeviceResults(Synced(devices[..i]), envOf, parseTime)
      invariant forall k :: 0 <= k < currentDevice ==> banners[k] == (k + 1, totalDevices)
    {
      SyncedStep(devices, i);
      if devices[i].sync {
        currentDevice := currentDevice + 1;
        var result, _ := SyncDirectory(envOf(devices[i]), parseTime);
        DeviceResultsSnoc(Synced(devices[..i]), devices[i], envOf, parseTime);
        banners := banners + [(currentDevice, totalDevices)];
        results := results + [result];
      } else {
        assert Synced(devices[..i + 1]) == Synced(devices[..i]);
      }
      i := i + 1;
    }
    assert devices[..i] == devices;
    DeviceResultsAt(Synced(devices), envOf, parseTime);
  }
}
