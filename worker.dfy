/** The download side of syncDirectory (sync.go): ProgressWriter, the
    body copy of downloadFile with the progress callback of each task, the
    per-file task that owns one slot, and the submission loop. The HTTP
    requests and the file system are replaced by the values they return. */
module Worker {
  import opened Wrappers
  import opened Text
  import opened Settings
  import opened Listing
  import opened Detect
  import opened Stats
  import opened Pool

  /** What the file download meets: os.Create fails, the GET fails, or a
      response arrives with a status and a Content-Length (-1 when
      unknown); a 200 body arrives as chunks of the given sizes, possibly
      ending in a copy error. */
  datatype Transfer =
    | CreateFailed
    | GetFailed
    | Response(status: int, contentLength: int, chunks: seq<nat>, copyFailed: bool)

  datatype DownloadError = CreateError | GetError | BadStatus(code: int) | CopyError

  /** Everything a task learns from outside for one file. */
  datatype TaskInput = TaskInput(local: LocalStat, head: Head, transfer: Transfer)

  /** How a task ends. */
  datatype TaskOutcome =
    | CheckFailed(checkError: CheckError)
    | Skipped
    | Downloaded(bytes: int)
    | DownloadFailed(downloadError: DownloadError)

  /** downloadFile's result: the number of bytes copied, or the error. */
  function DownloadResult(t: Transfer): Result<int, DownloadError>
  {
    match t
    case CreateFailed => Err(CreateError)
    case GetFailed => Err(GetError)
    case Response(status, _, chunks, copyFailed) =>
      if status != 200 then Err(BadStatus(status))
      else if copyFailed then Err(CopyError)
      else Ok(Sum(chunks))
  }

  /** The chunks the progress callback sees. */
  function Chunks(t: Transfer): seq<nat>
  {
    if t.Response? && t.status == 200 then t.chunks else []
  }

  /** A file task's outcome: the authoritative check, then the download. */
  function TaskResult(input: TaskInput, parseTime: string -> Option<int>): TaskOutcome
  {
    match ShouldDownload(input.local, input.head, parseTime)
    case Err(e) => CheckFailed(e)
    case Ok(false) => Skipped
    case Ok(true) =>
      match DownloadResult(input.transfer)
      case Ok(b) => Downloaded(b)
      case Err(e) => DownloadFailed(e)
  }

  /** The counters after a task: one more file checked, and one more
      download (with its bytes) or one more skip. */
  function AfterTask(c: Counters, outcome: TaskOutcome): Counters
  {
    var checked := c.(filesChecked := c.filesChecked + 1);
    match outcome
    case Skipped => checked.(filesSkipped := c.filesSkipped + 1)
    case Downloaded(b) => checked.(filesDownloaded := c.filesDownloaded + 1, bytesDownloaded := c.bytesDownloaded + b)
    case _ => checked
  }

  /** A file task attempted a body download. */
  predicate Attempted(outcome: TaskOutcome)
  {
    outcome.Downloaded? || outcome.DownloadFailed?
  }

  /** A task never lowers a counter and adds to filesChecked exactly one. */
  lemma AfterTaskMonotone(c: Counters, outcome: TaskOutcome)
    requires outcome.Downloaded? ==> outcome.bytes >= 0
    ensures var d := AfterTask(c, outcome);
      && d.filesChecked == c.filesChecked + 1
      && d.filesDownloaded >= c.filesDownloaded && d.filesSkipped >= c.filesSkipped
      && d.filesDeleted == c.filesDeleted && d.bytesDownloaded >= c.bytesDownloaded
      && d.totalBytes == c.totalBytes && d.activeSlots == c.activeSlots
      && (d.filesDownloaded - c.filesDownloaded) + (d.filesSkipped - c.filesSkipped) <= 1
  {
  }

  function CheckingMessage(name: string): string
  {
    "Checking: " + name
  }

  function ProgressMessage(name: string, written: int, total: int): string
  {
    if total > 0 then "Downloading: " + name + " " + IntToDecimal(written) + "/" + IntToDecimal(total)
    else "Downloading: " + name + " " + IntToDecimal(written)
  }

  function DoneMessage(name: string, bytes: int): string
  {
    "Done: " + name + " (" + IntToDecimal(bytes) + ")"
  }

  /** ProgressWriter: counts the bytes the underlying writer accepted and
      reports the running total with the expected total. */
  class ProgressWriter {
    const total: int
    var written: int
    /** onProgress != nil */
    const notify: bool

    constructor (total: int, notify: bool)
      ensures this.total == total && this.notify == notify && written == 0
    {
      this.total := total;
      this.notify := notify;
      written := 0;
    }

    /** Write of a chunk of which the underlying writer accepted `n`
        bytes: `written` grows by exactly n, and the callback (when set)
        receives the new running total and the unchanged total. */
    method Write(n: nat) returns (report: Option<(int, int)>)
      modifies this`written
      ensures written == old(written) + n
      ensures report == if notify then Some((written, total)) else None
    {
      written := written + n;
      report := if notify then Some((written, total)) else None;
    }
  }

  /** downloadFile with the progress callback of sync.go: every chunk sets
      the slot's in-progress bytes to the running total and its activity
      line to a progress message. */
  method DownloadFile(stats: SyncStats, slot: int, name: string, t: Transfer) returns (r: Result<int, DownloadError>)
    requires stats.Valid() && InSlotRange(slot)
    modifies stats.bytesInProgress, stats.activities
    ensures r == DownloadResult(t)
    ensures stats.bytesInProgress[..] == if Chunks(t) == [] then old(stats.bytesInProgress[..])
                                         else old(stats.bytesInProgress[..])[slot := Sum(Chunks(t))]
    ensures forall i :: 0 <= i < MaxConcurrent && i != slot ==> stats.activities[i] == old(stats.activities[i])
  {
    match t
    case CreateFailed => return Err(CreateError);
    case GetFailed => return Err(GetError);
    case Response(status, contentLength, chunks, copyFailed) =>
      if status != 200 {
        return Err(BadStatus(status));
      }
      var pw := new ProgressWriter(contentLength, true);
      var i := 0;
      while i < |chunks|
        invariant 0 <= i <= |chunks|
        invariant pw.written == Sum(chunks[..i])
        invariant stats.bytesInProgress[..] == if i == 0 then old(stats.bytesInProgress[..])
                                               else old(stats.bytesInProgress[..])[slot := Sum(chunks[..i])]
        invariant forall k :: 0 <= k < MaxConcurrent && k != slot ==> stats.activities[k] == old(stats.activities[k])
      {
        assert chunks[..i + 1][..i] == chunks[..i];
        var report := pw.Write(chunks[i]);
        var (written, total) := report.value;
        stats.SetSlotProgress(slot, written);
        stats.SetActivity(slot, ProgressMessage(name, written, total));
        i := i + 1;
      }
      assert chunks[..|chunks|] == chunks;
      if copyFailed {
        return Err(CopyError);
      }
      return Ok(pw.written);
  }

  /** The download branch of a task: fetch the file, clear the slot's
      in-progress bytes, and on success count the download. */
  method Fetch(stats: SyncStats, slot: int, file: FileInfo, t: Transfer) returns (outcome: TaskOutcome)
    requires stats.Valid() && InSlotRange(slot)
    modifies stats, stats.bytesInProgress, stats.activities
    ensures stats.Valid()
    ensures outcome == match DownloadResult(t) case Ok(b) => Downloaded(b) case Err(e) => DownloadFailed(e)
    ensures stats.Snapshot() == if outcome.Downloaded? then old(stats.Snapshot()).(filesDownloaded := old(stats.filesDownloaded) + 1,
                                                                                bytesDownloaded := old(stats.bytesDownloaded) + outcome.bytes)
                                else old(stats.Snapshot())
    ensures stats.bytesInProgress[..] == old(stats.bytesInProgress[..])[slot := 0]
    ensures forall i :: 0 <= i < MaxConcurrent && i != slot ==> stats.activities[i] == old(stats.activities[i])
  {
    var result := DownloadFile(stats, slot, file.Name, t);
    stats.ClearSlotProgress(slot);
    if result.Err? {
      stats.ClearActivity(slot);
      outcome := DownloadFailed(result.error);
    } else {
      stats.IncrementDownloaded(result.value);
      stats.SetActivity(slot, DoneMessage(file.Name, result.value));
      outcome := Downloaded(result.value);
    }
  }

  /** The body of a task, up to its deferred function: count the check,
      show it, decide with the authoritative check, then skip or fetch. */
  method Work(stats: SyncStats, slot: int, file: FileInfo,
              input: TaskInput, parseTime: string -> Option<int>) returns (outcome: TaskOutcome)
    requires stats.Valid() && InSlotRange(slot)
    modifies stats, stats.bytesInProgress, stats.activities
    ensures stats.Valid()
    ensures outcome == TaskResult(input, parseTime)
    ensures stats.Snapshot() == AfterTask(old(stats.Snapshot()), outcome)
    ensures stats.bytesInProgress[..] == if Attempted(outcome) then old(stats.bytesInProgress[..])[slot := 0]
                                         else old(stats.bytesInProgress[..])
    ensures forall i :: 0 <= i < MaxConcurrent && i != slot ==> stats.activities[i] == old(stats.activities[i])
  {
    stats.IncrementChecked();
    stats.SetActivity(slot, CheckingMessage(file.Name));
    var check := ShouldDownload(input.local, input.head, parseTime);
    if check.Err? {
      stats.ClearActivity(slot);
      outcome := CheckFailed(check.error);
    } else if check.value {
      outcome := Fetch(stats, slot, file, input.transfer);
    } else {
      stats.IncrementSkipped();
      stats.ClearActivity(slot);
      outcome := Skipped;
    }
  }

  /** The goroutine launched for one file in one slot. Its deferred function
      clears the slot's activity and returns the slot to the pool on every
      exit path. */
  method RunTask(stats: SyncStats, pool: SlotPool, file: FileInfo, slot: int,
                 input: TaskInput, parseTime: string -> Option<int>) returns (outcome: TaskOutcome)
    requires stats.Valid() && pool.Valid()
    requires slot in pool.held && InSlotRange(slot)
    modifies stats, stats.bytesInProgress, stats.activities, pool
    ensures stats.Valid() && pool.Valid()
    ensures outcome == TaskResult(input, parseTime)
    ensures stats.Snapshot() == AfterTask(old(stats.Snapshot()), outcome)
    ensures stats.activities[..] == old(stats.activities[..])[slot := ""]
    ensures stats.bytesInProgress[..] == if Attempted(outcome) then old(stats.bytesInProgress[..])[slot := 0]
                                         else old(stats.bytesInProgress[..])
    ensures pool.free == old(pool.free) + [slot] && pool.held == old(pool.held) - {slot}
    ensures pool.taken == old(pool.taken)
  {
    outcome := Work(stats, slot, file, input, parseTime);
    // deferred: release the semaphore, clear the activity, return the slot
    stats.ClearActivity(slot);
    pool.Release(slot);
  }

  /** The outcome of every file's task, in submission order. */
  function Outcomes(files: seq<FileInfo>, env: string -> TaskInput, parseTime: string -> Option<int>): (r: seq<TaskOutcome>)
    ensures |r| == |files|
  {
    seq(|files|, k requires 0 <= k < |files| => TaskResult(env(files[k].Name), parseTime))
  }

  /** The counters after the given tasks, applied in order. */
  function Tally(c: Counters, outcomes: seq<TaskOutcome>): Counters
  {
    if outcomes == [] then c
    else AfterTask(Tally(c, outcomes[..|outcomes| - 1]), outcomes[|outcomes| - 1])
  }

  /** The number of outcomes that satisfy p. */
  function CountWhere(outcomes: seq<TaskOutcome>, p: TaskOutcome -> bool): (n: nat)
    ensures n <= |outcomes|
  {
    if outcomes == [] then 0
    else CountWhere(outcomes[..|outcomes| - 1], p) + (if p(outcomes[|outcomes| - 1]) then 1 else 0)
  }

  /** The bytes of the successful downloads among the outcomes. */
  function DownloadedBytes(outcomes: seq<TaskOutcome>): int
  {
    if outcomes == [] then 0
    else DownloadedBytes(outcomes[..|outcomes| - 1]) +
         (var o := outcomes[|outcomes| - 1]; if o.Downloaded? then o.bytes else 0)
  }

  predicate IsDownload(o: TaskOutcome)
  {
    o.Downloaded?
  }

  predicate IsSkip(o: TaskOutcome)
  {
    o.Skipped?
  }

  predicate Failed(o: TaskOutcome)
  {
    o.CheckFailed? || o.DownloadFailed?
  }

  /** What a run of tasks adds up to: every task is checked once; the
      download and skip counters and the downloaded bytes grow by exactly
      the downloads and skips among the outcomes; nothing else changes. */
  lemma {:induction false} TallyTotals(c: Counters, outcomes: seq<TaskOutcome>)
    ensures var d := Tally(c, outcomes);
      && d.filesChecked == c.filesChecked + |outcomes|
      && d.filesDownloaded == c.filesDownloaded + CountWhere(outcomes, IsDownload)
      && d.filesSkipped == c.filesSkipped + CountWhere(outcomes, IsSkip)
      && d.bytesDownloaded == c.bytesDownloaded + DownloadedBytes(outcomes)
      && d.filesDeleted == c.filesDeleted && d.totalBytes == c.totalBytes
      && d.activeSlots == c.activeSlots && d.lastPrintedLines == c.lastPrintedLines
  {
    if outcomes != [] {
      TallyTotals(c, outcomes[..|outcomes| - 1]);
    }
  }

  /** Every checked file ends in exactly one of: downloaded, skipped,
      failed (and then logged). */
  lemma {:induction false} EveryFileAccountedFor(outcomes: seq<TaskOutcome>)
    ensures CountWhere(outcomes, IsDownload) + CountWhere(outcomes, IsSkip)
            + CountWhere(outcomes, Failed) == |outcomes|
  {
    if outcomes != [] {
      EveryFileAccountedFor(outcomes[..|outcomes| - 1]);
    }
  }

  /** The pool's channel after k of its n slots went round once more. */
  function Rotated(n: nat, k: nat): seq<int>
    requires k <= n
  {
    Range(k, n) + Range(0, k)
  }

  /** The slot after k in a pool of n. */
  function NextSlot(n: nat, k: nat): nat
  {
    if k + 1 >= n then 0 else k + 1
  }

  /** Taking the front slot of a rotated pool and putting it back rotates
      it by one more. */
  lemma RotatedStep(n: nat, k: nat)
    requires k < n
    ensures Rotated(n, k)[0] == k
    ensures Rotated(n, k)[1..] + [k] == Rotated(n, NextSlot(n, k))
  {
    var front := Range(k, n);
    assert front[0] == k;
    assert front[1..] == Range(k + 1, n) by {
      assert |front[1..]| == |Range(k + 1, n)|;
      forall j | 0 <= j < n - k - 1
        ensures front[1..][j] == Range(k + 1, n)[j]
      {
      }
    }
    assert Range(0, k) + [k] == Range(0, k + 1) by {
      assert |Range(0, k) + [k]| == |Range(0, k + 1)|;
      forall j | 0 <= j <= k
        ensures (Range(0, k) + [k])[j] == Range(0, k + 1)[j]
      {
      }
    }
    assert Rotated(n, k)[1..] == front[1..] + Range(0, k);
  }

  /** One iteration of the submission loop: take the front slot, run the
      file's task in it, and get the slot back at the end of the channel. */
  method Submit(stats: SyncStats, pool: SlotPool, file: FileInfo, ghost r: nat,
                input: TaskInput, parseTime: string -> Option<int>) returns (outcome: TaskOutcome, slot: int)
    requires stats.Valid() && pool.Valid()
    requires r < MaxConcurrent && pool.size == MaxConcurrent
    requires pool.held == {} && pool.free == Rotated(MaxConcurrent, r)
    requires forall i :: 0 <= i < MaxConcurrent ==> stats.bytesInProgress[i] == 0
    modifies stats, stats.bytesInProgress, stats.activities, pool
    ensures stats.Valid() && pool.Valid() && pool.size == MaxConcurrent
    ensures slot == r
    ensures pool.held == {} && pool.free == Rotated(MaxConcurrent, NextSlot(MaxConcurrent, r))
    ensures outcome == TaskResult(input, parseTime)
    ensures stats.Snapshot() == AfterTask(old(stats.Snapshot()), outcome)
    ensures forall i :: 0 <= i < MaxConcurrent ==> stats.bytesInProgress[i] == 0
    ensures stats.activities[..] == old(stats.activities[..])[r := ""]
  {
    RotatedStep(MaxConcurrent, r);
    // sem <- struct{}{}; slot := <-slotChan
    var taken := pool.Acquire();
    slot := taken.value;
    outcome := RunTask(stats, pool, file, slot, input, parseTime);
  }

  lemma OutcomesSnoc(files: seq<FileInfo>, i: nat, env: string -> TaskInput, parseTime: string -> Option<int>)
    requires i < |files|
    ensures Outcomes(files[..i + 1], env, parseTime)
            == Outcomes(files[..i], env, parseTime) + [TaskResult(env(files[i].Name), parseTime)]
  {
  }

  /** The loop of syncDirectory that gives each file a slot and runs its
      task. Each task finishes before the next is submitted in this model,
      so the FIFO pool hands task k the slot k mod maxConcurrent. */
  method SyncFiles(stats: SyncStats, pool: SlotPool, files: seq<FileInfo>,
                   env: string -> TaskInput, parseTime: string -> Option<int>)
      returns (outcomes: seq<TaskOutcome>, slots: seq<int>)
    requires stats.Valid() && pool.Valid()
    requires pool.size == MaxConcurrent && pool.free == Range(0, MaxConcurrent) && pool.held == {}
    requires forall i :: 0 <= i < MaxConcurrent ==> stats.bytesInProgress[i] == 0
    modifies stats, stats.bytesInProgress, stats.activities, pool
    ensures stats.Valid() && pool.Valid()
    ensures outcomes == Outcomes(files, env, parseTime)
    ensures stats.Snapshot() == Tally(old(stats.Snapshot()), outcomes)
    ensures |slots| == |files| && forall k :: 0 <= k < |files| ==> slots[k] == k % MaxConcurrent
    ensures forall i :: 0 <= i < MaxConcurrent ==> stats.bytesInProgress[i] == 0
    ensures forall i :: 0 <= i < MaxConcurrent ==>
              stats.activities[i] == if i < |files| then "" else old(stats.activities[i])
    ensures pool.held == {}
  {
    outcomes := [];
    slots := [];
    assert Rotated(MaxConcurrent, 0) == Range(0, MaxConcurrent);
    var i := 0;
    ghost var r := 0;
    while i < |files|
      invariant 0 <= i <= |files|
      invariant stats.Valid() && pool.Valid() && pool.size == MaxConcurrent
      invariant r == i % MaxConcurrent
      invariant pool.held == {} && pool.free == Rotated(MaxConcurrent, r)
      invariant outcomes == Outcomes(files[..i], env, parseTime)
      invariant stats.Snapshot() == Tally(old(stats.Snapshot()), outcomes)
      invariant |slots| == i && forall k :: 0 <= k < i ==> slots[k] == k % MaxConcurrent
      invariant forall j :: 0 <= j < MaxConcurrent ==> stats.bytesInProgress[j] == 0
      invariant forall j :: 0 <= j < MaxConcurrent ==>
                  stats.activities[j] == if j < i then "" else old(stats.activities[j])
    {
      var outcome, s := Submit(stats, pool, files[i], r, env(files[i].Name), parseTime);
      OutcomesSnoc(files, i, env, parseTime);
      assert (outcomes + [outcome])[..|outcomes|] == outcomes;
      outcomes := outcomes + [outcome];
      slots := slots + [s];
      i := i + 1;
      r := NextSlot(MaxConcurrent, r);
    }
    assert files[..i] == files;
  }
}
