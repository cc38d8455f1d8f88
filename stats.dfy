/** The progress aggregator SyncStats of stats.go: counters updated in
    place, one in-progress byte count and one activity line per download
    slot, and the line bookkeeping of the redraw. The mutex that guards
    every method in Go is not modelled: each method here is one critical
    section. */
module Stats {
  import opened Settings

  /** The scalar fields of the aggregator. */
  datatype Counters = Counters(
    filesChecked: int, filesDownloaded: int, filesDeleted: int, filesSkipped: int,
    bytesDownloaded: int, totalBytes: int, activeSlots: int, lastPrintedLines: int)

  /** What one redraw shows: the number of old lines it erases, the
      activity lines, the counts, the bytes transferred, the estimate and
      whether a percentage is shown. */
  datatype Frame = Frame(
    erased: int, activityLines: seq<string>,
    filesChecked: int, filesDownloaded: int, filesSkipped: int, filesDeleted: int,
    transferred: int, totalBytes: int, showPercent: bool)

  predicate InSlotRange(slot: int)
  {
    0 <= slot < MaxConcurrent
  }

  function Sum(s: seq<int>): int
  {
    if s == [] then 0 else Sum(s[..|s| - 1]) + s[|s| - 1]
  }

  /** The number of non-empty strings. */
  function CountNonEmpty(s: seq<string>): (n: nat)
    ensures n <= |s|
  {
    if s == [] then 0 else CountNonEmpty(s[..|s| - 1]) + (if s[|s| - 1] != "" then 1 else 0)
  }

  /** The non-empty strings, in order. */
  function NonEmpty(s: seq<string>): seq<string>
  {
    if s == [] then [] else NonEmpty(s[..|s| - 1]) + (if s[|s| - 1] != "" then [s[|s| - 1]] else [])
  }

  /** The lines shown are exactly the non-empty activities, so their
      number is the count the redraw records. */
  lemma {:induction false} NonEmptyCount(s: seq<string>)
    ensures |NonEmpty(s)| == CountNonEmpty(s)
    ensures forall k :: 0 <= k < |NonEmpty(s)| ==> NonEmpty(s)[k] != "" && NonEmpty(s)[k] in s
  {
    if s != [] {
      NonEmptyCount(s[..|s| - 1]);
      assert forall x :: x in s[..|s| - 1] ==> x in s;
    }
  }

  /** Among the first k slots at most k are busy, so the line count a
      redraw records (busy slots + 3) lies between 3 (no activity) and
      k + 3 (every shown slot busy). */
  lemma PrintedLineBounds(s: seq<string>, k: nat)
    requires k <= |s|
    ensures 3 <= CountNonEmpty(s[..k]) + 3 <= k + 3
  {
  }

  class SyncStats {
    var filesChecked: int
    var filesDownloaded: int
    var filesDeleted: int
    var filesSkipped: int
    var bytesDownloaded: int
    const bytesInProgress: array<int>
    var totalBytes: int
    const activities: array<string>
    var activeSlots: int
    var lastPrintedLines: int

    ghost predicate Valid()
      reads this
    {
      bytesInProgress.Length == MaxConcurrent && activities.Length == MaxConcurrent &&
      0 <= activeSlots <= MaxConcurrent
    }

    ghost function Snapshot(): Counters
      reads this
    {
      Counters(filesChecked, filesDownloaded, filesDeleted, filesSkipped,
               bytesDownloaded, totalBytes, activeSlots, lastPrintedLines)
    }

    /** The zero value `&SyncStats{}`. */
    constructor ()
      ensures Valid() && fresh(bytesInProgress) && fresh(activities)
      ensures Snapshot() == Counters(0, 0, 0, 0, 0, 0, 0, 0)
      ensures forall i :: 0 <= i < MaxConcurrent ==> bytesInProgress[i] == 0 && activities[i] == ""
    {
      filesChecked, filesDownloaded, filesDeleted, filesSkipped := 0, 0, 0, 0;
      bytesDownloaded, totalBytes, activeSlots, lastPrintedLines := 0, 0, 0, 0;
      bytesInProgress := new int[MaxConcurrent](_ => 0);
      activities := new string[MaxConcurrent](_ => "");
    }

    method IncrementChecked()
      requires Valid()
      modifies this
      ensures Valid()
      ensures Snapshot() == old(Snapshot()).(filesChecked := old(filesChecked) + 1)
    {
      filesChecked := filesChecked + 1;
    }

    method IncrementDownloaded(bytes: int)
      requires Valid()
      modifies this
      ensures Valid()
      ensures Snapshot() == old(Snapshot()).(filesDownloaded := old(filesDownloaded) + 1,
                                             bytesDownloaded := old(bytesDownloaded) + bytes)
    {
      filesDownloaded := filesDownloaded + 1;
      bytesDownloaded := bytesDownloaded + bytes;
    }

    method IncrementDeleted()
      requires Valid()
      modifies this
      ensures Valid()
      ensures Snapshot() == old(Snapshot()).(filesDeleted := old(filesDeleted) + 1)
    {
      filesDeleted := filesDeleted + 1;
    }

    method IncrementSkipped()
      requires Valid()
      modifies this
      ensures Valid()
      ensures Snapshot() == old(Snapshot()).(filesSkipped := old(filesSkipped) + 1)
    {
      filesSkipped := filesSkipped + 1;
    }

    method SetTotalBytes(bytes: int)
      requires Valid()
      modifies this
      ensures Valid()
      ensures Snapshot() == old(Snapshot()).(totalBytes := bytes)
    {
      totalBytes := bytes;
    }

    method AddTotalBytes(bytes: int)
      requires Valid()
      modifies this
      ensures Valid()
      ensures Snapshot() == old(Snapshot()).(totalBytes := old(totalBytes) + bytes)
    {
      totalBytes := totalBytes + bytes;
    }

    /** Records the bytes written so far in a slot; out-of-range slots are
        ignored. */
    method SetSlotProgress(slot: int, bytes: int)
      requires Valid()
      modifies bytesInProgress
      ensures bytesInProgress[..] == if InSlotRange(slot) then old(bytesInProgress[..])[slot := bytes]
                                     else old(bytesInProgress[..])
    {
      if 0 <= slot < MaxConcurrent {
        bytesInProgress[slot] := bytes;
      }
    }

    method ClearSlotProgress(slot: int)
      requires Valid()
      modifies bytesInProgress
      ensures bytesInProgress[..] == if InSlotRange(slot) then old(bytesInProgress[..])[slot := 0]
                                     else old(bytesInProgress[..])
    {
      if 0 <= slot < MaxConcurrent {
        bytesInProgress[slot] := 0;
      }
    }

    /** getTotalBytesTransferred: completed bytes plus the in-progress
        bytes of every slot (all maxConcurrent of them, not only the
        displayed ones). */
    method TotalBytesTransferred() returns (total: int)
      requires Valid()
      ensures total == bytesDownloaded + Sum(bytesInProgress[..])
    {
      total := bytesDownloaded;
      var i := 0;
      while i < MaxConcurrent
        invariant 0 <= i <= MaxConcurrent
        invariant total == bytesDownloaded + Sum(bytesInProgress[..i])
      {
        assert bytesInProgress[..i + 1][..i] == bytesInProgress[..i];
        total := total + bytesInProgress[i];
        i := i + 1;
      }
      assert bytesInProgress[..MaxConcurrent] == bytesInProgress[..];
    }

    method SetActivity(slot: int, message: string)
      requires Valid()
      modifies activities
      ensures activities[..] == if InSlotRange(slot) then old(activities[..])[slot := message]
                                else old(activities[..])
    {
      if 0 <= slot < MaxConcurrent {
        activities[slot] := message;
      }
    }

    method ClearActivity(slot: int)
      requires Valid()
      modifies activities
      ensures activities[..] == if InSlotRange(slot) then old(activities[..])[slot := ""]
                                else old(activities[..])
    {
      if 0 <= slot < MaxConcurrent {
        activities[slot] := "";
      }
    }

    /** Print, without the terminal output: the frame it draws, and the
        line count it records for the next redraw. */
    method Print() returns (frame: Frame)
      requires Valid()
      modifies this`lastPrintedLines
      ensures Valid()
      ensures Snapshot() == old(Snapshot()).(lastPrintedLines := CountNonEmpty(activities[..activeSlots]) + 3)
      ensures 3 <= lastPrintedLines <= activeSlots + 3
      ensures frame.erased == old(lastPrintedLines)
      ensures frame.activityLines == NonEmpty(activities[..activeSlots])
      ensures frame.filesChecked == filesChecked && frame.filesDownloaded == filesDownloaded
      ensures frame.filesSkipped == filesSkipped && frame.filesDeleted == filesDeleted
      ensures frame.transferred == bytesDownloaded + Sum(bytesInProgress[..])
      ensures frame.totalBytes == totalBytes
      ensures frame.showPercent <==> totalBytes > 0
    {
      var activeCount := 0;
      var i := 0;
      while i < activeSlots
        invariant 0 <= i <= activeSlots
        invariant activeCount == CountNonEmpty(activities[..i])
      {
        assert activities[..i + 1][..i] == activities[..i];
        if activities[i] != "" {
          activeCount := activeCount + 1;
        }
        i := i + 1;
      }
      var linesToPrint := activeCount + 3;
      var erased := lastPrintedLines;
      var lines: seq<string> := [];
      i := 0;
      while i < activeSlots
        invariant 0 <= i <= activeSlots
        invariant lines == NonEmpty(activities[..i])
      {
        assert activities[..i + 1][..i] == activities[..i];
        if activities[i] != "" {
          lines := lines + [activities[i]];
        }
        i := i + 1;
      }
      PrintedLineBounds(activities[..], activeSlots);
      assert activities[..][..activeSlots] == activities[..activeSlots];
      lastPrintedLines := linesToPrint;
      var transferred := TotalBytesTransferred();
      var showPercent := totalBytes > 0;
      frame := Frame(erased, lines, filesChecked, filesDownloaded, filesSkipped, filesDeleted,
                     transferred, totalBytes, showPercent);
    }
  }
}
