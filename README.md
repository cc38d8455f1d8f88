# Mirror sync, modelled in Dafny

This project models the core of a small mirroring tool. For each configured
device, the tool fetches the HTML index page of a remote directory and parses
it into file entries with best-effort sizes. It then filters out the sentinel
file `systeminfo.txt` and sub-directories, and deletes the local files that
the remote side no longer lists. Finally it checks every remaining file with a
HEAD request and downloads the files that are missing, of another size or
older than the remote copy. A fixed pool of `maxConcurrent` (2) download
slots drives a progress display. That display aggregates counters,
per-slot in-flight bytes and per-slot activity lines.

Modules:

- `Wrappers`: `Option` and `Result`.
- `Settings`: `MaxConcurrent` and the sentinel name.
- `Text`: the Go string functions the parser relies on, on byte strings:
  - `strings.Index`, `Contains`, `Split`, `Fields` and `TrimSpace`;
  - decimal numerals.
- `Listing`: `getDirectoryListing`, `extractSizeFromHTML`, `parseSizeString`,
  and percent-decoding as `url.QueryUnescape` does it.
- `Detect`: `needsSync` and `shouldDownload`, given the stat and HEAD results.
- `Plan`: the filter loop of `syncDirectory`, the remote-name set, the byte
  estimate and `activeSlots`.
- `Cleanup`: `cleanupObsoleteFiles`.
- `Stats`: the `SyncStats` class, with its fixed per-slot arrays.
- `Pool`: the slot channel of `syncDirectory`, as a FIFO pool.
- `Worker`: `ProgressWriter`, `downloadFile` with its progress callback, the
  per-file task with its deferred slot release, and the submission loop.
- `Mirror`: `syncDirectory` for one device, and the device loop of `main`.
- `Format`: `formatDuration`, `formatBytes` and `formatBytesIfKnown`.

The outside world is passed in as values:

- the GET of the index page (`HttpGet`);
- the `os.Stat` result (`LocalStat`);
- the HEAD answer (`Head`);
- the body transfer (`Transfer`, as chunk sizes);
- the `os.ReadDir` result (`ReadDir`);
- the success of each `os.Remove`, as a function of the name;
- `http.ParseTime`, as a function from text to an optional instant.

Strings are Go byte strings: each `char` stands for one byte.

## Model

| member | source | states |
|---|---|---|
| Listing.Unescape | sync.go:322-327 | A decoded name is never longer than the href, and an href with no `%` and no `+` decodes to itself. |
| Listing.UnescapeEscape | sync.go:322-327 | Percent-decoding inverts percent-encoding on every byte string (round trip). |
| Listing.EntryName | sync.go:322-327 | When the href decodes, the entry is named by its decoding; when the decoding fails (a malformed escape such as `100%.zip`), the raw href is the name. An href with no `%` and no `+` is used unchanged. |
| Listing.HrefOf | sync.go:295-306 | A link is read exactly when the line has an `href="` and a quote after its first occurrence, so a line with only `href=` or with no closing quote yields none. The link is then the text at the first `href="` up to the next quote, and holds no quote. |
| Listing.HrefOfTag | sync.go:295-306 | On a line `…href="h"…` whose earlier text cannot hold `href=`, exactly `h` is read: the first `href="` up to the next quote. |
| Listing.ExtractSize | sync.go:349-363 | The result is "" or has no surrounding white space. It is "" when the line has no `<td class="size">`, and also when no `</td>` follows the first one. |
| Listing.ExtractSizeOfCell | sync.go:349-363 | A line `…<td class="size">text</td>…` yields the trimmed text between the markers, whatever markup (such as the link cell) precedes the size cell, as long as it holds no other size cell. |
| Listing.ParseSize | sync.go:365-374 | The size is 0 for "", for "-" and for text that is not exactly two fields. |
| Listing.Multiplier | sync.go:380-393 | The multiplier is always 1 or a power 1024^1 … 1024^4. |
| Listing.MultiplierOfUnit | sync.go:382-393 | The k-th unit of B, KiB, MiB, GiB, TiB multiplies by 1024^k. |
| Listing.MultiplierUnknown | sync.go:380-393 | Any other unit leaves the multiplier at 1. |
| Listing.ParseSizeOfNumber | sync.go:371-395 | Two fields with a whole-number coefficient give the coefficient times the unit's multiplier. |
| Listing.ParseSizeWhole | sync.go:365-395 | `"N U"` with a known unit U is N·1024^k bytes. |
| Listing.ParseSizeUnknownUnit | sync.go:379-395 | `"N X"` with an unknown unit X is N bytes, not 0. |
| Listing.ScanWhole | sync.go:376-377 | A whole-number coefficient is read as its decimal value with scale 0. |
| Listing.ScanFraction | sync.go:376-377 | A coefficient "d…d.f…f" is read as the decimal digits of both parts scaled by 10^(number of fraction digits). |
| Listing.ParseSizeFraction | sync.go:365-395 | "d…d.f…f U" with a known unit U is the decimal value times 1024^k, truncated toward zero ("10.3 KiB" gives 10547 bytes). |
| Listing.DigitRun | sync.go:377 | The digit run read from the front of a field is all digits and stops at a non-digit or at the end. |
| Listing.FirstMarked | sync.go:331-337 | A window hit is one of lines i, i+1, i+2, is inside the page and has `class="size"`. |
| Listing.WindowSizeFirst | sync.go:329-337 | The size comes from the first line of the window with `class="size"`. |
| Listing.WindowSizeNone | sync.go:329-337 | With no marked line in the window, the size is 0. |
| Listing.EntryAt | sync.go:295-342 | A line gives an entry iff it has a link that is not skipped (parent, `http…`, `#`, `/`, `?` prefixes, or any `?`), and the entry is named by the link's decoding. |
| Listing.ListingFromLines | sync.go:289-346 | Each entry comes from a line with a kept link, carrying that line's name and size. The entries follow line order, and no kept link is missed. |
| Listing.SizeNear | sync.go:329-337 | The window loop computes the window size. |
| Listing.EntryOfLine | sync.go:292-342 | One line's iteration computes exactly that line's entry. |
| Listing.GetDirectoryListing | sync.go:271-347 | A transport failure or a non-200 status is an error. Otherwise the result is the parsed listing of the body. |
| Detect.NeedsSync | sync.go:398-413 | The quick check says "needs sync" when the file is missing or stat fails; for a present file, exactly when the listed size is > 0 and differs from the local size. Its partner is `Detect.SkipAgreesWithQuickCheck`. |
| Detect.ShouldDownload | sync.go:415-466 | The error cases, in order: a stat failure other than "not exist"; then a failed HEAD; then a non-200 HEAD, in both branches. Otherwise the answer is true exactly when the file is missing, differs in size from Content-Length, or has a parseable Last-Modified strictly later than its mtime. |
| Detect.SkipAgreesWithQuickCheck | sync.go:398-466 | A file the authoritative check skips, listed at its HEAD length, is also up to date for the quick check. |
| Detect.MissingIsAlwaysFetched | sync.go:398-431 | A missing file counts in the estimate, and is downloaded unless the HEAD fails. |
| Detect.EstimateCanUndercount | sync.go:407-453 | For every present local file and every HEAD length that differs from its size, a listing size of 0 leaves the file out of the estimate, yet the authoritative check downloads it. |
| Detect.UpToDateIsSkipped | sync.go:447-465 | Equal sizes and a remote time not after the local one mean the file is skipped. |
| Plan.KeptExactly | sync.go:85-89 | Exactly the entries other than `systeminfo.txt` and names ending in `/` are kept. |
| Plan.KeptInOrder | sync.go:85-89 | The kept entries are an order-preserving selection from the listing: the k-th kept entry sits at the k-th of strictly increasing positions, and every position with a non-excluded entry is among them. |
| Plan.RemoteNames | sync.go:85-90 | The remote-name set is exactly the names of the listed, non-excluded entries. |
| Plan.EstimateBounds | sync.go:92-98 | With sizes ≥ 0, the estimate lies between 0 and the total size of the kept files. |
| Plan.EstimateWhenNothingLocal | sync.go:92-98 | With no local copies, the estimate is the total size. |
| Plan.BuildSyncSet | sync.go:80-99 | The filter loop returns the kept files, their name set, and the sum of the sizes the quick check flags. |
| Plan.ActiveSlots | sync.go:104-108 | `activeSlots` is 1 when there are no files, and min(N, count) otherwise; it always lies between 1 and maxConcurrent. |
| Cleanup.ObsoleteExactly | sync.go:240-253 | The deletion candidates are exactly the non-directory entries, other than `systeminfo.txt`, whose names are not remote. |
| Cleanup.OutcomePartition | sync.go:253-261 | Every candidate is either removed or logged as failed, never both (a multiset partition). |
| Cleanup.CleanupObsoleteFiles | sync.go:227-269 | A missing directory gives an empty report; any other read error is returned. Otherwise each candidate is removed or logged in directory order, and `filesDeleted` rises by exactly the number removed. |
| Stats.NonEmptyCount | stats.go:106-130 | The activity lines drawn are the non-empty activities, and their number is the count `Print` records. |
| Stats.SyncStats.constructor | stats.go:9-22 | The zero value: all counters 0, both arrays of length maxConcurrent, slots empty. |
| Stats.SyncStats.IncrementChecked | stats.go:24-28 | filesChecked grows by 1, and nothing else changes. |
| Stats.SyncStats.IncrementDownloaded | stats.go:30-35 | filesDownloaded grows by 1 and bytesDownloaded by `bytes`, and nothing else changes. |
| Stats.SyncStats.IncrementDeleted | stats.go:37-41 | filesDeleted grows by 1, and nothing else changes. |
| Stats.SyncStats.IncrementSkipped | stats.go:43-47 | filesSkipped grows by 1, and nothing else changes. |
| Stats.SyncStats.SetTotalBytes | stats.go:49-53 | totalBytes is overwritten, and nothing else changes. |
| Stats.SyncStats.AddTotalBytes | stats.go:55-59 | totalBytes grows by `bytes`, and nothing else changes. |
| Stats.SyncStats.SetSlotProgress | stats.go:61-67 | Only `bytesInProgress[slot]` changes, and only for 0 ≤ slot < N; otherwise the call does nothing. |
| Stats.SyncStats.ClearSlotProgress | stats.go:69-75 | Only `bytesInProgress[slot]` is reset to 0, and only for a slot in range. |
| Stats.SyncStats.TotalBytesTransferred | stats.go:77-84 | The result is bytesDownloaded plus the in-progress bytes of all N slots. |
| Stats.SyncStats.SetActivity | stats.go:86-92 | Only `activities[slot]` changes, and only for a slot in range. |
| Stats.SyncStats.ClearActivity | stats.go:94-100 | Only `activities[slot]` is cleared, and only for a slot in range. |
| Stats.SyncStats.Print | stats.go:102-148 | The frame erases the previous line count and shows the non-empty activities of the shown slots, the counters and the transferred bytes. A percentage appears iff totalBytes > 0. Only lastPrintedLines changes, to the active count + 3. |
| Pool.SlotPool.constructor | sync.go:116-122 | The pool starts with slots 0 … N-1 free, in order, and none held. |
| Pool.SlotPool.Acquire | sync.go:151-152 | The front slot is taken and becomes held. Held and free stay disjoint and cover 0 … N-1. The k-th slot taken is k while k < N. |
| Pool.SlotPool.Release | sync.go:156-160 | The slot goes back to the end of the channel and is no longer held. |
| Pool.SlotPool.HeldBound | sync.go:116-160 | At most N slots are held, and a held slot is never free. |
| Pool.TakeInOrder | sync.go:119-122 | With no more tasks than slots, task k gets slot k. |
| Worker.ProgressWriter.constructor | sync.go:490-494 | A writer starts with nothing written and the response's Content-Length as its total. |
| Worker.ProgressWriter.Write | sync.go:30-37 | `written` grows by exactly n. The callback, when set, receives the new cumulative count and the unchanged total. |
| Worker.DownloadFile | sync.go:468-511 | A create failure, a GET failure, a non-200 status or a copy error is an error; otherwise the result is the bytes copied. The slot's in-progress count ends at the running total, and other slots' activity lines are untouched. |
| Worker.Fetch | sync.go:199-207 | The in-progress bytes are cleared. A success counts one download with its bytes; a failure changes no counter. |
| Worker.Work | sync.go:162-211 | Every task counts one check. A check error changes nothing else, a skip counts one skip, and a download is fetched as above. |
| Worker.RunTask | sync.go:154-212 | On every exit path the slot's activity is cleared and the slot is returned to the pool. |
| Worker.AfterTaskMonotone | sync.go:162-211 | A task adds exactly one check, at most one download or skip, and lowers no counter. |
| Worker.Submit | sync.go:149-212 | One iteration takes the front slot, runs the file's task in it and rotates the pool by one. |
| Worker.SyncFiles | sync.go:149-215 | Every file is checked in order and the counters are the tally of the outcomes. Task k runs in slot k mod N, and every slot is back and idle at the end. |
| Worker.TallyTotals | sync.go:149-215 | Over a run of tasks, filesChecked grows by the number of files, downloads and skips by their counts, bytes by the downloaded bytes; nothing else changes. |
| Worker.EveryFileAccountedFor | sync.go:162-211 | Every checked file is downloaded, skipped or failed, exactly one of them. |
| Worker.RotatedStep | sync.go:152-159 | Taking the front slot and returning it rotates the FIFO pool by one. |
| Mirror.SlotsShown | sync.go:104-152 | Every task's slot is one of the activity lines shown. |
| Mirror.PrepareDevice | sync.go:80-134 | Before any task, the counters hold the estimate, activeSlots, the deletions of the sweep and activeSlots + 3 reserved lines. |
| Mirror.FinishDevice | sync.go:215-219 | The final redraw shows no activity and no bytes in flight. |
| Mirror.SyncDirectory | sync.go:39-225 | The listing errors and the mkdir error stop the device's sync. Otherwise the final counters and frame follow from the outcomes of all the files. Each task ran in a slot below activeSlots. |
| Mirror.SyncListed | sync.go:80-222 | Once the listing is fetched and the directory exists, the final counters, the final frame and the sweep's result are those of the kept files (`Mirror.ListedOutcome`): the estimate, activeSlots and deletions first, then the tally of every file's outcome. Each task ran in a slot below activeSlots. |
| Mirror.SyncedExactly | main.go:241-262 | Exactly the devices with Sync set are synced. |
| Mirror.CountSynced | main.go:241-246 | totalDevices is the number of devices with Sync set. |
| Mirror.RunDevices | main.go:241-262 | Devices are synced in configuration order under banners (k+1, total). Each device's result is its own sync, so an error does not stop the loop. |
| Format.RoundSecond | main.go:205 | The duration is rounded to a whole second, halves away from zero. |
| Format.ClockSteps | main.go:205-210 | For a non-negative whole number of seconds: h ≥ 0, 0 ≤ m < 60, 0 ≤ s < 60, and h·3600 + m·60 + s is the total seconds. |
| Format.Clock | main.go:204-210 | The same decomposition for any duration ≥ 0. A negative duration gives no positive part. |
| Format.FormatDurationForms | main.go:212-218 | The text has no spaces. It shows hours iff h > 0, and minutes iff h > 0 or m > 0. |
| Format.FormatDurationRoundTrip | main.go:204-219 | Reading the text back gives the rounded number of seconds. |
| Format.FormatClockRoundTrip | main.go:212-218 | Each of the three forms reads back as h·3600 + m·60 + s. |
| Format.DescribesUnique | main.go:221-232 | At most one text describes a byte count: the unit is determined. |
| Format.FormatBytes | main.go:221-232 | Below 1024, the plain count. Otherwise div = 1024^(exp+1) with div ≤ bytes < 1024·div, and an index into "KMGTPE" that stays in range. |
| Format.FormatBytesIfKnown | main.go:197-202 | "?" for a count ≤ 0; otherwise formatBytes's text. |

## Left out

- The network:
  - HTTP clients, their timeouts and TLS settings, the URL building and `url.PathEscape`, and `io.Copy` streaming.
  - Their results are inputs: the index GET, each HEAD, and each file GET given as chunk sizes.
- The file system:
  - `os.Stat`, `os.ReadDir`, `os.Remove` and `os.MkdirAll` are inputs.
  - `os.Create` becomes the `CreateFailed` case of a transfer.
  - `os.Chtimes` after a download is not modelled, and neither is the bytes landing on disk.
- Concurrency:
  - Goroutines, the WaitGroup, the semaphore channel, the one-second ticker that redraws, and the mutex of `SyncStats` are not modelled.
  - Tasks run one after another. The slot channel is a FIFO queue, so task k runs in slot k mod maxConcurrent.
  - Interleavings, and the intermediate frames the ticker draws, are not captured.
- Listing.ParseSize:
  - The float coefficient of `parseSizeString` is an exact decimal (digits and a scale), and the conversion truncates toward zero.
  - Float rounding of long coefficients, exponents, `inf`/`nan` spellings and the out-of-range float-to-int64 conversion (whose result Go leaves to the implementation) are not modelled.
  - A malformed exponent is read differently: `fmt.Sscanf` fails on "5e" and Go gives 0 for "5e KiB", while the model reads the leading 5 and gives 5120.
  - The other spellings `%f` scanning may accept, digit separators ("1_0") and hexadecimal floats ("0x1p4"), are not modelled either: the model reads only the leading decimal digits ("1_0 KiB" gives 1024 bytes, "0x1p4 B" gives 0).
- Listing.Unescape:
  - This is `url.QueryUnescape`'s decoding (`%XX` and `+` as a space); a malformed escape fails.
  - It is proved only against the model's own percent-encoder, not against RFC 3986 as a whole.
- Detect.RemoteNewer:
  - `http.ParseTime` is a parameter mapping the header text to an optional instant, and times are integers.
  - The formats of section 7.1.1.1 of RFC 7231 are not modelled.
- Stats.SyncStats.Print:
  - The elapsed time, the speed, the percentage value (`%.1f`), the ANSI cursor movements and all `Printf` text are left out.
  - The frame records which values are shown and whether a percentage is.
- Worker messages: the activity lines keep the file name, the byte counts and the stage ("Checking", "Downloading", "Done"), but not the colours or the formatting of the byte counts.
- Format.FormatBytes:
  - The `%.2f` value is returned as the pair (bytes, div) rather than printed.
  - Its requires excludes counts of 2^63 and more, which int64 cannot hold.
- Format.FormatDurationForms: the text forms are proved for durations ≥ 0. Negative durations, which the program never formats, are modelled but only their signs are stated (`Format.Clock`).
- Format.RoundSecond: the saturation of `Duration.Round` at the int64 limits is not modelled, and neither is other int64 overflow (sizes and counters are unbounded integers).
- Text:
  - `strings.TrimSpace` and `strings.Fields` treat only the ASCII white space bytes as spaces.
  - The Unicode spaces Go also recognises are not modelled.
- The cleanup's "Cleaned up N obsolete file(s)" line and the error log file (errorlog.go) are not part of this model. Failed removals are reported in `Report.failed` instead.
- Configuration loading (config.go) is not part of this model: the devices are given as a sequence.
- The older duplicates of `SyncStats`, `syncDirectory`, `getDirectoryListing`, `shouldDownload` and related functions in main.go are superseded by sync.go and stats.go, and are not modelled. main.go:258 calls main.go's own two-argument `syncDirectory` (main.go:284), not the three-argument one of sync.go that takes the error logger; the model follows sync.go, and leaves the logger out.
