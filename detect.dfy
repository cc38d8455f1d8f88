/** The two change detectors of sync.go, with the results of `os.Stat`
    and of the HEAD request given as values. */
module Detect {
  import opened Wrappers

  /** What `os.Stat` reports for the local copy: it does not exist, the
      call failed for another reason, or its size and modification time. */
  datatype LocalStat = Missing | StatFailed | Present(size: int, modTime: int)

  /** What the HEAD request returns: a transport failure, or the status
      code, the Content-Length (-1 when the server sends none) and the
      Last-Modified header ("" when absent). */
  datatype Head = HeadFailed | HeadResponse(status: int, contentLength: int, lastModified: string)

  datatype CheckError = StatError | HeadTransport | HeadStatus(code: int)

  /** needsSync, the quick local-only estimate: the file is missing or
      cannot be examined, or its size differs from a known (positive)
      listing size. */
  function NeedsSync(local: LocalStat, expectedSize: int): (r: bool)
    ensures local.Missing? || local.StatFailed? ==> r
    ensures local.Present? ==> (r <==> expectedSize > 0 && local.size != expectedSize)
  {
    match local
    case Missing => true
    case StatFailed => true
    case Present(size, _) => expectedSize > 0 && size != expectedSize
  }

  /** The HEAD request answered 200. */
  predicate HeadOk(head: Head)
  {
    head.HeadResponse? && head.status == 200
  }

  /** The remote copy is strictly newer than the local one, judged by a
      Last-Modified header that is present and parses. */
  predicate RemoteNewer(head: Head, modTime: int, parseTime: string -> Option<int>)
    requires head.HeadResponse?
  {
    head.lastModified != "" && parseTime(head.lastModified).Some? && parseTime(head.lastModified).value > modTime
  }

  /** The local copy is stale: missing, of another size than the remote
      Content-Length, or older than the remote Last-Modified. */
  predicate Stale(local: LocalStat, head: Head, parseTime: string -> Option<int>)
    requires !local.StatFailed? && head.HeadResponse?
  {
    local.Missing? || head.contentLength != local.size || RemoteNewer(head, local.modTime, parseTime)
  }

  /** shouldDownload, the authoritative check. A stat failure other than
      "does not exist" is an error before any request; a failed or
      non-200 HEAD is an error in both branches; otherwise the answer is
      whether the local copy is stale. */
  function ShouldDownload(local: LocalStat, head: Head, parseTime: string -> Option<int>): (r: Result<bool, CheckError>)
    ensures local.StatFailed? ==> r == Err(StatError)
    ensures !local.StatFailed? && head.HeadFailed? ==> r == Err(HeadTransport)
    ensures !local.StatFailed? && head.HeadResponse? && head.status != 200 ==> r == Err(HeadStatus(head.status))
    ensures r.Ok? <==> !local.StatFailed? && HeadOk(head)
    ensures r.Ok? ==> (r.value <==> Stale(local, head, parseTime))
  {
    if local.Missing? then
      if head.HeadFailed? then Err(HeadTransport)
      else if head.status != 200 then Err(HeadStatus(head.status))
      else Ok(true)
    else if local.StatFailed? then Err(StatError)
    else if head.HeadFailed? then Err(HeadTransport)
    else if head.status != 200 then Err(HeadStatus(head.status))
    else if head.contentLength != local.size then Ok(true)
    else if head.lastModified != "" then
      match parseTime(head.lastModified)
      case Some(remoteTime) => Ok(remoteTime > local.modTime)
      case None => Ok(false)
    else Ok(false)
  }

  /** When the authoritative check skips a file whose listing size is the
      HEAD Content-Length, the quick check also judged it up to date. */
  lemma SkipAgreesWithQuickCheck(local: LocalStat, head: Head, parseTime: string -> Option<int>, expectedSize: int)
    requires ShouldDownload(local, head, parseTime) == Ok(false)
    requires expectedSize == head.contentLength
    ensures !NeedsSync(local, expectedSize)
  {
  }

  /** A missing local file is always counted by the quick check and is
      always downloaded unless the HEAD request fails. */
  lemma MissingIsAlwaysFetched(head: Head, parseTime: string -> Option<int>, expectedSize: int)
    ensures NeedsSync(Missing, expectedSize)
    ensures ShouldDownload(Missing, head, parseTime) == if HeadOk(head) then Ok(true)
      else if head.HeadFailed? then Err(HeadTransport) else Err(HeadStatus(head.status))
  {
  }

  /** The two checks can disagree: a file listed with size 0 (unknown) is
      left out of the byte estimate yet downloaded when its length
      differs. The estimate is therefore best-effort only. */
  lemma EstimateCanUndercount(size: int, localTime: int, len: int, stamp: string, parseTime: string -> Option<int>)
    requires len != size
    ensures !NeedsSync(Present(size, localTime), 0)
    ensures ShouldDownload(Present(size, localTime), HeadResponse(200, len, stamp), parseTime) == Ok(true)
  {
  }

  /** Equal sizes and a local copy at least as new as the remote
      Last-Modified: the file is skipped without a body download. */
  lemma UpToDateIsSkipped(size: int, localTime: int, remoteTime: int, stamp: string, parseTime: string -> Option<int>)
    requires stamp != "" && parseTime(stamp) == Some(remoteTime) && remoteTime <= localTime
    ensures ShouldDownload(Present(size, localTime), HeadResponse(200, size, stamp), parseTime) == Ok(false)
  {
  }
}
