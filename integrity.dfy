/**
 * The post-download check: the file must exist, a HEAD request must answer 200 with
 * a non-negative `Content-Length`, and the local size must equal it. Every
 * exception raised inside is caught and raised again as a plain `Exception`, so
 * the check ends either with a boolean or with that exception.
 */
module Integrity {
  import opened Wrappers
  import opened Http

  /** The cause named in the message of the `Exception` the check raises. */
  datatype Failure =
    | HeadRequestFailed
    | StatusNot200(status: int)
    | LengthNotInteger
    | LengthCompareTypeError
    | SizeUnreadable

  datatype Verdict = Returned(valid: bool) | Raised(failure: Failure)

  /** The remote length as an integer, with -1 standing for a missing header. */
  function RemoteLength(header: LengthHeader): (r: Result<int, Failure>)
    ensures r.Ok? <==> !header.Malformed?
    ensures header.Absent? ==> r == Ok(-1)
    ensures r.Ok? && r.value >= 0 ==> header == Numeric(r.value)
  {
    match header
    case Absent => Ok(-1)
    case Numeric(n) => Ok(n)
    case Malformed => Err(LengthNotInteger)
  }

  /**
   * `is_file_downloaded_properly`, given whether the file exists, the HEAD reply,
   * and what `os.path.getsize` returns (`None` when it raises).
   */
  function IsFileDownloadedProperly(fileExists: bool, head: HeadResponse, localSize: Option<nat>): (v: Verdict)
    ensures v == Returned(true) <==>
      && fileExists && head.HeadReply? && head.status == 200
      && head.contentLength.Numeric? && head.contentLength.n >= 0
      && localSize == Some(head.contentLength.n)
    ensures v.Raised? <==>
      && fileExists
      && (|| head.HeadError?
          || head.status != 200
          || head.contentLength.Malformed?
          || (head.contentLength.Numeric? && head.contentLength.n >= 0 && localSize.None?))
  {
    if !fileExists then Returned(false)
    else match head
      case HeadError => Raised(HeadRequestFailed)
      case HeadReply(status, header) =>
        if status != 200 then Raised(StatusNot200(status))
        else match RemoteLength(header)
          case Err(e) => Raised(e)
          case Ok(remote) =>
            if remote < 0 then Returned(false)
            else match localSize
              case None => Raised(SizeUnreadable)
              case Some(size) => Returned(size == remote)
  }

  /**
   * The checks run in a fixed order and the first one that fails decides the
   * outcome, whatever the later inputs are.
   */
  lemma FirstFailingCheckDecides(head: HeadResponse, head': HeadResponse, size: Option<nat>, size': Option<nat>)
    ensures IsFileDownloadedProperly(false, head, size) == Returned(false)
    ensures IsFileDownloadedProperly(false, head, size) == IsFileDownloadedProperly(false, head', size')
    ensures head.HeadReply? && head.status != 200 ==>
      IsFileDownloadedProperly(true, head, size) == Raised(StatusNot200(head.status))
    ensures head.HeadReply? && head.status == 200 && head.contentLength == Absent ==>
      IsFileDownloadedProperly(true, head, size) == Returned(false)
    ensures head.HeadReply? && head.status == 200 && head.contentLength.Numeric? && head.contentLength.n < 0 ==>
      IsFileDownloadedProperly(true, head, size) == IsFileDownloadedProperly(true, head, size')
  {
  }

  /** Local 1000 against remote 1000 matches; local 1000 against remote 999 does not. */
  lemma SizeExamples()
    ensures IsFileDownloadedProperly(true, HeadReply(200, Numeric(1000)), Some(1000)) == Returned(true)
    ensures IsFileDownloadedProperly(true, HeadReply(200, Numeric(999)), Some(1000)) == Returned(false)
  {
  }

  /**
   * The check as the source writes it: the header is compared with 0 as the text
   * the HTTP library returns, so any present `Content-Length` makes `<` raise a
   * `TypeError`, which is raised again as a plain `Exception`.
   */
  function IsFileDownloadedProperlyAsWritten(fileExists: bool, head: HeadResponse, localSize: Option<nat>): (v: Verdict)
    ensures v != Returned(true)
  {
    if !fileExists then Returned(false)
    else match head
      case HeadError => Raised(HeadRequestFailed)
      case HeadReply(status, header) =>
        if status != 200 then Raised(StatusNot200(status))
        else if header.Absent? then Returned(false)
        else Raised(LengthCompareTypeError)
  }

  /** A complete download that the corrected check confirms and the code as written rejects by raising. */
  lemma AsWrittenRejectsMatchingFile()
    ensures IsFileDownloadedProperlyAsWritten(true, HeadReply(200, Numeric(1000)), Some(1000))
         == Raised(LengthCompareTypeError)
    ensures IsFileDownloadedProperly(true, HeadReply(200, Numeric(1000)), Some(1000)) == Returned(true)
  {
  }
}
