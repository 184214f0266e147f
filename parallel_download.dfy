/**
 * The parallel downloader: a HEAD request gives the size, the destination is
 * truncated and filled with that many zero bytes, and one worker per planned range
 * fetches its range and writes the body at the range's start offset.
 *
 * The workers run as threads over disjoint ranges; the model runs them one after
 * another in launch order, and `ChunkOrderIrrelevant` shows that any other order of
 * the writes gives the same file.
 */
module ParallelDownload {
  import opened Wrappers
  import opened Bytes
  import opened Http
  import opened ChunkPlan

  /** The destination file; a write past its end makes it grow. */
  class LocalFile {
    var data: array<byte>

    ghost function Content(): seq<byte>
      reads this, data
    {
      data[..]
    }

    constructor (initial: seq<byte>)
      ensures Content() == initial
    {
      data := new byte[|initial|](k requires 0 <= k < |initial| => initial[k]);
    }

    /** `open(fp, "wb")` followed by writing `total` zero bytes. */
    method Preallocate(total: int)
      modifies this
      ensures fresh(data)
      ensures Content() == Zeros(total)
    {
      data := new byte[Max(0, total)](_ => 0);
    }

    /**
     * `seek(offset)` and `write(body)`. When the body fits inside the file, the bytes
     * are written in place and the file keeps its length.
     */
    method WriteAt(offset: nat, body: seq<byte>)
      modifies this, data
      ensures Content() == Overwrite(old(Content()), offset, body)
      ensures body == [] || offset + |body| <= old(data.Length) ==> data == old(data)
      ensures data == old(data) || fresh(data)
    {
      if body == [] || offset + |body| <= data.Length {
        var a := data;
        var i := 0;
        while i < |body|
          invariant 0 <= i <= |body|
          invariant data == a
          invariant forall k :: 0 <= k < a.Length ==>
            a[k] == if offset <= k < offset + i then body[k - offset] else old(a[k])
        {
          a[offset + i] := body[i];
          i := i + 1;
        }
        assert a[..] == Overwrite(old(a[..]), offset, body);
      } else {
        var grown := Overwrite(data[..], offset, body);
        data := new byte[|grown|](k requires 0 <= k < |grown| => grown[k]);
        assert data[..] == grown;
      }
    }
  }

  /** What a worker's ranged GET yields: an exception, or a status and a body. */
  datatype ChunkResponse = WorkerError | Response(status: int, body: seq<byte>)

  /** How a worker ends. A raised exception ends its thread and reaches nobody. */
  datatype ChunkOutcome = Written | SkippedStatus(status: int) | WorkerRaised

  /**
   * What the downloader itself can raise: the HEAD request, `int()` on the header,
   * `open`, the zero fill (`MemoryError` or `OSError`), and `Thread.start`.
   */
  datatype DownloadError = HeadFailed | LengthNotInteger | OpenFailed | FillFailed | StartFailed

  /** The downloader's result: `True`, or the exception it re-raises. */
  datatype ParallelOutcome = ReturnedTrue | Raised(error: DownloadError)

  /** A 2xx status, tested as `status_code // 100 == 2`. */
  predicate IsSuccess(status: int)
    ensures IsSuccess(status) <==> 200 <= status < 300
  {
    status / 100 == 2
  }

  /** Whether a worker writes the body of this response. */
  predicate Writes(response: ChunkResponse)
    ensures Writes(response) <==> response.Response? && 200 <= response.status < 300
  {
    response.Response? && IsSuccess(response.status)
  }

  /** The file after one worker has run on `range`. */
  function ApplyChunk(s: seq<byte>, range: ByteRange, response: ChunkResponse): (r: seq<byte>)
    ensures |s| <= |r|
    ensures Writes(response) && response.body != [] ==> range.start + |response.body| <= |r|
    ensures forall k :: Lands(range, response, k) ==> r[k] == response.body[k - range.start]
    ensures forall k :: 0 <= k < |s| && !Lands(range, response, k) ==> r[k] == s[k]
  {
    if Writes(response) then Overwrite(s, range.start, response.body) else s
  }

  /** The file after the workers for `ranges` have run, in the order listed. */
  function ApplyPlan(s: seq<byte>, ranges: seq<ByteRange>, server: ByteRange -> ChunkResponse): (r: seq<byte>)
    ensures |s| <= |r|
    ensures forall k :: 0 <= k < |s| && (forall i :: 0 <= i < |ranges| ==> !Lands(ranges[i], server(ranges[i]), k)) ==>
      r[k] == s[k]
  {
    if ranges == [] then s
    else
      var last := ranges[|ranges| - 1];
      ApplyChunk(ApplyPlan(s, ranges[..|ranges| - 1], server), last, server(last))
  }

  /** The size the downloader plans for: `int(headers.get("Content-Length", 0))`. */
  function TotalSize(head: HeadResponse): (r: Result<int, DownloadError>)
    ensures r.Ok? <==> head.HeadReply? && !head.contentLength.Malformed?
    ensures head.HeadReply? && head.contentLength.Absent? ==> r == Ok(0)
    ensures head.HeadReply? && head.contentLength.Numeric? ==> r == Ok(head.contentLength.n)
    ensures r.Err? ==> r.error == if head.HeadError? then HeadFailed else LengthNotInteger
  {
    match head
    case HeadError => Err(HeadFailed)
    case HeadReply(_, Absent) => Ok(0)
    case HeadReply(_, Numeric(n)) => Ok(n)
    case HeadReply(_, Malformed) => Err(LengthNotInteger)
  }

  /** The file the downloader leaves behind, once every worker has joined. */
  function Assemble(total: int, chunkSize: int, server: ByteRange -> ChunkResponse): (r: seq<byte>)
    requires chunkSize > 0
    ensures Max(0, total) <= |r|
  {
    ApplyPlan(Zeros(total), Plan(total, chunkSize), server)
  }

  /**
   * One worker: a non-2xx status is skipped without raising, an exception leaves
   * the file as it was, and a 2xx body is written at the range's start.
   */
  method DownloadChunk(file: LocalFile, range: ByteRange, response: ChunkResponse)
    returns (outcome: ChunkOutcome)
    modifies file, file.data
    ensures file.Content() == ApplyChunk(old(file.Content()), range, response)
    ensures file.data == old(file.data) || fresh(file.data)
    ensures outcome.Written? <==> Writes(response)
    ensures outcome.WorkerRaised? <==> response.WorkerError?
    ensures outcome.SkippedStatus? ==> response.Response? && outcome.status == response.status
    ensures Writes(response) && range.start + |response.body| <= old(file.data.Length)
      ==> file.data == old(file.data)
  {
    match response
    case WorkerError =>
      outcome := WorkerRaised;
    case Response(status, body) =>
      if !IsSuccess(status) {
        outcome := SkippedStatus(status);
        return;
      }
      file.WriteAt(range.start, body);
      outcome := Written;
  }

  /**
   * The whole parallel download. `openFails` says whether `open(fp, "wb")` raises;
   * `fillFailsAfter`, when present, is how many zero bytes reach the file before the
   * zero fill raises; `startFailsAt`, when present, is the index of the first
   * `Thread.start` that raises. `server` gives each ranged GET its response. Every
   * launched range is the planned one, and the call returns `True` whatever the
   * workers' outcomes were. Once `open` has truncated the file, a later raise leaves
   * behind what was written up to that point.
   */
  method DownloadFileParallelly(file: LocalFile, head: HeadResponse, openFails: bool,
                                fillFailsAfter: Option<nat>, startFailsAt: Option<nat>,
                                chunkSize: int, server: ByteRange -> ChunkResponse)
    returns (outcome: ParallelOutcome, launched: seq<ByteRange>)
    requires chunkSize > 0
    modifies file, file.data
    ensures outcome.ReturnedTrue? <==>
      && TotalSize(head).Ok? && !openFails && fillFailsAfter.None?
      && (startFailsAt.None? || startFailsAt.value >= NumChunks(TotalSize(head).value, chunkSize))
    ensures TotalSize(head).Err? ==> outcome == Raised(TotalSize(head).error)
    ensures TotalSize(head).Ok? && openFails ==> outcome == Raised(OpenFailed)
    ensures outcome == Raised(HeadFailed) || outcome == Raised(LengthNotInteger) || outcome == Raised(OpenFailed) ==>
      && file.data == old(file.data) && file.Content() == old(file.Content()) && launched == []
    ensures TotalSize(head).Ok? && !openFails && fillFailsAfter.Some? ==>
      && outcome == Raised(FillFailed)
      && file.Content() == Zeros(if fillFailsAfter.value < TotalSize(head).value
                                 then fillFailsAfter.value else TotalSize(head).value)
      && launched == []
    ensures TotalSize(head).Ok? && !openFails && fillFailsAfter.None? && startFailsAt.Some?
            && startFailsAt.value < NumChunks(TotalSize(head).value, chunkSize) ==>
      && outcome == Raised(StartFailed)
      && launched == Plan(TotalSize(head).value, chunkSize)[..startFailsAt.value]
      && file.Content() == ApplyPlan(Zeros(TotalSize(head).value), launched, server)
    ensures outcome.ReturnedTrue? ==>
      && launched == Plan(TotalSize(head).value, chunkSize)
      && file.Content() == Assemble(TotalSize(head).value, chunkSize, server)
  {
    launched := [];
    var size := TotalSize(head);
    if size.Err? {
      outcome := Raised(size.error);
      return;
    }
    var total := size.value;
    var numChunks := NumChunks(total, chunkSize);
    if openFails {
      outcome := Raised(OpenFailed);
      return;
    }
    if fillFailsAfter.Some? {
      file.Preallocate(if fillFailsAfter.value < total then fillFailsAfter.value else total);
      outcome := Raised(FillFailed);
      return;
    }
    file.Preallocate(total);
    var i := 0;
    while i < numChunks
      invariant 0 <= i <= numChunks
      invariant startFailsAt.Some? ==> startFailsAt.value >= i
      invariant launched == Plan(total, chunkSize)[..i]
      invariant fresh(file.data)
      invariant file.Content() == ApplyPlan(Zeros(total), launched, server)
    {
      var startByte := i * chunkSize;
      var endByte := if i < numChunks - 1 then startByte + chunkSize - 1 else total - 1;
      var range := ByteRange(startByte, endByte);
      if startFailsAt == Some(i) {
        // Workers already started keep running; their writes are in `file`.
        outcome := Raised(StartFailed);
        return;
      }
      // The worker's outcome stays inside its thread; `join` does not report it.
      var _ := DownloadChunk(file, range, server(range));
      assert (launched + [range])[..i] == launched;
      launched := launched + [range];
      i := i + 1;
    }
    assert launched == Plan(total, chunkSize);
    outcome := ReturnedTrue;
  }

  /** A 2xx body has no more bytes than the range asked for. */
  predicate BodyFits(range: ByteRange, response: ChunkResponse)
  {
    Writes(response) ==> |response.body| <= range.Length()
  }

  /** The worker for `range` writes the byte at offset `k`. */
  predicate Lands(range: ByteRange, response: ChunkResponse, k: int)
  {
    Writes(response) && range.start <= k < range.start + |response.body|
  }

  /** The byte a worker's response puts at position `j` of its range; 0 when it writes none. */
  function ChunkByte(response: ChunkResponse, j: int): byte
  {
    if Writes(response) && 0 <= j < |response.body| then response.body[j] else 0
  }

  /** No two distinct ranges share an offset. */
  ghost predicate Separate(ranges: seq<ByteRange>)
  {
    forall a, b :: a in ranges && b in ranges && a != b ==> a.end < b.start || b.end < a.start
  }

  /** Writes that fit inside the file do not change its length. */
  lemma {:induction false} ApplyPlanLength(s: seq<byte>, ranges: seq<ByteRange>,
                                           server: ByteRange -> ChunkResponse)
    requires forall r :: r in ranges ==> r.end < |s| && BodyFits(r, server(r))
    ensures |ApplyPlan(s, ranges, server)| == |s|
  {
    if ranges != [] {
      var init := ranges[..|ranges| - 1];
      assert forall r :: r in init ==> r in ranges;
      ApplyPlanLength(s, init, server);
      assert ranges[|ranges| - 1] in ranges;
    }
  }

  /**
   * With separate ranges inside the file and bodies that fit, each byte ends up as
   * the body byte of the one range that writes it, or as it was if none does.
   */
  lemma {:induction false} ApplyPlanAt(s: seq<byte>, ranges: seq<ByteRange>,
                                       server: ByteRange -> ChunkResponse, k: int)
    requires forall r :: r in ranges ==> r.end < |s| && BodyFits(r, server(r))
    requires Separate(ranges)
    requires 0 <= k < |s|
    ensures |ApplyPlan(s, ranges, server)| == |s|
    ensures forall r :: r in ranges && Lands(r, server(r), k) ==>
      ApplyPlan(s, ranges, server)[k] == server(r).body[k - r.start]
    ensures (forall r :: r in ranges ==> !Lands(r, server(r), k)) ==> ApplyPlan(s, ranges, server)[k] == s[k]
  {
    ApplyPlanLength(s, ranges, server);
    if ranges != [] {
      var init := ranges[..|ranges| - 1];
      var last := ranges[|ranges| - 1];
      assert forall r :: r in init ==> r in ranges;
      ApplyPlanAt(s, init, server, k);
      ApplyPlanLength(s, init, server);
      assert last in ranges;
    }
  }

  /** Any other order of the same separate, fitting writes gives the same file. */
  lemma ChunkOrderIrrelevant(s: seq<byte>, ranges: seq<ByteRange>, reordered: seq<ByteRange>,
                             server: ByteRange -> ChunkResponse)
    requires forall r :: r in reordered <==> r in ranges
    requires forall r :: r in ranges ==> r.end < |s| && BodyFits(r, server(r))
    requires Separate(ranges)
    ensures ApplyPlan(s, reordered, server) == ApplyPlan(s, ranges, server)
  {
    var a := ApplyPlan(s, ranges, server);
    var b := ApplyPlan(s, reordered, server);
    ApplyPlanLength(s, ranges, server);
    ApplyPlanLength(s, reordered, server);
    forall k | 0 <= k < |s|
      ensures a[k] == b[k]
    {
      ApplyPlanAt(s, ranges, server, k);
      ApplyPlanAt(s, reordered, server, k);
    }
  }

  /** The planned ranges are separate and lie inside the zero-filled file. */
  lemma PlanFitsFile(total: int, chunkSize: int)
    requires chunkSize > 0
    ensures Separate(Plan(total, chunkSize))
    ensures forall r :: r in Plan(total, chunkSize) ==> r.end < |Zeros(total)|
  {
    var p := Plan(total, chunkSize);
    PlanDisjoint(total, chunkSize);
    forall a, b | a in p && b in p && a != b
      ensures a.end < b.start || b.end < a.start
    {
      var i :| 0 <= i < |p| && p[i] == a;
      var j :| 0 <= j < |p| && p[j] == b;
    }
    PlanEndsInside(total, chunkSize);
    forall r | r in p
      ensures r.end < |Zeros(total)|
    {
      var i :| 0 <= i < |p| && p[i] == r;
    }
  }

  /**
   * The workers' writes may land in any order: as long as every 2xx body has its
   * range's length, the finished file is the same.
   */
  lemma PlanOrderIrrelevant(total: int, chunkSize: int, server: ByteRange -> ChunkResponse,
                            order: seq<ByteRange>)
    requires chunkSize > 0
    requires forall r :: r in order <==> r in Plan(total, chunkSize)
    requires forall r :: r in Plan(total, chunkSize) ==> BodyFits(r, server(r))
    ensures ApplyPlan(Zeros(total), order, server) == Assemble(total, chunkSize, server)
  {
    PlanFitsFile(total, chunkSize);
    ChunkOrderIrrelevant(Zeros(total), Plan(total, chunkSize), order, server);
  }

  /**
   * The finished file has the advertised length; each byte of a range holds what
   * the server returned for that range, or stays zero when that worker wrote nothing.
   */
  lemma AssembledContent(total: int, chunkSize: int, server: ByteRange -> ChunkResponse)
    requires chunkSize > 0
    requires forall r :: r in Plan(total, chunkSize) ==> BodyFits(r, server(r))
    ensures |Assemble(total, chunkSize, server)| == Max(0, total)
    ensures var p := Plan(total, chunkSize);
      forall i, k :: 0 <= i < |p| && 0 <= k < total && p[i].Contains(k) ==>
        Assemble(total, chunkSize, server)[k] == ChunkByte(server(p[i]), k - p[i].start)
  {
    var p := Plan(total, chunkSize);
    var z := Zeros(total);
    PlanFitsFile(total, chunkSize);
    ApplyPlanLength(z, p, server);
    forall i, k | 0 <= i < |p| && 0 <= k < total && p[i].Contains(k)
      ensures Assemble(total, chunkSize, server)[k] == ChunkByte(server(p[i]), k - p[i].start)
    {
      ApplyPlanAt(z, p, server, k);
      PlanCovers(total, chunkSize, k);
      assert p[i] in p;
      if !Lands(p[i], server(p[i]), k) {
        forall r | r in p
          ensures !Lands(r, server(r), k)
        {
          var j :| 0 <= j < |p| && p[j] == r;
        }
      }
    }
  }
}
