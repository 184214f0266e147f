# pieydl download core, modelled in Dafny

pieydl downloads one large file over HTTP. This project models the three parts
of it that contain real logic.

- **Parallel chunked download** (`download_file_parallelly`, `download_chunk`).
  A HEAD request gives the size. The size is split into inclusive byte ranges of
  `chunk_size` bytes. The destination is truncated and filled with that many zero
  bytes. One worker per range fetches `Range: bytes=start-end` and writes a 2xx
  body at offset `start`.
- **Atomic single-stream download** (`download_atomically`). The body is streamed
  into a `mkstemp` file, which `os.replace` then moves over the destination. Any
  `RequestException`/`OSError` gives `False`. The `finally` block removes the
  temporary file if it still exists.
- **Integrity check** (`is_file_downloaded_properly`). The checks run in order: the
  file exists, the HEAD status is 200, `Content-Length` is non-negative, and the
  local size equals it. Every exception raised inside is raised again as a plain
  `Exception`.

Files:

- `bytes.dfy`: bytes, the zero fill, and seek-and-write (`Overwrite`).
- `chunk_plan.dfy`: the chunk count and the range plan, with partition lemmas.
- `parallel_download.dfy`: the destination file as a class over an `array<byte>`,
  the worker, the launch loop, and the lemmas on order and content.
- `atomic_download.dfy`: the file system as a class over a map from path to
  bytes, and the temp/replace/cleanup sequence.
- `integrity.dfy`: the verdict as a function over the I/O results.
- `http.dfy`, `wrappers.dfy`: shared datatypes.

I/O becomes parameters. HTTP replies are datatypes: a HEAD reply, a per-range
response chosen by a function `server` of the range, and a streamed reply. The
outcomes of `mkstemp`, of chunk writes and of `os.replace` are failure flags.

The thread workers are run one after another in launch order. This is sound
because the ranges are pairwise disjoint (`ChunkPlan.PlanDisjoint`). By
`ParallelDownload.PlanOrderIrrelevant`, any other order of the writes produces
the same file, provided no 2xx body is longer than its range.

The model keeps these behaviours of the code, though a cleaner design would avoid them:

- A zero or missing size is not a zero-chunk plan. It yields one range `[0, -1]`.
  A negative `Content-Length` stays negative: the zero fill writes nothing and the
  single range is `[0, total - 1]`.
- A worker that raises does not abort the parallel download. The exception ends
  only its thread, and `join` does not re-raise it. So `download_file_parallelly`
  returns `True` whatever its workers did. Workers that saw a non-2xx status
  return `True` too.
- The parallel path never reads the HEAD status, only `Content-Length`.
- The integrity check raises on a non-200 HEAD status; it does not return an error
  value.

## Model

| member | source | states |
|---|---|---|
| `Bytes.Zeros` | modules/download/download.py:119 | `b"\0" * total` is max(0, total) bytes, all zero, and empty exactly when total <= 0 |
| `Bytes.Overwrite` | modules/download/download.py:84-86 | writing an empty body changes nothing. Otherwise, after seek(offset) and write(body), the file is max(old length, offset+len) long. The body sits at the offset, bytes outside it are unchanged, and a gap past the old end is zero |
| `Bytes.Concat` | modules/download/download.py:54-55 | the streamed bytes end with the last chunk received |
| `Bytes.ConcatPrefix` | modules/download/download.py:54-55 | the bytes of the first j chunks are a prefix of the whole stream: later chunks never change what was already written |
| `Bytes.ConcatLength` | modules/download/download.py:54-55 | the streamed file holds exactly as many bytes as all the chunks received |
| `ChunkPlan.NumChunks` | modules/download/download.py:110-113 | at least one chunk; exactly one when total <= chunk_size (so size == chunk_size gives 1); otherwise the ceiling n with (n-1)*chunk_size < total <= n*chunk_size |
| `ChunkPlan.ChunkAt` | modules/download/download.py:121-126 | range i starts at i*chunk_size; a range before the last holds exactly chunk_size bytes; the last ends at total-1 |
| `ChunkPlan.Plan` | modules/download/download.py:120-126 | one range per chunk, range i starting at i*chunk_size; the first starts at 0 and the last ends at total-1 |
| `ChunkPlan.PlanContiguous` | modules/download/download.py:120-126 | for total >= 1: the first range starts at 0; every range but the last holds exactly chunk_size bytes and is followed directly by the next; the last ends at total-1 and holds 1 to chunk_size bytes |
| `ChunkPlan.PlanDisjoint` | modules/download/download.py:120-126 | every range ends before any later range starts |
| `ChunkPlan.PlanEndsInside` | modules/download/download.py:120-126 | no planned range ends past offset total-1 |
| `ChunkPlan.PlanCovers` | modules/download/download.py:110-126 | every offset in [0, total-1] lies in exactly one range, the one with index offset / chunk_size |
| `ChunkPlan.PlanOfEmptyFile` | modules/download/download.py:107-126 | a size <= 0 gives the single range [0, total-1], which holds no byte, rather than no range at all |
| `ChunkPlan.PlanOfExactChunk` | modules/download/download.py:110-126 | a file of exactly chunk_size bytes is the one range [0, chunk_size-1] |
| `ChunkPlan.PlanOfTenMebibytes` | modules/download/download.py:98-126 | 10 MiB in 4 MiB chunks is the three ranges of 4, 4 and 2 MiB |
| `ParallelDownload.TotalSize` | modules/download/download.py:106-107 | a size exists exactly when the HEAD succeeds and the header is missing or an integer. A missing header gives 0, an integer gives itself, a failed HEAD raises its own error and an unparsable header `LengthNotInteger` |
| `ParallelDownload.IsSuccess` | modules/download/download.py:81 | `status_code // 100 == 2` holds exactly for statuses 200 to 299 |
| `ParallelDownload.Writes` | modules/download/download.py:77-86 | a worker writes exactly when its GET returns a status from 200 to 299 |
| `ParallelDownload.ApplyChunk` | modules/download/download.py:74-92 | one worker's effect on the file: it never shortens it, every byte its body covers is the body's byte, and every other byte is unchanged |
| `ParallelDownload.ApplyPlan` | modules/download/download.py:127-134 | the workers' writes in launch order: the file never gets shorter, and a byte no worker's body covers keeps its old value |
| `ParallelDownload.Assemble` | modules/download/download.py:118-136 | the finished file is never shorter than the advertised size |
| `ParallelDownload.LocalFile.Preallocate` | modules/download/download.py:118-119 | after truncation the file holds exactly total zero bytes (none when total <= 0) |
| `ParallelDownload.LocalFile.WriteAt` | modules/download/download.py:84-86 | the file becomes Overwrite of its old contents, so an empty body changes nothing; an empty body or one that fits is written in place into the same array |
| `ParallelDownload.DownloadChunk` | modules/download/download.py:74-92 | a non-2xx status leaves the file unchanged and returns without raising; an exception leaves it unchanged; a 2xx body is written at the range start (an empty one changes nothing), in place when it fits |
| `ParallelDownload.DownloadFileParallelly` | modules/download/download.py:95-141 | returns True exactly when the HEAD succeeds, the header parses, the open and the zero fill succeed and every `Thread.start` succeeds, whatever the workers do. A failed HEAD, an unparsable header or a failed open raise and leave the file untouched. A failed zero fill raises after truncating the file, leaving only the zeros written so far. A failed `Thread.start` raises; only the earlier ranges were launched, and the file is the zero fill with their writes applied. On True the launched ranges are the plan, and the file is the zero fill with every worker's write applied |
| `ParallelDownload.ApplyPlanLength` | modules/download/download.py:81-86 | writes whose ranges lie inside the file and whose bodies are no longer than their ranges never change its length |
| `ParallelDownload.ApplyPlanAt` | modules/download/download.py:81-86 | with separate ranges and bodies no longer than their ranges, each byte is the body byte of the one range that writes it, or its old value if none does |
| `ParallelDownload.ChunkOrderIrrelevant` | modules/download/download.py:127-134 | with separate ranges and bodies no longer than their ranges, any reordering of the writes gives the same file |
| `ParallelDownload.PlanFitsFile` | modules/download/download.py:118-126 | the planned ranges are pairwise separate and all end inside the zero-filled file |
| `ParallelDownload.PlanOrderIrrelevant` | modules/download/download.py:120-134 | when no 2xx body is longer than its range, the workers' writes in any order give the same file as launch order |
| `ParallelDownload.AssembledContent` | modules/download/download.py:118-136 | when no 2xx body is longer than its range, the finished file has the advertised length, and every byte of a range is what the server returned at that position, or zero if that worker wrote nothing there (an error, a non-2xx status, or a short body) |
| `AtomicDownload.RaisesForStatus` | modules/download/download.py:51 | `raise_for_status` raises exactly for the 4xx and 5xx statuses, 400 to 599 |
| `AtomicDownload.Succeeds` | modules/download/download.py:44-58 | defines success: mkstemp returns a path, the GET returns a status below 400 or above 599, no chunk write raises, the stream does not break, and os.replace succeeds |
| `AtomicDownload.FileSystem.CreateEmpty` | modules/download/download.py:45 | mkstemp adds an empty file at the temporary path |
| `AtomicDownload.FileSystem.Append` | modules/download/download.py:55 | a chunk write appends its bytes to the temporary file |
| `AtomicDownload.FileSystem.Replace` | modules/download/download.py:58 | os.replace gives the destination the source's bytes and removes the source |
| `AtomicDownload.FileSystem.Remove` | modules/download/download.py:69-71 | os.remove deletes exactly that path |
| `AtomicDownload.StreamToFile` | modules/download/download.py:54-55 | the temporary file gains the streamed chunks in order. The loop stops at the first write that raises, and only the chunks before it are written |
| `AtomicDownload.DownloadAtomically` | modules/download/download.py:16-71 | returns True exactly when mkstemp, the GET, the status, every chunk write, the stream and os.replace succeed. Then the destination equals the concatenated chunks and nothing else changes; otherwise the file system is exactly as before. Either way the temporary file is gone |
| `Integrity.RemoteLength` | modules/ytdlp/ytdlp.py:35-36 | the header yields an integer unless it is unparsable. A missing header yields -1, so a non-negative result always comes from a header that was present |
| `Integrity.IsFileDownloadedProperly` | modules/ytdlp/ytdlp.py:19-58 | True exactly when the file exists, HEAD is 200, Content-Length is a non-negative integer and the local size equals it. It raises exactly when the file exists and the HEAD raises, the status is not 200, the length is not an integer, or getsize raises. Every other case is False |
| `Integrity.FirstFailingCheckDecides` | modules/ytdlp/ytdlp.py:22-41 | a missing file gives False before any HEAD is looked at; a non-200 status raises whatever the length and size; a missing header gives False; a negative length gives the same result whatever the local size |
| `Integrity.SizeExamples` | modules/ytdlp/ytdlp.py:43-55 | local 1000 against remote 1000 is True; against remote 999 it is False |
| `Integrity.IsFileDownloadedProperlyAsWritten` | modules/ytdlp/ytdlp.py:35-36 | as written, the check never returns True |
| `Integrity.AsWrittenRejectsMatchingFile` | modules/ytdlp/ytdlp.py:35-46 | a complete 1000-byte download makes the code as written raise, while the corrected check confirms it |

## Left out

- HTTP itself: requests, timeouts, redirects and `iter_content` buffering. Responses are inputs.
- Threads and their interleavings. Workers run in launch order. This is justified by `ChunkPlan.PlanDisjoint` and `ParallelDownload.PlanOrderIrrelevant`.
- `ParallelDownload.PlanOrderIrrelevant`: proved only when no 2xx body is longer than its range. A server that ignores `Range` and sends a whole body with status 200 makes overlapping writes. The file then depends on the order in which the workers finish, and the model fixes launch order.
- `ParallelDownload.AssembledContent`: proved only when no 2xx body is longer than its range. With a longer body the file can grow past the advertised size and a later range's write overwrites part of an earlier one; `ParallelDownload.Assemble` still shows the file is never shorter than the advertised size.
- `ParallelDownload.ChunkOrderIrrelevant`: proved only for bodies no longer than their ranges, for the same reason.
- `ParallelDownload.ApplyPlanAt`: proved only for bodies no longer than their ranges, for the same reason.
- `ParallelDownload.ApplyPlanLength`: proved only for bodies no longer than their ranges; a longer body can extend the file.
- `ParallelDownload.DownloadFileParallelly`: Python's file buffering is not modelled. The zero fill goes through a buffered `wb` handle that stays open until the workers have joined, and the model treats the fill as reaching the file before any worker writes. For a file smaller than the buffer (8 KiB by default) the zeros are still in the buffer when the workers write through their own handles; they reach the file when the `with` block closes, after the joins, and overwrite every worker's bytes. Such a file would then end all zero, which `ParallelDownload.AssembledContent` does not reflect (reasoned from the code, not executed).
- `ParallelDownload.DownloadFileParallelly`: when `Thread.start` raises, the workers already started keep running after the exception leaves the function. The model puts their writes in the file before the raise.
- OS-level atomicity of `mkstemp` and `os.replace`. `os.replace` is one step on the map.
- `AtomicDownload.DownloadAtomically`: requires that the temporary path is absent from the file system and differs from the destination. This stands for `mkstemp` returning a new name.
- `AtomicDownload.DownloadAtomically`: a chunk write that raises is modelled as writing nothing; the temporary file is removed either way. The model does not cover `os.remove` raising inside `finally`, or exceptions other than `RequestException`/`OSError`. The `fmode` and `chunk_size` parameters are fixed at their defaults.
- `ParallelDownload.DownloadChunk`: any exception in a worker, whether from the network or from `open`, is modelled as occurring before the write. A write that fails halfway is not modelled.
- `ChunkPlan.NumChunks`: requires chunk_size > 0, and so do `ChunkPlan.Plan` and `ParallelDownload.DownloadFileParallelly`. The only caller uses the 4 MiB default; zero would raise `ZeroDivisionError`.
- `ChunkPlan.NumChunks`: uses the exact integer ceiling. The source uses `math.ceil` on a float quotient, which can differ for sizes beyond 2^53 bytes.
- The text parsing of `Content-Length` by `int()`. Its result is an input: missing, an integer, or rejected.
- Logging (`modules/logger/logger.py`), the entry point `pieydl.py`, and the empty stubs `is_ytdlp_present` and `is_ytdlp_upto_date`. None of them has logic to model.
- Resume, checksums, retries, bounded worker pools and cancellation. The code implements none of these.

## Findings

| source | as written | input that shows it | evidently intended | confidence | as-written member | corrected member |
|---|---|---|---|---|---|---|
| modules/ytdlp/ytdlp.py:35-36 | the `Content-Length` header, a string, is compared with the integer 0 | file exists, HEAD 200 with `Content-Length: 1000`, local size 1000: `"1000" < 0` raises `TypeError`, which is raised again as `Exception` | convert the header with `int()` before comparing it with 0 and with the local size | not executed; high | `Integrity.IsFileDownloadedProperlyAsWritten`, `Integrity.AsWrittenRejectsMatchingFile` | `Integrity.IsFileDownloadedProperly` |
