/**
 * The single-stream downloader: stream the body into a fresh temporary file, then
 * rename it over the destination; on any failure return `False`, and in every case
 * remove the temporary file if it is still there.
 */
module AtomicDownload {
  import opened Wrappers
  import opened Bytes

  type Path = string

  /** The file system, as a map from path to contents. */
  class FileSystem {
    var files: map<Path, seq<byte>>

    constructor (initial: map<Path, seq<byte>>)
      ensures files == initial
    {
      files := initial;
    }

    /** The new, empty file `tempfile.mkstemp` returns. */
    method CreateEmpty(p: Path)
      modifies this
      ensures files == old(files)[p := []]
    {
      files := files[p := []];
    }

    /** A write through the handle to an open file. */
    method Append(p: Path, bytes: seq<byte>)
      requires p in files
      modifies this
      ensures files == old(files)[p := old(files)[p] + bytes]
    {
      files := files[p := files[p] + bytes];
    }

    /** `os.replace(src, dst)`: `dst` takes the contents of `src`, which disappears. */
    method Replace(src: Path, dst: Path)
      requires src in files
      modifies this
      ensures src != dst ==> files == (old(files) - {src})[dst := old(files)[src]]
      ensures src == dst ==> files == old(files)
    {
      if src != dst {
        files := (files - {src})[dst := files[src]];
      }
    }

    /** `os.remove(p)`. */
    method Remove(p: Path)
      requires p in files
      modifies this
      ensures files == old(files) - {p}
    {
      files := files - {p};
    }
  }

  /**
   * The streaming GET: it raises before any byte arrives, or it gives a status, the
   * chunks `iter_content` yields, and whether the stream then breaks with an error.
   */
  datatype StreamResponse =
    | ConnectionFailed
    | Reply(status: int, chunks: seq<seq<byte>>, breaksAfter: bool)

  /** `raise_for_status` raises for a 4xx or a 5xx status, and for no other. */
  predicate RaisesForStatus(status: int)
    ensures RaisesForStatus(status) <==> status / 100 == 4 || status / 100 == 5
  {
    400 <= status < 600
  }

  /**
   * When the atomic download succeeds: `temp` is the path `mkstemp` returns (`None`
   * when it raises), `writeFailsAt` the index of the first chunk whose write raises,
   * `replaceFails` whether `os.replace` raises.
   */
  predicate Succeeds(temp: Option<Path>, response: StreamResponse,
                     writeFailsAt: Option<nat>, replaceFails: bool)
  {
    && temp.Some?
    && response.Reply?
    && !RaisesForStatus(response.status)
    && (writeFailsAt.None? || writeFailsAt.value >= |response.chunks|)
    && !response.breaksAfter
    && !replaceFails
  }

  /**
   * The loop writing each streamed chunk to the open temporary file. It stops at
   * the write that raises, if any; the chunks before it are already written.
   */
  method StreamToFile(fs: FileSystem, t: Path, chunks: seq<seq<byte>>, writeFailsAt: Option<nat>)
    returns (failed: bool)
    requires t in fs.files
    modifies fs
    ensures failed <==> writeFailsAt.Some? && writeFailsAt.value < |chunks|
    ensures failed ==> fs.files == old(fs.files)[t := old(fs.files)[t] + Concat(chunks[..writeFailsAt.value])]
    ensures !failed ==> fs.files == old(fs.files)[t := old(fs.files)[t] + Concat(chunks)]
  {
    failed := false;
    ghost var base := fs.files[t];
    var i := 0;
    assert base + Concat(chunks[..0]) == base;
    while i < |chunks| && !failed
      invariant 0 <= i <= |chunks|
      invariant fs.files == old(fs.files)[t := old(fs.files)[t] + Concat(chunks[..i])]
      invariant failed ==> writeFailsAt == Some(i) && i < |chunks|
      invariant writeFailsAt.Some? ==> writeFailsAt.value >= i
      decreases |chunks| - i, if failed then 0 else 1
    {
      if writeFailsAt == Some(i) {
        failed := true;
      } else {
        assert chunks[..i + 1][..i] == chunks[..i];
        assert base + Concat(chunks[..i + 1]) == base + Concat(chunks[..i]) + chunks[i];
        fs.Append(t, chunks[i]);
        i := i + 1;
      }
    }
    assert !failed ==> chunks[..i] == chunks;
  }

  /**
   * `download_atomically`. A fresh temporary path is one that no file has and that
   * is not the destination. On success the destination holds the streamed bytes and
   * nothing else changes; on failure the file system is exactly as it was. Either
   * way the temporary file is gone.
   */
  method DownloadAtomically(fs: FileSystem, dest: Path, temp: Option<Path>, response: StreamResponse,
                            writeFailsAt: Option<nat>, replaceFails: bool)
    returns (ok: bool)
    requires temp.Some? ==> temp.value !in fs.files && temp.value != dest
    modifies fs
    ensures ok <==> Succeeds(temp, response, writeFailsAt, replaceFails)
    ensures ok ==> fs.files == old(fs.files)[dest := Concat(response.chunks)]
    ensures !ok ==> fs.files == old(fs.files)
    ensures temp.Some? ==> temp.value !in fs.files
  {
    ok := false;
    if temp.None? {
      return;
    }
    var t := temp.value;
    fs.CreateEmpty(t);
    var failed := false;
    match response {
      case ConnectionFailed =>
        failed := true;
      case Reply(status, chunks, breaksAfter) =>
        if RaisesForStatus(status) {
          failed := true;
        } else {
          failed := StreamToFile(fs, t, chunks, writeFailsAt);
          assert !failed ==> fs.files[t] == Concat(chunks);
          if !failed && breaksAfter {
            failed := true;
          }
        }
    }
    if !failed {
      if replaceFails {
        failed := true;
      } else {
        fs.Replace(t, dest);
        ok := true;
      }
    }
    // The `finally` block.
    if t in fs.files {
      fs.Remove(t);
    }
    assert old(fs.files) - {t} == old(fs.files);
  }
}
