/**
 * How the parallel downloader splits a file of `total` bytes into inclusive byte
 * ranges of `chunkSize` bytes, one per `Range: bytes=start-end` request.
 */
module ChunkPlan {

  /** An inclusive byte range, as a `Range: bytes=start-end` header states it. */
  datatype ByteRange = ByteRange(start: nat, end: int)
  {
    function Length(): int { end - start + 1 }

    predicate Contains(k: int) { start <= k <= end }
  }

  /** Multiplication by a positive factor preserves order. */
  lemma MulMonotone(a: int, b: int, c: int)
    requires a <= b && c > 0
    ensures a * c <= b * c
  {
    assert b * c - a * c == (b - a) * c;
  }

  /**
   * The number of chunks: one when the file is smaller than a chunk, otherwise the
   * ceiling of `total / chunkSize`.
   */
  function NumChunks(total: int, chunkSize: int): (n: nat)
    requires chunkSize > 0
    ensures n >= 1
    ensures total <= chunkSize ==> n == 1
    ensures total >= chunkSize ==> (n - 1) * chunkSize < total <= n * chunkSize
  {
    if total < chunkSize then 1
    else
      var q := (total + chunkSize - 1) / chunkSize;
      assert q * chunkSize <= total + chunkSize - 1 < q * chunkSize + chunkSize;
      assert (q - 1) * chunkSize == q * chunkSize - chunkSize;
      MulMonotone(1, q, chunkSize);
      q
  }

  /** Range `i` of `n`: it starts at `i * chunkSize`; the last one ends at `total - 1`. */
  function ChunkAt(i: nat, n: nat, total: int, chunkSize: int): (r: ByteRange)
    requires chunkSize > 0
    ensures r.start == i * chunkSize
    ensures i < n - 1 ==> r.Length() == chunkSize
    ensures i >= n - 1 ==> r.end == total - 1
  {
    var start := i * chunkSize;
    ByteRange(start, if i < n - 1 then start + chunkSize - 1 else total - 1)
  }

  /** The planned ranges, in the order the workers are launched. */
  function Plan(total: int, chunkSize: int): (p: seq<ByteRange>)
    requires chunkSize > 0
    ensures |p| == NumChunks(total, chunkSize)
    ensures p[0].start == 0
    ensures p[|p| - 1].end == total - 1
    ensures forall i :: 0 <= i < |p| ==> p[i].start == i * chunkSize
  {
    var n := NumChunks(total, chunkSize);
    seq(n, i requires 0 <= i < n => ChunkAt(i, n, total, chunkSize))
  }

  /**
   * A non-empty file starts at offset 0, every range but the last holds exactly
   * `chunkSize` bytes and is followed directly by the next one, and the last range
   * ends at `total - 1` and holds between 1 and `chunkSize` bytes.
   */
  lemma PlanContiguous(total: int, chunkSize: int)
    requires total >= 1 && chunkSize > 0
    ensures var p := Plan(total, chunkSize);
      && p[0].start == 0
      && (forall i :: 0 <= i < |p| - 1 ==> p[i].Length() == chunkSize && p[i + 1].start == p[i].end + 1)
      && p[|p| - 1].end == total - 1
      && 1 <= p[|p| - 1].Length() <= chunkSize
  {
    var p := Plan(total, chunkSize);
    var n := |p|;
    forall i | 0 <= i < n - 1
      ensures p[i].Length() == chunkSize && p[i + 1].start == p[i].end + 1
    {
      assert (i + 1) * chunkSize == i * chunkSize + chunkSize;
    }
    assert p[n - 1].start == (n - 1) * chunkSize;
    assert (n - 1) * chunkSize == n * chunkSize - chunkSize;
  }

  /** Ranges are pairwise disjoint: each one ends before any later one starts. */
  lemma PlanDisjoint(total: int, chunkSize: int)
    requires chunkSize > 0
    ensures var p := Plan(total, chunkSize);
      forall i, j :: 0 <= i < j < |p| ==> p[i].end < p[j].start
  {
    var p := Plan(total, chunkSize);
    forall i, j | 0 <= i < j < |p|
      ensures p[i].end < p[j].start
    {
      MulMonotone(i + 1, j, chunkSize);
      assert (i + 1) * chunkSize == i * chunkSize + chunkSize;
    }
  }

  /** No range reaches past the last byte of the file. */
  lemma PlanEndsInside(total: int, chunkSize: int)
    requires chunkSize > 0
    ensures var p := Plan(total, chunkSize);
      forall i :: 0 <= i < |p| ==> p[i].end <= total - 1
  {
    var p := Plan(total, chunkSize);
    var n := |p|;
    forall i | 0 <= i < n - 1
      ensures p[i].end <= total - 1
    {
      MulMonotone(i + 1, n - 1, chunkSize);
      assert (i + 1) * chunkSize == i * chunkSize + chunkSize;
    }
  }

  /**
   * Every offset of the file lies in exactly one planned range, the one with index
   * `k / chunkSize`.
   */
  lemma PlanCovers(total: int, chunkSize: int, k: int)
    requires chunkSize > 0 && 0 <= k < total
    ensures var p := Plan(total, chunkSize);
      && k / chunkSize < |p|
      && forall i :: 0 <= i < |p| ==> (p[i].Contains(k) <==> i == k / chunkSize)
  {
    var p := Plan(total, chunkSize);
    var n := |p|;
    var q := k / chunkSize;
    DivBounds(k, chunkSize);
    if q >= n {
      MulMonotone(n, q, chunkSize);
      assert false;
    }
    assert p[q].start == q * chunkSize;
    assert p[q].Contains(k);
    PlanDisjoint(total, chunkSize);
    forall i | 0 <= i < n && i != q
      ensures !p[i].Contains(k)
    {
      if i < q {
        assert p[i].end < p[q].start;
      } else {
        assert p[q].end < p[i].start;
      }
    }
  }

  /** The quotient `k / d` places `k` inside the block of `d` numbers it starts. */
  lemma DivBounds(k: int, d: int)
    requires 0 <= k && d > 0
    ensures 0 <= k / d && (k / d) * d <= k < (k / d) * d + d
  {
  }

  /**
   * A file whose advertised size is zero (or negative) still gets one range,
   * `[0, total - 1]`, which holds no byte.
   */
  lemma PlanOfEmptyFile(total: int, chunkSize: int)
    requires chunkSize > 0 && total <= 0
    ensures Plan(total, chunkSize) == [ByteRange(0, total - 1)]
    ensures Plan(total, chunkSize)[0].Length() <= 0
  {
  }

  /** A file of exactly one chunk's size is one range. */
  lemma PlanOfExactChunk(chunkSize: int)
    requires chunkSize > 0
    ensures Plan(chunkSize, chunkSize) == [ByteRange(0, chunkSize - 1)]
  {
  }

  /** 10 MiB in chunks of 4 MiB: two full chunks and one of 2 MiB. */
  lemma PlanOfTenMebibytes()
    ensures Plan(10485760, 4194304)
         == [ByteRange(0, 4194303), ByteRange(4194304, 8388607), ByteRange(8388608, 10485759)]
  {
    assert NumChunks(10485760, 4194304) == 3;
  }
}
