/**
 The two passes of the benchmark over the timestamp column: a sequential
 elementwise apply of `AddHour`, then a chunked pass that maps `ProcessChunk`
 over the chunks in chunk order (the worker pool, modelled as an ordered map)
 and concatenates the results. The chunked pass reads the column that the
 sequential pass already rewrote, so every timestamp ends two hours later.
 */
module Benchmark {
  import opened Sequences
  import opened Dates
  import opened Partition

  /** The sequential pass: `AddHour` applied to every element in place of the column. */
  function ApplyAddHour(col: seq<int>): (r: seq<int>)
    ensures |r| == |col|
    ensures forall i :: 0 <= i < |col| ==> r[i] - col[i] == HourMinutes
  {
    Map(AddHour, col)
  }

  /** The worker function: shifts one chunk by an hour, element by element. */
  function ProcessChunk(chunk: seq<int>): (r: seq<int>)
    ensures |r| == |chunk|
    ensures forall i :: 0 <= i < |chunk| ==> r[i] == AddHour(chunk[i])
  {
    ApplyAddHour(chunk)
  }

  /** The chunked pass: split by the worker count, process every chunk, and
      concatenate the processed chunks in chunk order. It fails, before any
      chunk is processed, exactly when the column is shorter than the worker
      count; otherwise it keeps the column's length. */
  function ChunkedApply(col: seq<int>, k: nat): (r: Result<seq<int>>)
    requires k >= 1
    ensures r.Failure? <==> |col| < k
    ensures r.Success? ==> |r.value| == |col|
  {
    match Split(col, k)
    case Failure(e) => Failure(e)
    case Success(cs) =>
      MapOverChunks(cs);
      FlattenChunks(col, |col| / k);
      Success(Flatten(Map(ProcessChunk, cs)))
  }

  /** Processing chunk by chunk and concatenating equals processing the
      concatenation: order follows chunk order. */
  lemma {:induction false} MapOverChunks(cs: seq<seq<int>>)
    ensures Flatten(Map(ProcessChunk, cs)) == ApplyAddHour(Flatten(cs))
  {
    if |cs| > 0 {
      var rest := Map(ProcessChunk, cs[1..]);
      assert Map(ProcessChunk, cs) == [ProcessChunk(cs[0])] + rest;
      assert ([ProcessChunk(cs[0])] + rest)[1..] == rest;
      MapOverChunks(cs[1..]);
      MapAppend(AddHour, cs[0], Flatten(cs[1..]));
    }
  }

  /** For any column and any worker count it accepts, the chunked pass
      produces the same column, element for element and in the same order,
      as the sequential pass. */
  lemma ChunkedEqualsSequential(col: seq<int>, k: nat)
    requires 1 <= k <= |col|
    ensures ChunkedApply(col, k) == Success(ApplyAddHour(col))
  {
    var cs := Chunks(col, |col| / k);
    MapOverChunks(cs);
    FlattenChunks(col, |col| / k);
  }

  /** The whole script: generate `count` timestamps from `start`, run the
      sequential pass, then run the chunked pass with `k` workers over its
      output. `sequential` is the column after the first pass; `final` is the
      column after the second, or the error that aborts it. */
  method RunBenchmark(start: int, count: nat, k: nat) returns (sequential: seq<int>, final: Result<seq<int>>)
    requires k >= 1
    ensures |sequential| == count
    ensures forall i :: 0 <= i < count ==>
      sequential[i] == start + (i + 1) * StepMinutes + HourMinutes
    ensures final.Failure? <==> count < k
    ensures final.Success? ==> |final.value| == count
    ensures final.Success? ==> forall i :: 0 <= i < count ==>
      final.value[i] == start + (i + 1) * StepMinutes + 2 * HourMinutes
  {
    var dates := GenerateDates(start, count);
    sequential := ApplyAddHour(dates);
    final := ChunkedApply(sequential, k);
    if count >= k {
      ChunkedEqualsSequential(sequential, k);
    }
  }

  /** The script with its own constants: two million hourly timestamps from
      1993-12-09 00:00. The first timestamp ends the run at 03:00 (one hour
      from generation, one from each pass). */
  method RunScript(k: nat) returns (sequential: seq<int>, final: Result<seq<int>>)
    requires k >= 1
    ensures |sequential| == SimulatedCount
    ensures final.Success? <==> k <= SimulatedCount
    ensures final.Success? ==> |final.value| == SimulatedCount
    ensures final.Success? ==> final.value[0] == Epoch + 3 * 60
    ensures final.Success? ==> forall i :: 0 <= i < SimulatedCount ==> final.value[i] == Epoch + (i + 3) * 60
  {
    sequential, final := RunBenchmark(Epoch, SimulatedCount, k);
  }
}
