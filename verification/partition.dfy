/**
 Splitting the column into contiguous chunks for the worker pool.

 The chunk size is the column length floor-divided by the number of workers,
 and chunks start at every multiple of that size below the length, each one
 the clamped slice from its start. A remainder is not folded into an earlier
 chunk: it forms its own shorter trailing chunk, so there can be more chunks
 than workers. A chunk size of zero makes the range of chunk starts fail.
 */
module Partition {
  import opened Sequences

  /** Python's `range()` with a zero step raises `ValueError`. */
  datatype Error = ZeroStep

  datatype Result<T> = Success(value: T) | Failure(error: Error)

  function Min(a: int, b: int): (m: int)
  {
    if a <= b then a else b
  }

  /** Floor division of the column length by the worker count. */
  function ChunkSize(n: nat, k: nat): (size: nat)
    requires k >= 1
    ensures size * k <= n < (size + 1) * k
    ensures size == 0 <==> n < k
  {
    n / k
  }

  /** `range(lo, hi, step)` for a positive step: `lo`, `lo + step`, ... while below `hi`. */
  function Steps(lo: int, hi: int, step: nat): (r: seq<int>)
    requires step > 0
    ensures |r| == 0 <==> hi <= lo
    ensures |r| > 0 ==> r[0] == lo
    ensures forall j :: 0 <= j < |r| ==> lo <= r[j] < hi
    ensures forall j :: 0 <= j < |r| - 1 ==> r[j] + step < hi
    ensures |r| > 0 ==> r[|r| - 1] + step >= hi
    decreases hi - lo
  {
    if lo >= hi then [] else [lo] + Steps(lo + step, hi, step)
  }

  /** `range(lo, hi, step)` for a non-negative step, with the zero-step error. */
  function Range(lo: int, hi: int, step: nat): (r: Result<seq<int>>)
    ensures r.Failure? <==> step == 0
    ensures r.Success? ==> forall j :: 0 <= j < |r.value| ==> lo <= r.value[j] < hi
    ensures r.Success? ==> (|r.value| == 0 <==> hi <= lo)
  {
    if step == 0 then Failure(ZeroStep) else Success(Steps(lo, hi, step))
  }

  /** `s[i:i+size]` on a Series: the upper bound is clamped to the length. */
  function Slice<T>(s: seq<T>, i: nat, size: nat): (r: seq<T>)
    requires i <= |s|
    ensures |r| == Min(size, |s| - i)
    ensures forall o :: 0 <= o < |r| ==> r[o] == s[i + o]
  {
    s[i .. Min(i + size, |s|)]
  }

  /** The list of slices, one per start in `range(0, len, size)`. */
  function Chunks<T>(s: seq<T>, size: nat): (cs: seq<seq<T>>)
    requires size > 0
    ensures |cs| == |Steps(0, |s|, size)|
    ensures forall j :: 0 <= j < |cs| ==> 0 < |cs[j]| <= size
    ensures forall j :: 0 <= j < |cs| - 1 ==> |cs[j]| == size
  {
    var starts := Steps(0, |s|, size);
    seq(|starts|, j requires 0 <= j < |starts| => Slice(s, starts[j], size))
  }

  /** Chunk size from the worker count, then the chunk list; fails exactly
      when the column is shorter than the worker count. */
  function Split<T>(s: seq<T>, k: nat): (r: Result<seq<seq<T>>>)
    requires k >= 1
    ensures r.Failure? <==> |s| < k
    ensures r.Success? ==> forall j :: 0 <= j < |r.value| ==> 0 < |r.value[j]| <= |s| / k
  {
    var size := ChunkSize(|s|, k);
    match Range(0, |s|, size)
    case Failure(e) => Failure(e)
    case Success(_) => Success(Chunks(s, size))
  }

  /** Chunk starts are exactly the multiples of the step: the j-th start is `lo + j * step`. */
  lemma {:induction false} StepsClosedForm(lo: int, hi: int, step: nat)
    requires step > 0
    ensures forall j :: 0 <= j < |Steps(lo, hi, step)| ==> Steps(lo, hi, step)[j] == lo + j * step
    decreases hi - lo
  {
    if lo < hi {
      var r := Steps(lo, hi, step);
      var rest := Steps(lo + step, hi, step);
      StepsClosedForm(lo + step, hi, step);
      forall j | 0 < j < |r|
        ensures r[j] == lo + j * step
      {
        assert r[j] == rest[j - 1] == lo + step + (j - 1) * step;
      }
    }
  }

  /** Consecutive starts are exactly one step apart. */
  lemma {:induction false} StepsNext(lo: int, hi: int, step: nat, j: nat)
    requires step > 0
    requires j + 1 < |Steps(lo, hi, step)|
    ensures Steps(lo, hi, step)[j + 1] == Steps(lo, hi, step)[j] + step
    decreases hi - lo
  {
    if j > 0 {
      StepsNext(lo + step, hi, step, j - 1);
    }
  }

  /** Starts strictly increase, at least one step apart. */
  lemma {:induction false} StepsSpread(lo: int, hi: int, step: nat, i: nat, j: nat)
    requires step > 0
    requires i < j < |Steps(lo, hi, step)|
    ensures Steps(lo, hi, step)[i] + step <= Steps(lo, hi, step)[j]
    decreases j - i
  {
    StepsNext(lo, hi, step, i);
    if i + 1 < j {
      StepsSpread(lo, hi, step, i + 1, j);
    }
  }

  /** Everything before the j-th chunk start (or the whole column, once past
      the last chunk). */
  function Boundary<T>(s: seq<T>, size: nat, j: nat): (b: nat)
    requires size > 0
  {
    var starts := Steps(0, |s|, size);
    if j < |starts| then starts[j] else |s|
  }

  /** Unfolds the chunk list at one index. */
  lemma ChunkSlice<T>(s: seq<T>, size: nat, j: nat)
    requires size > 0
    requires j < |Chunks(s, size)|
    ensures Chunks(s, size)[j] == Slice(s, Steps(0, |s|, size)[j], size)
  {
  }

  /** The j-th chunk, in closed form: it starts at `j * size`, inside the
      column, and runs for `size` elements or up to the end of the column. */
  lemma ChunkAt<T>(s: seq<T>, size: nat, j: nat)
    requires size > 0
    requires j < |Chunks(s, size)|
    ensures j * size < |s|
    ensures Chunks(s, size)[j] == s[j * size .. Min(j * size + size, |s|)]
  {
    StepsClosedForm(0, |s|, size);
    ChunkSlice(s, size, j);
  }

  /** The boundary after the j-th chunk is where that chunk's slice ends. */
  lemma BoundaryNext<T>(s: seq<T>, size: nat, j: nat)
    requires size > 0
    requires 0 < j <= |Steps(0, |s|, size)|
    ensures Boundary(s, size, j) == Min(Steps(0, |s|, size)[j - 1] + size, |s|)
  {
    if j < |Steps(0, |s|, size)| {
      StepsNext(0, |s|, size, j - 1);
    }
  }

  /** The j-th chunk spans the column between two consecutive boundaries. */
  lemma ChunkBetween<T>(s: seq<T>, size: nat, j: nat)
    requires size > 0
    requires 0 < j <= |Chunks(s, size)|
    ensures Boundary(s, size, j - 1) <= Boundary(s, size, j) <= |s|
    ensures Chunks(s, size)[j - 1] == s[Boundary(s, size, j - 1) .. Boundary(s, size, j)]
  {
    BoundaryNext(s, size, j);
    ChunkSlice(s, size, j - 1);
  }

  /** The first `j` chunks, concatenated, are the column up to the j-th boundary. */
  lemma {:induction false} FlattenChunksPrefix<T>(s: seq<T>, size: nat, j: nat)
    requires size > 0
    requires j <= |Chunks(s, size)|
    ensures Boundary(s, size, j) <= |s|
    ensures Flatten(Chunks(s, size)[..j]) == s[..Boundary(s, size, j)]
  {
    var cs := Chunks(s, size);
    if j == 0 {
      assert cs[..0] == [];
    } else {
      FlattenChunksPrefix(s, size, j - 1);
      var a := Boundary(s, size, j - 1);
      var b := Boundary(s, size, j);
      var c := cs[j - 1];
      ChunkBetween(s, size, j);
      assert cs[..j][..j - 1] == cs[..j - 1];
      FlattenStep(cs[..j], c, s[..a], s[a .. b]);
      SliceJoin(s, a, b);
    }
  }

  /** Appending one piece extends the concatenation by that piece. */
  lemma FlattenStep<T>(ps: seq<seq<T>>, c: seq<T>, x: seq<T>, y: seq<T>)
    requires |ps| > 0 && ps[|ps| - 1] == c
    requires Flatten(ps[..|ps| - 1]) == x && c == y
    ensures Flatten(ps) == x + y
  {
    assert ps == ps[..|ps| - 1] + [c];
    FlattenAppend(ps[..|ps| - 1], [c]);
    FlattenSingle(c);
  }

  lemma FlattenSingle<T>(c: seq<T>)
    ensures Flatten([c]) == c
  {
    assert [c][1..] == [];
  }

  lemma SliceJoin<T>(s: seq<T>, a: nat, b: nat)
    requires a <= b <= |s|
    ensures s[..a] + s[a .. b] == s[..b]
  {
  }

  /** Concatenating the chunks in order gives back the column exactly. */
  lemma FlattenChunks<T>(s: seq<T>, size: nat)
    requires size > 0
    ensures Flatten(Chunks(s, size)) == s
  {
    var cs := Chunks(s, size);
    FlattenChunksPrefix(s, size, |cs|);
    assert cs[..|cs|] == cs;
  }

  /** Position `p` lies inside the j-th chunk. */
  ghost predicate InChunk<T>(s: seq<T>, size: nat, j: int, p: int)
    requires size > 0
  {
    var cs := Chunks(s, size);
    0 <= j < |cs| && Steps(0, |s|, size)[j] <= p < Steps(0, |s|, size)[j] + |cs[j]|
  }

  /** Every position of the column lies in some chunk, at the offset its
      start leaves: the chunks leave no gaps. */
  lemma ChunkContaining<T>(s: seq<T>, size: nat, p: nat)
    requires size > 0
    requires p < |s|
    ensures exists j :: InChunk(s, size, j, p) && Chunks(s, size)[j][p - Steps(0, |s|, size)[j]] == s[p]
  {
    var starts := Steps(0, |s|, size);
    StepsLocate(0, |s|, size, p);
    var j :| 0 <= j < |starts| && starts[j] <= p < starts[j] + size;
    ChunkSlice(s, size, j);
    var c := Slice(s, starts[j], size);
    assert p - starts[j] < |c|;
    assert c[p - starts[j]] == s[p];
    assert InChunk(s, size, j, p);
  }

  /** Some start lies at most one step before any point of the range. */
  lemma {:induction false} StepsLocate(lo: int, hi: int, step: nat, p: int)
    requires step > 0
    requires lo <= p < hi
    ensures exists j ::
      0 <= j < |Steps(lo, hi, step)| && Steps(lo, hi, step)[j] <= p < Steps(lo, hi, step)[j] + step
    decreases hi - lo
  {
    var r := Steps(lo, hi, step);
    if p < lo + step {
      assert r[0] <= p < r[0] + step;
    } else {
      var rest := Steps(lo + step, hi, step);
      StepsLocate(lo + step, hi, step, p);
      var i :| 0 <= i < |rest| && rest[i] <= p < rest[i] + step;
      assert r[i + 1] == rest[i];
    }
  }

  /** No position lies in two chunks: the chunks do not overlap. */
  lemma ChunkUnique<T>(s: seq<T>, size: nat, p: int, i: int, j: int)
    requires size > 0
    requires InChunk(s, size, i, p) && InChunk(s, size, j, p)
    ensures i == j
  {
    if i < j {
      StepsSpread(0, |s|, size, i, j);
    } else if j < i {
      StepsSpread(0, |s|, size, j, i);
    }
  }

  lemma {:induction false} MulMonotone(a: nat, b: nat, c: nat)
    requires a <= b
    ensures a * c <= b * c
    decreases b - a
  {
    if a < b {
      MulMonotone(a, b - 1, c);
      assert b * c == (b - 1) * c + c;
    }
  }

  /** With `size` the chunk size, `(m - 1) * size < n <= m * size` for the
      `m` chunks of a non-empty column. */
  lemma ChunkCountBounds<T>(s: seq<T>, size: nat)
    requires size > 0
    requires |s| > 0
    ensures (|Chunks(s, size)| - 1) * size < |s| <= |Chunks(s, size)| * size
  {
    var m := |Chunks(s, size)|;
    StepsClosedForm(0, |s|, size);
    var last := Steps(0, |s|, size)[m - 1];
    assert last == (m - 1) * size;
    assert m * size == (m - 1) * size + size;
  }

  /** There is one chunk per started block of `size`: the count is `n / size` rounded up. */
  lemma ChunkCountCeil<T>(s: seq<T>, size: nat)
    requires size > 0
    ensures |Chunks(s, size)| == (|s| + size - 1) / size
  {
    var m := |Chunks(s, size)|;
    var x := |s| + size - 1;
    if |s| == 0 {
      assert x < size;
    } else {
      ChunkCountBounds(s, size);
      assert m * size <= x < (m + 1) * size;
      DivBetween(x, size, m);
    }
  }

  lemma DivBetween(x: nat, d: nat, q: nat)
    requires d > 0
    requires q * d <= x < (q + 1) * d
    ensures x / d == q
  {
    var q' := x / d;
    assert x == q' * d + x % d;
    if q' < q {
      MulMonotone(q' + 1, q, d);
    } else if q < q' {
      MulMonotone(q + 1, q', d);
    }
  }

  /** With `k` workers and at least `k` elements there are at least `k`
      chunks, and exactly `k` precisely when `k` divides the length; otherwise
      the remainder forms extra trailing chunks. */
  lemma ChunkCount<T>(s: seq<T>, k: nat)
    requires 1 <= k <= |s|
    ensures |Chunks(s, |s| / k)| >= k
    ensures |Chunks(s, |s| / k)| == k <==> |s| % k == 0
  {
    var size := ChunkSize(|s|, k);
    ChunkCountBounds(s, size);
    BlocksVersusWorkers(|s|, k, size, |Chunks(s, size)|);
  }

  /** The arithmetic behind the chunk count: `m` blocks of `n / k` that
      just cover `n` number at least `k`, and exactly `k` iff `k` divides `n`. */
  lemma BlocksVersusWorkers(n: nat, k: nat, size: nat, m: nat)
    requires 1 <= k <= n
    requires size == n / k
    requires (m - 1) * size < n <= m * size
    ensures m >= k
    ensures m == k <==> n % k == 0
  {
    assert size >= 1;
    assert n == k * size + n % k;
    if m < k {
      MulMonotone(m, k - 1, size);
    }
    assert m >= k;
    if n % k == 0 && m - 1 >= k {
      MulMonotone(k, m - 1, size);
    }
  }

  /** A single worker gets the whole column as one chunk. */
  lemma SingleWorker<T>(s: seq<T>)
    requires |s| >= 1
    ensures Split(s, 1) == Success([s])
  {
    assert Steps(0, |s|, |s|) == [0];
    assert Slice(s, 0, |s|) == s;
    assert Chunks(s, |s|) == [s];
  }

  /** Ten elements over three workers: size 3, and four chunks of lengths
      3, 3, 3 and 1, the last one holding the remainder. */
  lemma TenOverThree<T>(s: seq<T>)
    requires |s| == 10
    ensures Split(s, 3) == Success([s[0..3], s[3..6], s[6..9], s[9..10]])
  {
    assert Steps(9, 10, 3) == [9];
    assert Steps(6, 10, 3) == [6, 9];
    assert Steps(3, 10, 3) == [3, 6, 9];
    assert Steps(0, 10, 3) == [0, 3, 6, 9];
    assert Chunks(s, 3) == [s[0..3], s[3..6], s[6..9], s[9..10]];
  }
}
