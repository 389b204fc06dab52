/** Batch partitioning (`chunk` in TP2/app/etl.py): consecutive slices of at
    most `chunk_size` records, used to bound each write transaction. */
module Batching {
  import opened Seqs

  /** BATCH_SIZE, the number of records written per transaction. */
  const BatchSize: nat := 1000

  /** `range(0, len(data), chunk_size)` raises ValueError for a zero step. */
  datatype ChunkResult<T> = Batches(batches: seq<seq<T>>) | ZeroStep

  function Min(a: int, b: int): int { if a <= b then a else b }

  /** The slices `data[i:i + n]` for `i` in `range(0, len(data), n)`, for a
      positive `n`, peeled off the front one slice at a time. */
  function Slices<T>(data: seq<T>, n: nat): seq<seq<T>>
    requires n > 0
    decreases |data|
  {
    if data == [] then []
    else if |data| <= n then [data]
    else [data[..n]] + Slices(data[n..], n)
  }

  /** `chunk(data, chunk_size)`: a zero size is an error; a negative size
      gives an empty range and therefore no batches at all. */
  function Chunk<T>(data: seq<T>, size: int): (r: ChunkResult<T>)
    ensures r.ZeroStep? <==> size == 0
    ensures size < 0 ==> r == Batches([])
    ensures size > 0 ==> r.Batches? && Flatten(r.batches) == data
    ensures size > 0 ==> |r.batches| == (|data| + size - 1) / size
    ensures size > 0 ==> forall k :: 0 <= k < |r.batches| ==> 0 < |r.batches[k]| <= size
    ensures size > 0 ==> forall k :: 0 <= k < |r.batches| - 1 ==> |r.batches[k]| == size
  {
    if size == 0 then ZeroStep
    else if size < 0 then Batches([])
    else
      SlicesConcatenate(data, size);
      SlicesShape(data, size);
      Batches(Slices(data, size))
  }

  /** Concatenating the batches gives back the input: no record is omitted,
      duplicated or reordered. */
  lemma {:induction false} SlicesConcatenate<T>(data: seq<T>, n: nat)
    requires n > 0
    ensures Flatten(Slices(data, n)) == data
    decreases |data|
  {
    if data == [] {
    } else if |data| <= n {
      FlattenCons(data, []);
    } else {
      SlicesConcatenate(data[n..], n);
      FlattenCons(data[..n], Slices(data[n..], n));
      assert data[..n] + data[n..] == data;
    }
  }

  /** There are ceil(|data| / n) batches; each is non-empty and at most `n`
      long, and every batch but the last holds exactly `n` records. */
  lemma {:induction false} SlicesShape<T>(data: seq<T>, n: nat)
    requires n > 0
    ensures var r := Slices(data, n);
      |r| == (|data| + n - 1) / n &&
      (forall k :: 0 <= k < |r| ==> 0 < |r[k]| <= n) &&
      (forall k :: 0 <= k < |r| - 1 ==> |r[k]| == n)
    decreases |data|
  {
    if data == [] {
      assert (n - 1) / n == 0;
    } else if |data| <= n {
      assert (|data| + n - 1) / n == 1;
    } else {
      var rest := data[n..];
      SlicesShape(rest, n);
      assert (|rest| + n - 1) + n == |data| + n - 1;
      DivStep(|rest| + n - 1, n);
      var r := Slices(data, n);
      assert r == [data[..n]] + Slices(rest, n);
      forall k | 0 <= k < |r|
        ensures 0 < |r[k]| <= n && (k < |r| - 1 ==> |r[k]| == n)
      {
        if k > 0 { assert r[k] == Slices(rest, n)[k - 1]; }
      }
    }
  }

  /** Batch `k` is exactly `data[k*n : (k+1)*n]`, as the comprehension in
      `chunk` builds it. */
  lemma {:induction false} SlicesAt<T>(data: seq<T>, n: nat, k: nat)
    requires n > 0
    requires k < |Slices(data, n)|
    ensures k * n <= Min(k * n + n, |data|) <= |data|
    ensures Slices(data, n)[k] == data[k * n .. Min(k * n + n, |data|)]
    decreases |data|
  {
    if |data| <= n {
      assert k == 0;
    } else if k > 0 {
      var rest := data[n..];
      assert Slices(data, n) == [data[..n]] + Slices(rest, n);
      SlicesAt(rest, n, k - 1);
      assert (k - 1) * n + n == k * n;
      assert rest[(k - 1) * n .. Min((k - 1) * n + n, |rest|)]
          == data[k * n .. Min(k * n + n, |data|)];
    }
  }

  lemma DivStep(x: int, n: int)
    requires n > 0 && x >= 0
    ensures (x + n) / n == x / n + 1
  {
    var q, m := x / n, x % n;
    assert x == q * n + m;
    assert x + n == (q + 1) * n + m;
    DivUnique(x + n, n, q + 1, m);
  }

  lemma MultipleBounds(d: int, n: int)
    requires n > 0
    ensures d >= 1 ==> d * n >= n
    ensures d <= -1 ==> d * n <= -n
  {
    if d >= 1 { assert (d - 1) * n >= 0; }
    if d <= -1 { assert (-d - 1) * n >= 0; }
  }

  lemma SmallMultiple(d: int, n: int)
    requires n > 0 && -n < d * n < n
    ensures d == 0
  {
    MultipleBounds(d, n);
  }

  lemma DivUnique(a: int, n: int, q: int, m: int)
    requires n > 0 && 0 <= m < n && a == q * n + m
    ensures a / n == q
  {
    var q', m' := a / n, a % n;
    assert (q' - q) * n == m - m';
    assert -n < (q' - q) * n < n;
    SmallMultiple(q' - q, n);
  }
}
