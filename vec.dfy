/**
 * The chunked vector (`CachelineEfVec`): the input is cut into consecutive
 * runs of `L` values (the last run may be shorter and is not padded), each
 * run is encoded as one chunk, and global index `i` is decoded from chunk
 * `i / L` at local position `i % L`.
 */
module EfVec {
  import opened Wrappers
  import opened Chunk

  /** The chunks and the number of values they store. */
  datatype CachelineEfVec = CachelineEfVec(ef: seq<CachelineEf>, len: nat)

  function Min(a: int, b: int): int
  {
    if a <= b then a else b
  }

  /** Number of chunks for `n` values, `n.div_ceil(L)`. */
  function NumChunks(n: nat): nat
  {
    (n + L - 1) / L
  }

  /** Chunk `k` of `n` values covers positions `L * k` up to `min(L * k + L, n)`. */
  function ChunkEnd(n: nat, k: nat): int
  {
    Min(L * k + L, n)
  }

  /** Number of values in chunk `k`: `L`, except for a shorter last chunk. */
  function RunLength(n: nat, k: nat): (m: nat)
    requires k < NumChunks(n)
    ensures 0 < m <= L
    ensures L * k + m == ChunkEnd(n, k)
  {
    ChunkEnd(n, k) - L * k
  }

  /** The values that chunk `k` holds. */
  function Run(vals: seq<u64>, k: nat): (run: seq<u64>)
    requires k < NumChunks(|vals|)
    ensures |run| == RunLength(|vals|, k)
    ensures forall j :: 0 <= j < |run| ==> run[j] == vals[L * k + j]
  {
    vals[L * k .. ChunkEnd(|vals|, k)]
  }

  /** The first `m` runs pass the span check of `CachelineEf::try_new`. */
  predicate RunsFit(vals: seq<u64>, m: nat)
    requires m <= NumChunks(|vals|)
  {
    forall k :: 0 <= k < m ==> Span(Run(vals, k)) <= MaxSpan
  }

  /**
   * No chunk encoder panics: every run that is reached (all runs before it
   * fit) and that fits itself ends below 2^40.
   */
  predicate InRange(vals: seq<u64>)
  {
    forall k :: 0 <= k < NumChunks(|vals|) && RunsFit(vals, k + 1) ==> vals[ChunkEnd(|vals|, k) - 1] < ValueBound
  }

  /** `v` is the vector built from `vals`: chunk `k` encodes run `k`, and the length is `|vals|`. */
  predicate Builds(v: CachelineEfVec, vals: seq<u64>)
  {
    && v.len == |vals|
    && |v.ef| == NumChunks(|vals|)
    && forall k :: 0 <= k < |v.ef| ==> Encodes(v.ef[k], Run(vals, k))
  }

  /** The shape every vector keeps: one chunk per run, each storing as many values as its run. */
  predicate Valid(v: CachelineEfVec)
  {
    && |v.ef| == NumChunks(v.len)
    && forall k :: 0 <= k < |v.ef| ==> Wf(v.ef[k], RunLength(v.len, k))
  }

  /** A run of sorted values is sorted. */
  lemma RunSorted(vals: seq<u64>, k: nat)
    requires Sorted(vals) && k < NumChunks(|vals|)
    ensures Sorted(Run(vals, k))
  {
    var run := Run(vals, k);
    forall a, b | 0 <= a < b < |run|
      ensures run[a] <= run[b]
    {
      assert run[a] == vals[L * k + a] && run[b] == vals[L * k + b];
    }
  }

  /** Every run of a vector input that fits and is in range can be encoded on its own. */
  lemma RunEncodable(vals: seq<u64>, k: nat)
    requires Sorted(vals) && InRange(vals)
    requires k < NumChunks(|vals|) && RunsFit(vals, k + 1)
    ensures Encodable(Run(vals, k))
  {
    RunSorted(vals, k);
  }

  /** One more fitting run extends the fitting prefix. */
  lemma RunsFitStep(vals: seq<u64>, m: nat)
    requires m < NumChunks(|vals|) && RunsFit(vals, m)
    requires Span(Run(vals, m)) <= MaxSpan
    ensures RunsFit(vals, m + 1)
  {
  }

  /** A run that does not fit makes the whole input fail. */
  lemma RunsFitFails(vals: seq<u64>, m: nat)
    requires m < NumChunks(|vals|)
    requires Span(Run(vals, m)) > MaxSpan
    ensures !RunsFit(vals, NumChunks(|vals|))
  {
  }

  /** The vector built from an input whose runs all fit keeps the shape `Valid` and gives every value back. */
  lemma BuildsRoundTrip(v: CachelineEfVec, vals: seq<u64>)
    requires Sorted(vals) && InRange(vals) && RunsFit(vals, NumChunks(|vals|))
    requires Builds(v, vals)
    ensures Valid(v)
    ensures forall i :: 0 <= i < |vals| ==> Index(v, i) == vals[i]
  {
    if |vals| > 0 {
      IndexRoundTrip(v, vals, 0);
    }
    forall i | 0 <= i < |vals|
      ensures Index(v, i) == vals[i]
    {
      IndexRoundTrip(v, vals, i);
    }
  }

  /**
   * Construction (`try_new`): `Some` exactly when every run fits in a chunk,
   * and then the vector of the runs' encodings, `ceil(n / L)` chunks holding
   * `n` values, from which `Index` gives every value back. A panic in a chunk
   * encoder (an unsorted input, a value of 2^40 or more) is a precondition.
   */
  method TryNew(vals: seq<u64>) returns (r: Option<CachelineEfVec>)
    requires Sorted(vals) && InRange(vals)
    ensures r.Some? <==> RunsFit(vals, NumChunks(|vals|))
    ensures r.Some? ==> Builds(r.value, vals) && Valid(r.value)
    ensures r.Some? ==> forall i :: 0 <= i < |vals| ==> Index(r.value, i) == vals[i]
  {
    var n := |vals|;
    var p: seq<CachelineEf> := [];
    var i := 0;
    while i < n
      invariant i == L * |p| && |p| <= NumChunks(n)
      invariant i < n ==> |p| < NumChunks(n)
      invariant RunsFit(vals, |p|)
      invariant forall k :: 0 <= k < |p| ==> Encodes(p[k], Run(vals, k))
    {
      assert vals[i .. Min(i + L, n)] == Run(vals, |p|);
      RunSorted(vals, |p|);
      var c := Chunk.TryNew(vals[i .. Min(i + L, n)]);
      if c.None? {
        RunsFitFails(vals, |p|);
        return None;
      }
      RunsFitStep(vals, |p|);
      p := p + [c.value];
      i := i + L;
    }
    var v := CachelineEfVec(p, n);
    BuildsRoundTrip(v, vals);
    r := Some(v);
  }

  /** Construction that panics instead of returning `None` (`new`, `try_new` followed by `expect`). */
  method New(vals: seq<u64>) returns (v: CachelineEfVec)
    requires Sorted(vals) && InRange(vals)
    requires RunsFit(vals, NumChunks(|vals|))
    ensures Builds(v, vals) && Valid(v)
    ensures forall i :: 0 <= i < |vals| ==> Index(v, i) == vals[i]
  {
    var r := TryNew(vals);
    v := r.value;
  }

  /** The value at global index `i` (`index`); `i >= len` is an out-of-bounds panic, hence a precondition. */
  function Index(v: CachelineEfVec, i: nat): u64
    requires Valid(v) && i < v.len
  {
    Chunk.Index(v.ef[i / L], i % L)
  }

  /** `index_unchecked`: the same lookup without the bounds check, whose caller must keep `i < len`. */
  function IndexUnchecked(v: CachelineEfVec, i: nat): (x: u64)
    requires Valid(v) && i < v.len
    ensures x == Index(v, i)
  {
    Chunk.Index(v.ef[i / L], i % L)
  }

  /** The number of values stored (`len`); it determines the number of chunks. */
  function Len(v: CachelineEfVec): (n: nat)
    requires Valid(v)
    ensures NumChunks(n) == |v.ef|
  {
    v.len
  }

  /** `prefetch`: a cache hint with no observable effect, so it has no body and changes nothing. */
  method Prefetch(v: CachelineEfVec, i: nat)
  {
  }

  /** A lookup preceded by any prefetches returns what the lookup alone returns. */
  method PrefetchThenIndex(v: CachelineEfVec, i: nat) returns (x: u64)
    requires Valid(v) && i < v.len
    ensures x == Index(v, i)
  {
    Prefetch(v, i);
    Prefetch(v, i + L);
    x := Index(v, i);
  }

  /**
   * Whole-vector round trip: in the vector built from `vals`, every in-bounds
   * index decodes to the input value at that index.
   */
  lemma IndexRoundTrip(v: CachelineEfVec, vals: seq<u64>, i: nat)
    requires Sorted(vals) && InRange(vals) && RunsFit(vals, NumChunks(|vals|))
    requires Builds(v, vals)
    requires i < |vals|
    ensures Valid(v)
    ensures Index(v, i) == vals[i]
  {
    forall k | 0 <= k < |v.ef|
      ensures Wf(v.ef[k], RunLength(v.len, k))
    {
      RunEncodable(vals, k);
      EncodesWf(v.ef[k], Run(vals, k));
    }
    var k := i / L;
    RunEncodable(vals, k);
    RoundTrip(v.ef[k], Run(vals, k), i % L);
  }
}
