# Cacheline Elias-Fano, modelled in Dafny

This project models `cacheline-ef`. It is a fixed-size encoding that packs sorted 40-bit values into
64-byte records. Each record (`CachelineEf`) stores up to `L = 44` values in three parts:

- a 32-bit offset, the high bits `vals[0] >> 8` of the first value;
- one low byte per value;
- a 128-bit bitmap held in two 64-bit words. Value `i` sets the bit at position `i + ((vals[i] >> 8) - offset)`.

A value is decoded with one select query on the bitmap. The rank-`idx` one bit sits at position
`one_pos`. The value is then `256 * offset + 256 * (one_pos - idx) + low[idx]`. The vector
(`CachelineEfVec`) cuts a sorted input into runs of 44 values and stores one record per run.
Global index `i` is decoded from record `i / 44` at position `i % 44`.

The model has four modules:

- `Bits` (bits.dfy) is the bit-level view of a 64-bit word, least significant bit first. It also has the two
  word primitives of the decoder. `CountOnes` models `count_ones`. `SelectInWord` models
  `select_in_word` from the external `common_traits` crate: the position of the set bit of rank `k`,
  defined when `k` is below the word's popcount. The lemmas about them are stated over
  sequences of booleans, so the 128-bit bitmap is the concatenation of the two words' bits.
- `Chunk` (chunk.dfy) is the record codec. `TryNew` is an imperative method with the source's two loops:
  one fills the low-byte array and one ORs bits into the two-word array. It is proved against the
  predicate `Encodes`. `OnePos` is the two-word select. `Index` is the decoder. `RoundTrip` is the
  lossless-decoding theorem.
- `EfVec` (vec.dfy) is the chunked vector. `TryNew` is the `step_by(L)` loop that pushes one record per
  run. `New`, `Index`, `IndexUnchecked` and `Len` follow the source, and `Prefetch` is a no-op.
  `IndexRoundTrip` is the whole-vector round trip.
- `Wrappers` (wrappers.dfy) holds the `Option` type that stands for Rust's `Option`.

Values are `u64`, modelled as integers in `[0, 2^64)`. Bytes are integers in `[0, 256)`. The
offset is an integer in `[0, 2^32)`. The bitmap words are `bv64`. The source's `v >> 8` and `v & 0xff`
on non-negative values are written `v / 256` and `v % 256`. A Rust panic (`assert!`, `expect`, an
index out of bounds) becomes a precondition. A `None` return is an `Option` result.

How the code behaves at its edges, which the model follows:

- A chunk takes 1 to 44 values (the two `assert!`s at src/lib.rs:126-131).
- The vector cuts the input with `step_by(L)` and encodes the last run as it is, with fewer than 44
  values when `n` is not a multiple of 44 (src/lib.rs:52-53).
- The doc comments of `try_new` and `new` (src/lib.rs:44-49 and src/lib.rs:62-67) say that they panic
  on unsorted input and on a chunk whose span is too large. The code returns `None` for a too-large
  span (src/lib.rs:133-135), and it never detects an unsorted input (see "## Findings"). The model
  therefore makes sortedness a precondition.
- An input value of 2^40 or more panics (src/lib.rs:144-149), and so does an out-of-bounds `index`.
  Both are preconditions.
- The 2^40 bound is checked only on the last value of a chunk, and only after the span check
  (src/lib.rs:133-149). A chunk whose span is too wide therefore returns `None` even when its values are
  too large. So `Chunk.TryNew` requires `Span(vals) <= MaxSpan ==> vals[|vals| - 1] < 2^40`, not
  the bound alone. `EfVec.InRange` states the same condition for every run that the loop reaches.

## Model

| member | source | states |
|---|---|---|
| `Bits.CountOnes` | src/lib.rs:180 | `count_ones` of a word is the number of its set bits, at most 64 |
| `Bits.Count` | src/lib.rs:180 | the number of set bits of a bit sequence is at most its length |
| `Bits.CountAppend` | src/lib.rs:180-185 | the popcount of a concatenation is the sum of the popcounts |
| `Bits.Select` | src/lib.rs:182-184 | select of rank `k` is a set position `r` with exactly `k` set bits before it, and `k <= r` |
| `Bits.SelectUnique` | src/lib.rs:182-184 | a set bit with `k` set bits before it is the result of select of rank `k`, so the contract of select determines it |
| `Bits.SelectInWord` | src/lib.rs:182-184 | `select_in_word(w, k)` for `k < count_ones(w)` is a set bit of `w` below 64 with exactly `k` set bits before it |
| `Bits.SelectAppend` | src/lib.rs:180-185 | select on `a + b` is select on `a` when `a` holds more than `k` set bits, else the length of `a` plus select of rank `k - Count(a)` on `b` |
| `Bits.TwoWordSelect` | src/lib.rs:180-185 | the decoder's split over `high_boundaries[0]` and `[1]` equals select on the 128-bit concatenation |
| `Bits.SetBit` | src/lib.rs:167 | the bitwise OR of `w` and `1 << q` for `q < 64`; its meaning is stated by `Bits.SetBitAt` |
| `Bits.SetBitAt` | src/lib.rs:167 | OR-ing `1 << q` into a word sets bit `q` and leaves every other bit unchanged |
| `Bits.PrefixCount` | src/lib.rs:160-168 | when the set bits are exactly strictly increasing positions, a prefix holds as many set bits as positions below its end |
| `Bits.SelectOfPositions` | src/lib.rs:160-168 | when the set bits are exactly strictly increasing positions `ps`, the popcount is the number of positions and select of rank `k` is `ps[k]` |
| `Chunk.HighDeltaBound` | src/lib.rs:133-135 | two values at most 21504 apart differ by at most 84 in `v >> 8` |
| `Chunk.PositionsLayout` | src/lib.rs:160-168 | for sorted in-range input the positions `i + ((vals[i] >> 8) - offset)` are strictly increasing, at least `i` and below 128, and the high deltas lie in `[0, 84]` |
| `Chunk.BitmapAt` | src/lib.rs:167 | bit `p` of the bitmap is bit `p % 64` of word `p / 64` |
| `Chunk.MarksNothing` | src/lib.rs:160 | the zeroed words `[0u64; 2]` have no bit set |
| `Chunk.MarkStep` | src/lib.rs:165-167 | one OR step into word `idx / 64` adds exactly position `idx` to the set bits |
| `Chunk.LowBits` | src/lib.rs:156-159 | low byte `i` is `vals[i] & 0xff` for `i < l` and 0 for the remaining bytes |
| `Chunk.HighBoundaries` | src/lib.rs:160-168 | the bitmap loop sets exactly the bits at the positions of the values, and its index check never fails |
| `Chunk.EncodesWf` | src/lib.rs:160-168 | the bitmap of an encoding of `l` values has exactly `l` set bits |
| `Chunk.EncodedRecord` | src/lib.rs:169-173 | the record built from the offset, the low bytes and the two words encodes the values, and decoding gives each one back |
| `Chunk.TryNew` | src/lib.rs:125-174 | returns `None` exactly when `vals[l-1] - vals[0] > 21504`; otherwise a record with offset `vals[0] >> 8` that fits 32 bits, the low bytes and the marking bitmap, whose decoding gives back every input value; panics are preconditions |
| `Chunk.OnePos` | src/lib.rs:180-185 | `one_pos` is the position of the rank-`idx` set bit of the 128-bit bitmap, and `idx <= one_pos < 128` |
| `Chunk.Index` | src/lib.rs:179-188 | the decoded value's high part `v >> 8` is the offset plus the zero bits before the rank-`idx` one bit, and its low byte is `low_bits[idx]` |
| `Chunk.RoundTrip` | src/lib.rs:179-188 | for every `i < l`, decoding the encoding of `vals` at `i` gives `vals[i]` (the property the randomised test at src/lib.rs:213-229 checks) |
| `Chunk.IndexOrderCheckPasses` | src/lib.rs:161-164 | the as-written check `i >= last` with `last = i` passes on every input |
| `Chunk.IndexOrderCheck` | src/lib.rs:161-164 | the loop's sortedness check as written, comparing each index `i` with the previous index; its meaning is stated by `Chunk.IndexOrderCheckPasses` |
| `Chunk.IndexOrderCheckAcceptsUnsorted` | src/lib.rs:133-168 | the unsorted input `[0, 300, 5]` passes the span check and the 2^40 check, is accepted by the check as written, and marks the positions `[0, 2, 2]`, which are not strictly increasing |
| `Chunk.IndexOrderCheckAcceptsUnderflow` | src/lib.rs:133-165 | the unsorted input `[256, 0, 300]` passes the span check, the 2^40 check and the check as written, and at index 1 the high delta `(v >> 8) - offset` is negative |
| `Chunk.ValueOrderCheckFrom` | src/lib.rs:161-164 | from index `i`, the value check passes exactly when the suffix is sorted and starts at or above `last` |
| `Chunk.ValueOrderCheckSorted` | src/lib.rs:161-164 | the intended value check passes exactly on sorted inputs |
| `EfVec.RunLength` | src/lib.rs:52-53 | each run `vals[i..min(i + L, n)]` holds between 1 and 44 values and ends at `min(44k + 44, n)` |
| `EfVec.RunSorted` | src/lib.rs:52-53 | every run of a sorted input is sorted |
| `EfVec.RunEncodable` | src/lib.rs:52-53 | a run that the loop reaches and that fits is a valid input for the chunk encoder |
| `EfVec.TryNew` | src/lib.rs:50-60 | `Some` exactly when every run fits; then `ceil(n/44)` chunks, chunk `k` encodes `vals[44k .. min(44k+44, n)]`, `len == n`, and `index(i) == vals[i]` for every `i < n` |
| `EfVec.New` | src/lib.rs:68-70 | `try_new` followed by `expect`: when every run fits, the vector built from the input, which gives back every value |
| `EfVec.IndexRoundTrip` | src/lib.rs:75-83 | in the vector built from `vals`, `index(i) == vals[i]` for every `i < n`, read from chunk `i / 44` at `i % 44` |
| `EfVec.BuildsRoundTrip` | src/lib.rs:50-60 | the vector built from fitting runs keeps the invariant that every chunk stores as many values as its run, and gives every value back |
| `EfVec.Index` | src/lib.rs:75-83 | `index(i)` reads chunk `i / 44` at position `i % 44`, for `i < len`; its meaning is stated by `EfVec.IndexRoundTrip` |
| `EfVec.IndexUnchecked` | src/lib.rs:89-92 | `index_unchecked(i)` agrees with `index(i)` whenever `i < len` |
| `EfVec.Len` | src/lib.rs:85-87 | `len()` is the stored length, and the chunk count is its ceiling division by 44 |
| `EfVec.Prefetch` | src/lib.rs:93-96 | `prefetch` is an empty method that changes nothing; its meaning is stated by `EfVec.PrefetchThenIndex` |
| `EfVec.PrefetchThenIndex` | src/lib.rs:93-96 | prefetches before a lookup leave its result unchanged |

## Findings

| source | as written | input that shows it | evidently intended | confidence | as-written member | corrected member |
|---|---|---|---|---|---|---|
| src/lib.rs:161-164 | the check meant to reject unsorted input asserts `i >= last` and then sets `last = i`, so it compares loop indices and never fails | `[0, 300, 5]` passes every check and returns `Some` of a record with 2 set bits for 3 values; `[256, 0, 300]` passes every check and underflows at src/lib.rs:165 | assert `v >= last` and set `last = v`, rejecting exactly the unsorted inputs | high (not executed) | `Chunk.IndexOrderCheckAcceptsUnsorted` | `Chunk.ValueOrderCheckSorted` |

The encoders' precondition `Sorted(vals)` is exactly what the corrected check accepts
(`Chunk.ValueOrderCheckSorted`). The rest of the model relies on it. The loop in
`Chunk.HighBoundaries` keeps the index check as written, and that check always holds.

## Left out

- The body of `prefetch_index` (src/lib.rs:192-211): raw-pointer arithmetic and architecture-specific cache hints with no observable effect. `EfVec.Prefetch` is an empty method. The vector is an immutable value, so a method without a `modifies` clause cannot change it.
- Timing and latency, which are the only effects of a prefetch and the reason for the one-cacheline layout.
- `size_in_bytes` and the `size()` test (src/lib.rs:98-100, src/lib.rs:231-234): memory-layout facts (`repr(C)`, `align(64)`, 64 bytes) that have no meaning for Dafny values.
- The `mem_dbg` and `epserde` derives and the zero-copy attributes (src/lib.rs:36-37, src/lib.rs:107-112): serialization and debugging glue. The `Default` and `Clone` derives are left out for the same reason.
- Genericity over the backing store `E: AsRef<[CachelineEf]>`: the chunks are a `seq<CachelineEf>`.
- The random generator of the test (src/lib.rs:216-221): its assertion is `Chunk.RoundTrip`.
- `get_unchecked` (src/lib.rs:82, src/lib.rs:91) is an ordinary sequence access, under the bound that the assertion or the precondition gives.
- `select_in_word` for a rank at or above the word's popcount: the external crate's behaviour there is not part of this model, so `Chunk.Index` requires `idx` below the bitmap's popcount.
- `Chunk.Index` is not modelled for positions `l <= idx < 44` of a partial record. They hold no value, and the vector never asks for them.
- The `u64` subtraction `vals[l - 1] - vals[0]` at src/lib.rs:133 can underflow only on unsorted input. `Chunk.Span` subtracts as integers, which agrees with the code on the sorted inputs that the encoders require.
- `usize` overflow of `i + L` and of the index arithmetic: indices are unbounded naturals.
- `EfVec.Index` carries no postcondition of its own. What it returns is stated by `EfVec.IndexRoundTrip`, `EfVec.TryNew` and `EfVec.IndexUnchecked`.
