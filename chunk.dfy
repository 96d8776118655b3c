/**
 * One cacheline-sized chunk (`CachelineEf`): up to 44 sorted 40-bit values
 * packed as a 32-bit offset (the high bits of the first value), one low byte
 * per value, and a 128-bit bitmap in which value `i` sets the bit at
 * position `i + (vals[i] / 256 - vals[0] / 256)`.
 */
module Chunk {
  import opened Wrappers
  import opened Bits

  /** Number of values stored per chunk (`L`). */
  const L: nat := 44

  /** Widest span `vals[l - 1] - vals[0]` a chunk can hold: 256 * (128 - L) = 21504. */
  const MaxSpan: nat := 256 * (128 - L)

  /** Values must lie below 2^40. */
  const ValueBound: nat := 0x100_0000_0000

  type u64 = x: int | 0 <= x < 0x1_0000_0000_0000_0000
  type u32 = x: int | 0 <= x < 0x1_0000_0000
  type u8 = x: int | 0 <= x < 0x100

  /** The 64-byte record: two bitmap words, the reduced offset, 44 low bytes. */
  datatype CachelineEf = CachelineEf(highBoundaries: seq<bv64>, reducedOffset: u32, lowBits: seq<u8>)

  predicate Sorted(vals: seq<int>)
  {
    forall i, j :: 0 <= i < j < |vals| ==> vals[i] <= vals[j]
  }

  function Span(vals: seq<u64>): int
    requires |vals| > 0
  {
    vals[|vals| - 1] as int - vals[0] as int
  }

  /** What a chunk can hold: 1 to 44 sorted values, below 2^40, within `MaxSpan` of each other. */
  predicate Encodable(vals: seq<u64>)
  {
    && 0 < |vals| <= L
    && Sorted(vals)
    && Span(vals) <= MaxSpan
    && vals[|vals| - 1] < ValueBound
  }

  /** The high delta of value `i`: how many multiples of 256 it lies above the chunk's offset. */
  function HighDelta(vals: seq<u64>, i: nat): int
    requires i < |vals|
  {
    (vals[i] / 256) as int - (vals[0] / 256) as int
  }

  /** The positions of the bitmap bits that mark the values, `i + delta[i]`. */
  function Positions(vals: seq<u64>): (ps: seq<int>)
    ensures |ps| == |vals|
    ensures forall i :: 0 <= i < |vals| ==> ps[i] == i + HighDelta(vals, i)
  {
    seq(|vals|, i requires 0 <= i < |vals| => i + HighDelta(vals, i))
  }

  /** The record has its fixed shape: two bitmap words and `L` low bytes. */
  predicate Shaped(c: CachelineEf)
  {
    |c.highBoundaries| == 2 && |c.lowBits| == L
  }

  /** The 128 bits of the bitmap, word 0 first, each word least significant bit first. */
  function Bitmap(c: CachelineEf): (s: seq<bool>)
    requires Shaped(c)
    ensures |s| == 128
  {
    WordBits(c.highBoundaries[0]) + WordBits(c.highBoundaries[1])
  }

  /** Bit `p` of the bitmap is bit `p % 64` of word `p / 64`. */
  lemma BitmapAt(c: CachelineEf, p: nat)
    requires Shaped(c) && p < 128
    ensures Bitmap(c)[p] == BitAt(c.highBoundaries[p / 64], p % 64)
  {
    if p < 64 {
      assert p / 64 == 0 && p % 64 == p;
      assert Bitmap(c)[p] == WordBits(c.highBoundaries[0])[p];
    } else {
      assert p / 64 == 1 && p % 64 == p - 64;
      assert Bitmap(c)[p] == WordBits(c.highBoundaries[1])[p - 64];
    }
  }

  /** `c` is the encoding of `vals`: offset, low bytes (zero past the values) and exactly the marking bits. */
  predicate Encodes(c: CachelineEf, vals: seq<u64>)
    requires 0 < |vals|
  {
    && Shaped(c)
    && c.reducedOffset == vals[0] / 256
    && (forall i :: 0 <= i < L ==> c.lowBits[i] == if i < |vals| then vals[i] % 256 else 0)
    && MarksExactly(Bitmap(c), Positions(vals))
  }

  /** A record of the fixed shape whose bitmap holds `l` set bits, `0 < l <= L`: one that stores `l` values. */
  predicate Wf(c: CachelineEf, l: nat)
  {
    && Shaped(c)
    && 0 < l <= L
    && CountOnes(c.highBoundaries[0]) + CountOnes(c.highBoundaries[1]) == l
  }

  /** Two values at most `MaxSpan` apart differ by at most 84 in their high parts. */
  lemma HighDeltaBound(a: u64, b: u64)
    requires a <= b && b - a <= MaxSpan
    ensures 0 <= b / 256 - a / 256 <= 128 - L
  {
  }

  /**
   * The bitmap layout of encodable values: the high deltas are non-decreasing
   * and at most 84, so the marking positions are strictly increasing, each at
   * least its index and all below 128.
   */
  lemma PositionsLayout(vals: seq<u64>)
    requires Encodable(vals)
    ensures StrictlyIncreasing(Positions(vals))
    ensures forall i :: 0 <= i < |vals| ==> 0 <= HighDelta(vals, i) <= 128 - L
    ensures forall i :: 0 <= i < |vals| ==> i <= Positions(vals)[i] < 128
  {
    var ps := Positions(vals);
    forall i | 0 <= i < |vals|
      ensures 0 <= HighDelta(vals, i) <= 128 - L
    {
      HighDeltaBound(vals[0], vals[i]);
    }
    forall a, b | 0 <= a < b < |ps|
      ensures ps[a] < ps[b]
    {
      HighDeltaBound(vals[a], vals[b]);
    }
  }

  /** An encoding of `l` encodable values has exactly `l` set bits: it is well formed for `l` values. */
  lemma EncodesWf(c: CachelineEf, vals: seq<u64>)
    requires Encodable(vals) && Encodes(c, vals)
    ensures Count(Bitmap(c)) == |vals|
    ensures Wf(c, |vals|)
  {
    PositionsLayout(vals);
    SelectOfPositions(Bitmap(c), Positions(vals), 0);
    CountAppend(WordBits(c.highBoundaries[0]), WordBits(c.highBoundaries[1]));
  }

  /** The set bits of the two words `words` are exactly the positions in `ps`. */
  predicate MarksWords(words: seq<bv64>, ps: seq<int>)
    requires |words| == 2
  {
    forall p :: 0 <= p < 128 ==> (BitAt(words[p / 64], p % 64) <==> p in ps)
  }

  /** Two zero words mark nothing. */
  lemma MarksNothing()
    ensures MarksWords([0, 0], [])
  {
    forall p | 0 <= p < 128
      ensures !BitAt([0, 0][p / 64], p % 64)
    {
      ZeroBits(p % 64);
    }
  }

  /** ORing bit `idx % 64` into word `idx / 64` adds `idx` to the marked positions. */
  lemma MarkStep(words: seq<bv64>, ps: seq<int>, idx: nat)
    requires |words| == 2 && MarksWords(words, ps) && idx < 128
    ensures MarksWords(words[idx / 64 := SetBit(words[idx / 64], idx % 64)], ps + [idx])
  {
    var after := words[idx / 64 := SetBit(words[idx / 64], idx % 64)];
    forall p | 0 <= p < 128
      ensures BitAt(after[p / 64], p % 64) <==> p in ps + [idx]
    {
      if p / 64 == idx / 64 {
        SetBitAt(words[idx / 64], idx % 64, p % 64);
      }
    }
  }

  /** The low-byte loop of `try_new`: byte `i` is `vals[i] & 0xff`, the remaining bytes stay 0. */
  method LowBits(vals: seq<u64>) returns (low: seq<u8>)
    requires |vals| <= L
    ensures |low| == L
    ensures forall i :: 0 <= i < L ==> low[i] == if i < |vals| then vals[i] % 256 else 0
  {
    var lowBits := new u8[L](_ => 0);
    for i := 0 to |vals|
      invariant forall j :: 0 <= j < i ==> lowBits[j] == vals[j] % 256
      invariant forall j :: i <= j < L ==> lowBits[j] == 0
    {
      lowBits[i] := vals[i] % 256;
    }
    low := lowBits[..];
  }

  /**
   * The bitmap loop of `try_new`: for value `i` it ORs bit `idx % 64` into
   * word `idx / 64`, where `idx = i + ((vals[i] >> 8) - offset)`, so that the
   * set bits are exactly the marking positions. Its check `i >= last`
   * compares loop indices and always holds.
   */
  method HighBoundaries(vals: seq<u64>) returns (words: seq<bv64>)
    requires Encodable(vals)
    ensures |words| == 2
    ensures MarksWords(words, Positions(vals))
  {
    PositionsLayout(vals);
    var offset := vals[0] / 256;
    var highBoundaries := new bv64[2](_ => 0);
    var last := 0;
    MarksNothing();
    assert highBoundaries[..] == [0, 0];
    for i := 0 to |vals|
      invariant last <= i
      invariant MarksWords(highBoundaries[..], Positions(vals)[..i])
    {
      assert i >= last;
      last := i;
      var idx := i + (vals[i] / 256 - offset);
      assert idx == Positions(vals)[i];
      assert idx < 128;
      ghost var before := highBoundaries[..];
      MarkStep(before, Positions(vals)[..i], idx);
      highBoundaries[idx / 64] := SetBit(highBoundaries[idx / 64], idx % 64);
      assert highBoundaries[..] == before[idx / 64 := SetBit(before[idx / 64], idx % 64)];
      assert Positions(vals)[..i + 1] == Positions(vals)[..i] + [idx];
    }
    assert Positions(vals)[..|vals|] == Positions(vals);
    words := highBoundaries[..];
  }

  /** A record built from the offset, the low bytes and words marking the positions encodes `vals` losslessly. */
  lemma EncodedRecord(c: CachelineEf, vals: seq<u64>)
    requires Encodable(vals) && Shaped(c)
    requires c.reducedOffset == vals[0] / 256
    requires forall i :: 0 <= i < L ==> c.lowBits[i] == if i < |vals| then vals[i] % 256 else 0
    requires MarksWords(c.highBoundaries, Positions(vals))
    ensures Encodes(c, vals) && Wf(c, |vals|)
    ensures forall i :: 0 <= i < |vals| ==> Index(c, i) == vals[i]
  {
    PositionsLayout(vals);
    forall p | 0 <= p < 128
      ensures Bitmap(c)[p] <==> p in Positions(vals)
    {
      BitmapAt(c, p);
    }
    EncodesWf(c, vals);
    forall i | 0 <= i < |vals|
      ensures Index(c, i) == vals[i]
    {
      RoundTrip(c, vals, i);
    }
  }

  /**
   * Encoding (`try_new`): `None` exactly when the span exceeds `MaxSpan`,
   * otherwise the record that encodes `vals`, from which `Index` gives every
   * value back. An empty or overlong input, or a last value of 2^40 or more
   * (checked only after the span), is a panic, hence a precondition; so is an
   * unsorted input, whose subtractions would underflow.
   */
  method TryNew(vals: seq<u64>) returns (r: Option<CachelineEf>)
    requires 0 < |vals| <= L
    requires Sorted(vals)
    requires Span(vals) <= MaxSpan ==> vals[|vals| - 1] < ValueBound
    ensures r.None? <==> Span(vals) > MaxSpan
    ensures r.Some? ==> Encodes(r.value, vals) && Wf(r.value, |vals|)
    ensures r.Some? ==> forall i :: 0 <= i < |vals| ==> Index(r.value, i) == vals[i]
  {
    var l := |vals|;
    var span: u64 := vals[l - 1] - vals[0];
    if span > MaxSpan {
      return None;
    }
    assert vals[l - 1] < ValueBound;
    var offset := vals[0] / 256;
    assert offset < 0x1_0000_0000;
    var lowBits := LowBits(vals);
    var highBoundaries := HighBoundaries(vals);
    var c := CachelineEf(highBoundaries, offset, lowBits);
    EncodedRecord(c, vals);
    r := Some(c);
  }

  /**
   * Decoding, first half: the position `one_pos` of the set bit of rank `idx`
   * of the 128-bit bitmap, found in word 0 when it holds more than `idx` set
   * bits and otherwise in word 1. It is never below `idx`.
   */
  function OnePos(c: CachelineEf, idx: nat): (p: nat)
    requires Shaped(c)
    requires idx < CountOnes(c.highBoundaries[0]) + CountOnes(c.highBoundaries[1])
    ensures idx < Count(Bitmap(c)) && p == Select(Bitmap(c), idx)
    ensures idx <= p < 128
  {
    var w0 := c.highBoundaries[0];
    var w1 := c.highBoundaries[1];
    var ones := CountOnes(w0);
    TwoWordSelect(w0, w1, idx);
    if idx < ones then SelectInWord(w0, idx) else 64 + SelectInWord(w1, idx - ones)
  }

  /**
   * Decoding (`index`): the value of rank `idx`. Its high part (`v >> 8`) is
   * the offset plus the number of zero bits before the rank-`idx` one bit;
   * its low byte is the stored low byte.
   */
  function Index(c: CachelineEf, idx: nat): (v: u64)
    requires Shaped(c) && idx < L
    requires idx < CountOnes(c.highBoundaries[0]) + CountOnes(c.highBoundaries[1])
    ensures v / 256 == c.reducedOffset + (OnePos(c, idx) - idx)
    ensures v % 256 == c.lowBits[idx]
  {
    256 * c.reducedOffset + 256 * (OnePos(c, idx) - idx) + c.lowBits[idx]
  }

  /** Lossless round trip: decoding position `i` of the encoding of `vals` gives `vals[i]`. */
  lemma RoundTrip(c: CachelineEf, vals: seq<u64>, i: nat)
    requires Encodable(vals) && Encodes(c, vals) && i < |vals|
    ensures Wf(c, |vals|)
    ensures Index(c, i) == vals[i]
  {
    EncodesWf(c, vals);
    PositionsLayout(vals);
    SelectOfPositions(Bitmap(c), Positions(vals), i);
    assert OnePos(c, i) - i == HighDelta(vals, i);
  }

  /**
   * The sortedness check of the bitmap loop as written: from index `i` on,
   * each step asserts `i >= last` and then sets `last := i`, so it compares
   * loop indices, never values.
   */
  function IndexOrderCheck(vals: seq<u64>, i: nat, last: nat): bool
    requires i <= |vals|
    decreases |vals| - i
  {
    i == |vals| || (i >= last && IndexOrderCheck(vals, i + 1, i))
  }

  /** The check as written passes on every input, whatever its values. */
  lemma {:induction false} IndexOrderCheckPasses(vals: seq<u64>, i: nat, last: nat)
    requires i <= |vals| && last <= i
    ensures IndexOrderCheck(vals, i, last)
    decreases |vals| - i
  {
    if i < |vals| {
      IndexOrderCheckPasses(vals, i + 1, i);
    }
  }

  /**
   * An unsorted input the program brings to the check: `[0, 300, 5]` passes
   * the span check and the 2^40 check, so the loop runs, and the check as
   * written accepts it. The positions it then marks are `[0, 2, 2]`: two
   * values share bit 2, so the record holds fewer set bits than values.
   */
  lemma IndexOrderCheckAcceptsUnsorted()
    ensures var w: seq<u64> := [0, 300, 5];
      && !Sorted(w)
      && 0 <= Span(w) <= MaxSpan && w[|w| - 1] < ValueBound
      && IndexOrderCheck(w, 0, 0)
      && Positions(w) == [0, 2, 2]
      && !StrictlyIncreasing(Positions(w))
  {
    var w: seq<u64> := [0, 300, 5];
    assert w[1] > w[2];
    IndexOrderCheckPasses(w, 0, 0);
    assert HighDelta(w, 1) == 1 && HighDelta(w, 2) == 0;
    assert Positions(w)[1] == Positions(w)[2];
  }

  /**
   * A second one: `[256, 0, 300]` also reaches the loop and passes the check
   * at index 1, where `(v >> 8) - offset` is negative, so the `u64`
   * subtraction underflows.
   */
  lemma IndexOrderCheckAcceptsUnderflow()
    ensures var w: seq<u64> := [256, 0, 300];
      && !Sorted(w)
      && 0 <= Span(w) <= MaxSpan && w[|w| - 1] < ValueBound
      && IndexOrderCheck(w, 0, 0)
      && HighDelta(w, 1) < 0
  {
    var w: seq<u64> := [256, 0, 300];
    assert w[0] > w[1];
    IndexOrderCheckPasses(w, 0, 0);
  }

  /**
   * The check the loop evidently intends: each value is at least the one
   * before it (`v >= last`, then `last := v`).
   */
  function ValueOrderCheck(vals: seq<u64>, i: nat, last: int): bool
    requires i <= |vals|
    decreases |vals| - i
  {
    i == |vals| || (vals[i] >= last && ValueOrderCheck(vals, i + 1, vals[i]))
  }

  /** From index `i` on, the intended check passes exactly when the suffix is sorted and starts at or above `last`. */
  lemma {:induction false} ValueOrderCheckFrom(vals: seq<u64>, i: nat, last: int)
    requires i <= |vals|
    ensures ValueOrderCheck(vals, i, last) <==> ((i < |vals| ==> last <= vals[i]) && Sorted(vals[i..]))
    decreases |vals| - i
  {
    if i < |vals| {
      ValueOrderCheckFrom(vals, i + 1, vals[i]);
      var suffix := vals[i..];
      assert vals[i + 1..] == suffix[1..];
      if Sorted(suffix[1..]) && (i + 1 < |vals| ==> vals[i] <= vals[i + 1]) {
        forall a, b | 0 <= a < b < |suffix|
          ensures suffix[a] <= suffix[b]
        {
          if a == 0 && b > 1 {
            assert suffix[1..][0] <= suffix[1..][b - 1];
          } else if a > 0 {
            assert suffix[1..][a - 1] <= suffix[1..][b - 1];
          }
        }
      }
      if Sorted(suffix) {
        forall a, b | 0 <= a < b < |suffix| - 1
          ensures suffix[1..][a] <= suffix[1..][b]
        {
          assert suffix[a + 1] <= suffix[b + 1];
        }
      }
    }
  }

  /** The intended check rejects exactly the unsorted inputs, which the encoder's precondition excludes. */
  lemma ValueOrderCheckSorted(vals: seq<u64>)
    ensures ValueOrderCheck(vals, 0, 0) <==> Sorted(vals)
  {
    ValueOrderCheckFrom(vals, 0, 0);
    assert vals[0..] == vals;
  }
}
