/**
 * Bit-level view of a 64-bit word and the two word primitives the decoder
 * relies on: population count (`count_ones`) and select (`select_in_word`,
 * which comes from an external crate and is modelled here by its meaning:
 * the position of the k-th set bit, counting from 0).
 *
 * Everything is stated over the sequence of bits of a word, least significant
 * bit first, so that a 128-bit bitmap made of two words is simply the
 * concatenation of their two bit sequences.
 */
module Bits {

  /** Bit `r` of `w` (bit 0 is the least significant). */
  predicate BitAt(w: bv64, r: nat)
    requires r < 64
  {
    (w >> (r as bv6)) & 1 == 1
  }

  /** The 64 bits of `w`, least significant first. */
  function WordBits(w: bv64): (s: seq<bool>)
    ensures |s| == 64
    ensures forall r :: 0 <= r < 64 ==> s[r] == BitAt(w, r)
  {
    seq(64, r requires 0 <= r < 64 => BitAt(w, r))
  }

  /** `w | (1 << q)`: the word `w` with bit `q` set. */
  function SetBit(w: bv64, q: nat): bv64
    requires q < 64
  {
    w | (1 << (q as bv6))
  }

  /** A bit index below 64 survives the conversion to a shift amount. */
  lemma ShiftAmount(q: nat)
    requires q < 64
    ensures (q as bv6) as int == q
  {
  }

  /** The bit-vector core of `SetBitAt`. */
  lemma SetBitShift(w: bv64, q: bv6, r: bv6)
    ensures ((w | (1 << q)) >> r) & 1 == 1 <==> ((w >> r) & 1 == 1 || q == r)
  {
  }

  /** Setting bit `q` sets bit `q` and leaves every other bit alone. */
  lemma SetBitAt(w: bv64, q: nat, r: nat)
    requires q < 64 && r < 64
    ensures BitAt(SetBit(w, q), r) == (BitAt(w, r) || q == r)
  {
    SetBitShift(w, q as bv6, r as bv6);
    ShiftAmount(q);
    ShiftAmount(r);
  }

  /** The zero word has no bit set. */
  lemma ZeroBits(r: nat)
    requires r < 64
    ensures !BitAt(0, r)
  {
  }

  /** Number of set bits in `s`. */
  function Count(s: seq<bool>): (n: nat)
    ensures n <= |s|
  {
    if s == [] then 0 else (if s[0] then 1 else 0) + Count(s[1..])
  }

  lemma {:induction false} CountAppend(a: seq<bool>, b: seq<bool>)
    ensures Count(a + b) == Count(a) + Count(b)
  {
    if a == [] {
      assert a + b == b;
    } else {
      assert (a + b)[1..] == a[1..] + b;
      CountAppend(a[1..], b);
    }
  }

  /**
   * Select: the position of the set bit of rank `k` (0-indexed), i.e. the
   * position `r` of a set bit that has exactly `k` set bits before it.
   */
  function Select(s: seq<bool>, k: nat): (r: nat)
    requires k < Count(s)
    ensures k <= r < |s|
    ensures s[r] && Count(s[..r]) == k
  {
    if s[0] && k == 0 then
      assert s[..0] == [];
      0
    else
      var k' := if s[0] then k - 1 else k;
      var r' := Select(s[1..], k');
      assert s[..r' + 1][1..] == s[1..][..r'];
      r' + 1
  }

  /** A set bit at `p` adds one to the count of every longer prefix that contains it. */
  lemma CountGrows(s: seq<bool>, p: nat, r: nat)
    requires p < r <= |s| && s[p]
    ensures Count(s[..r]) > Count(s[..p])
  {
    assert s[..r] == s[..p] + s[p..r];
    CountAppend(s[..p], s[p..r]);
    assert s[p..r][0];
  }

  /** Select is determined by its contract: a set bit with `k` set bits before it is the rank-`k` bit. */
  lemma SelectUnique(s: seq<bool>, k: nat, p: nat)
    requires p < |s| && s[p] && Count(s[..p]) == k
    ensures k < Count(s) && Select(s, k) == p
  {
    assert s[..|s|] == s;
    CountGrows(s, p, |s|);
    var r := Select(s, k);
    if r < p {
      CountGrows(s, r, p);
    } else if p < r {
      CountGrows(s, p, r);
    }
  }

  /**
   * Select on a concatenation: the rank-`k` bit of `a + b` lies in `a` when `a`
   * holds more than `k` set bits, and otherwise it is the bit of rank
   * `k - Count(a)` of `b`, shifted by `|a|`.
   */
  lemma SelectAppend(a: seq<bool>, b: seq<bool>, k: nat)
    requires k < Count(a) + Count(b)
    ensures k < Count(a + b)
    ensures Select(a + b, k) == if k < Count(a) then Select(a, k) else |a| + Select(b, k - Count(a))
  {
    CountAppend(a, b);
    if k < Count(a) {
      var r := Select(a, k);
      assert (a + b)[..r] == a[..r];
      SelectUnique(a + b, k, r);
    } else {
      var r := Select(b, k - Count(a));
      assert (a + b)[..|a| + r] == a + b[..r];
      CountAppend(a, b[..r]);
      SelectUnique(a + b, k, |a| + r);
    }
  }

  /** `ps` lists positions in strictly increasing order. */
  predicate StrictlyIncreasing(ps: seq<int>)
  {
    forall a, b :: 0 <= a < b < |ps| ==> ps[a] < ps[b]
  }

  /** The set bits of `s` are exactly the positions listed in `ps`. */
  predicate MarksExactly(s: seq<bool>, ps: seq<int>)
  {
    && (forall j :: 0 <= j < |ps| ==> 0 <= ps[j] < |s|)
    && (forall q :: 0 <= q < |s| ==> (s[q] <==> q in ps))
  }

  /**
   * If the set bits of `s` are exactly the strictly increasing positions `ps`
   * and the first `m` of them lie below `p`, then `s[..p]` holds `m` set bits.
   */
  lemma {:induction false} PrefixCount(s: seq<bool>, ps: seq<int>, p: nat, m: nat)
    requires StrictlyIncreasing(ps) && MarksExactly(s, ps)
    requires p <= |s| && m <= |ps|
    requires forall j :: 0 <= j < m ==> ps[j] < p
    requires forall j :: m <= j < |ps| ==> ps[j] >= p
    ensures Count(s[..p]) == m
  {
    if p == 0 {
      assert s[..0] == [];
    } else {
      assert s[..p] == s[..p - 1] + [s[p - 1]];
      CountAppend(s[..p - 1], [s[p - 1]]);
      assert Count([s[p - 1]]) == if s[p - 1] then 1 else 0;
      if s[p - 1] {
        var j :| 0 <= j < |ps| && ps[j] == p - 1;
        assert j < m;
        assert ps[j] == p - 1 && ps[m - 1] < p;
        assert j == m - 1;
        PrefixCount(s, ps, p - 1, m - 1);
      } else {
        forall j | 0 <= j < m ensures ps[j] < p - 1 {
          assert ps[j] != p - 1 by { assert ps[j] in ps; }
        }
        PrefixCount(s, ps, p - 1, m);
      }
    }
  }

  /**
   * When the set bits of `s` are exactly the strictly increasing positions
   * `ps`, `s` has `|ps|` set bits and the rank-`k` set bit is `ps[k]`.
   */
  lemma SelectOfPositions(s: seq<bool>, ps: seq<int>, k: nat)
    requires StrictlyIncreasing(ps) && MarksExactly(s, ps)
    requires k < |ps|
    ensures Count(s) == |ps|
    ensures Select(s, k) == ps[k]
  {
    assert s[..|s|] == s;
    PrefixCount(s, ps, |s|, |ps|);
    PrefixCount(s, ps, ps[k], k);
    SelectUnique(s, k, ps[k]);
  }

  /** Number of set bits of a word (Rust's `count_ones`). */
  function CountOnes(w: bv64): (n: nat)
    ensures n <= 64
  {
    Count(WordBits(w))
  }

  /** Position of the set bit of rank `k` of a word (`select_in_word`), defined when `k < count_ones`. */
  function SelectInWord(w: bv64, k: nat): (r: nat)
    requires k < CountOnes(w)
    ensures k <= r < 64 && BitAt(w, r)
    ensures Count(WordBits(w)[..r]) == k
  {
    Select(WordBits(w), k)
  }

  /**
   * The two-word select of the decoder: the rank-`k` set bit of the 128-bit
   * concatenation `w0 ++ w1` is found in `w0` when `w0` has more than `k` set
   * bits, and otherwise is bit `k - count_ones(w0)` of `w1`, offset by 64.
   */
  lemma TwoWordSelect(w0: bv64, w1: bv64, k: nat)
    requires k < CountOnes(w0) + CountOnes(w1)
    ensures k < Count(WordBits(w0) + WordBits(w1))
    ensures Select(WordBits(w0) + WordBits(w1), k)
         == if k < CountOnes(w0) then SelectInWord(w0, k) else 64 + SelectInWord(w1, k - CountOnes(w0))
  {
    SelectAppend(WordBits(w0), WordBits(w1), k);
  }
}
