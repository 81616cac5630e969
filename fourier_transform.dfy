// The integer skeleton of the iterative and recursive radix-2 FFT and of the
// chirp Z-transform: which array positions each loop touches, in which order
// and how the final reordering permutes them. The complex arithmetic of a
// butterfly and of the recursive combine step is a parameter of type
// `Butterfly<T>`, so the element type `T` stays abstract.
module FourierTransform {
  import opened Binary
  import opened BitReversal

  /**
   * One butterfly: given the two elements at positions a and a + k, the offset
   * l = a mod 2k of a inside its block and the half width k, the two new
   * elements. In the source this is `x[a] + x[b]` and `(x[a] - x[b]) * phi^l`.
   */
  type Butterfly<!T> = (T, T, nat, nat) -> (T, T)

  /** Floor of the base-2 logarithm. */
  function Log2(n: nat): (m: nat)
    requires n > 0
    ensures Pow2(m) <= n < 2 * Pow2(m)
  {
    if n == 1 then 0 else 1 + Log2(n / 2)
  }

  predicate IsPowerOfTwo(n: nat)
  {
    n > 0 && Pow2(Log2(n)) == n
  }

  /** Log2 is determined by the power of two it lies between. */
  lemma Log2Unique(n: nat, l: nat)
    requires Pow2(l) <= n < 2 * Pow2(l)
    ensures Log2(n) == l
  {
    var m := Log2(n);
    if m < l {
      Pow2Monotone(m + 1, l);
      assert false;
    } else if m > l {
      Pow2Monotone(l + 1, m);
      assert false;
    }
  }

  lemma Log2OfPow2(m: nat)
    ensures Log2(Pow2(m)) == m
  {
    Log2Unique(Pow2(m), m);
  }

  /** A block of 2k divides a length that a block of 2^j divides, for k = 2^(j-1). */
  lemma HalfBlock(len: nat, j: nat)
    requires j > 0 && len % Pow2(j) == 0
    ensures len % Pow2(j - 1) == 0
  {
    DivModUnique(len, Pow2(j - 1), 2 * (len / Pow2(j)), 0);
  }

  // ---------------------------------------------------------------------------
  // Butterfly stages
  // ---------------------------------------------------------------------------

  /** Position a starts a butterfly pair (a, a + k) of the stage with half width k. */
  predicate IsPairStart(a: nat, k: nat, len: nat)
    requires k > 0
  {
    a < len && a % (2 * k) < k
  }

  /**
   * In the stage with half width k every index is in exactly one butterfly
   * pair: either it starts a pair whose partner k later is in range, or it is
   * the partner of the pair that starts k earlier, and never both.
   */
  lemma ButterflyPartner(len: nat, k: nat, i: nat)
    requires k > 0 && len % (2 * k) == 0 && i < len
    ensures IsPairStart(i, k, len) <==> !(i >= k && IsPairStart(i - k, k, len))
    ensures IsPairStart(i, k, len) ==> i + k < len
  {
    var n := 2 * k;
    var r := i % n;
    if r < k {
      BlockInBounds(i, k, len);
      if i >= k {
        var q := i / n;
        assert q >= 1 by {
          if q == 0 {
            DivModUnique(i, n, 0, i);
          }
        }
        DivModUnique(i - k, n, q - 1, r + k);
      }
    } else {
      ModSubSmall(i, k, n);
    }
  }

  /** The element at position i after the stage with half width k. */
  function StageAt<T>(s: seq<T>, k: nat, bf: Butterfly<T>, i: nat): T
    requires k > 0 && |s| % (2 * k) == 0 && i < |s|
  {
    var r := i % (2 * k);
    if r < k then
      BlockInBounds(i, k, |s|);
      bf(s[i], s[i + k], r, k).0
    else
      ModBelow(i, 2 * k);
      bf(s[i - k], s[i], r - k, k).1
  }

  /** The whole sequence after the stage with half width k. */
  function Stage<T>(s: seq<T>, k: nat, bf: Butterfly<T>): (r: seq<T>)
    requires k > 0 && |s| % (2 * k) == 0
    ensures |r| == |s|
  {
    seq(|s|, i requires 0 <= i < |s| => StageAt(s, k, bf, i))
  }

  /** Positions of the stage with half width k already written once l pairs per block are done. */
  predicate Settled(r: nat, k: nat, l: nat)
  {
    r < l || (k <= r && r < k + l)
  }

  /** Position i has been written once the inner loop for offset l has reached a. */
  predicate Written(i: nat, k: nat, l: nat, a: nat)
    requires k > 0
  {
    var r := i % (2 * k);
    Settled(r, k, l) || (r == l && i < a) || (r == l + k && i < a + k)
  }

  /** Before the inner loop for offset l starts, exactly the settled positions are written. */
  lemma WrittenAtStart(i: nat, k: nat, l: nat)
    requires k > 0
    ensures Written(i, k, l, l) <==> Settled(i % (2 * k), k, l)
  {
    ModBelow(i, 2 * k);
  }

  /** One pass of the inner loop writes exactly a and a + k. */
  lemma WrittenStep(i: nat, k: nat, l: nat, a: nat)
    requires l < k && a % (2 * k) == l
    ensures Written(i, k, l, a + 2 * k) <==> Written(i, k, l, a) || i == a || i == a + k
    ensures !Written(a, k, l, a) && !Written(a + k, k, l, a)
  {
    var n := 2 * k;
    ModAddSmall(a, k, n);
    if i % n == l && a <= i < a + n {
      SameResidue(i, a, n);
    }
    if i % n == l + k && a + k <= i < a + k + n {
      SameResidue(i, a + k, n);
    }
  }

  /** Once the inner loop has run past the end, offset l is settled too. */
  lemma WrittenAtEnd(i: nat, k: nat, l: nat, a: nat, len: nat)
    requires l < k && i < len <= a
    ensures Written(i, k, l, a) <==> Settled(i % (2 * k), k, l + 1)
  {
  }

  /**
   * The inner loop of a stage of `fft` for offset l: the pairs (a, a + k) for
   * a = l, l + 2k, l + 4k, ... below N. Positions settled for offsets below l
   * already hold their stage result; afterwards offset l is settled as well.
   */
  method ButterflyOffset<T>(x: array<T>, k: nat, l: nat, bf: Butterfly<T>, ghost s: seq<T>)
    requires l < k && x.Length % (2 * k) == 0 && |s| == x.Length
    requires forall i :: 0 <= i < x.Length ==>
      x[i] == if Settled(i % (2 * k), k, l) then Stage(s, k, bf)[i] else s[i]
    modifies x
    ensures forall i :: 0 <= i < x.Length ==>
      x[i] == if Settled(i % (2 * k), k, l + 1) then Stage(s, k, bf)[i] else s[i]
  {
    ghost var target := Stage(s, k, bf);
    var N := x.Length;
    var n := 2 * k;
    var a := l;
    DivModUnique(a, n, 0, a);
    forall i | 0 <= i < N
      ensures Written(i, k, l, a) <==> Settled(i % n, k, l)
    {
      WrittenAtStart(i, k, l);
    }
    while a < N
      invariant l <= a && a % n == l
      invariant forall i :: 0 <= i < N ==> x[i] == if Written(i, k, l, a) then target[i] else s[i]
      decreases N - a
    {
      var b := a + k;
      BlockInBounds(a, k, N);
      WrittenStep(a, k, l, a);
      ModAddSmall(a, k, n);
      assert target[a] == bf(s[a], s[b], l, k).0;
      assert target[b] == bf(s[a], s[b], l, k).1;
      var (lo, hi) := bf(x[a], x[b], l, k);
      x[a] := lo;
      x[b] := hi;
      forall i | 0 <= i < N
        ensures Written(i, k, l, a + n) <==> Written(i, k, l, a) || i == a || i == b
      {
        WrittenStep(i, k, l, a);
      }
      DivAddMultiple(1, n, a);
      a := a + n;
    }
    forall i | 0 <= i < N
      ensures Written(i, k, l, a) <==> Settled(i % n, k, l + 1)
    {
      WrittenAtEnd(i, k, l, a, N);
    }
  }

  /** One stage of `fft` with half width k: the offsets l = 0, ..., k - 1 in turn. */
  method ButterflyStage<T>(x: array<T>, k: nat, bf: Butterfly<T>)
    requires k > 0 && x.Length % (2 * k) == 0
    modifies x
    ensures x[..] == Stage(old(x[..]), k, bf)
  {
    ghost var s := x[..];
    var l := 0;
    while l < k
      invariant 0 <= l <= k
      invariant forall i :: 0 <= i < x.Length ==>
        x[i] == if Settled(i % (2 * k), k, l) then Stage(s, k, bf)[i] else s[i]
    {
      ButterflyOffset(x, k, l, bf, s);
      l := l + 1;
    }
    assert forall i :: 0 <= i < x.Length ==> Settled(i % (2 * k), k, k);
  }

  /** The half widths of j stages, in the order they run: 2^(j-1), 2^(j-2), ..., 1. */
  function StageWidths(j: nat): (w: seq<nat>)
    ensures |w| == j
  {
    if j == 0 then [] else [Pow2(j - 1)] + StageWidths(j - 1)
  }

  /** The j stages whose half widths StageWidths(j) lists, applied in that order. */
  function Stages<T>(s: seq<T>, j: nat, bf: Butterfly<T>): (r: seq<T>)
    requires |s| % Pow2(j) == 0
    ensures |r| == |s|
    decreases j
  {
    if j == 0 then s
    else
      HalfBlock(|s|, j);
      Stages(Stage(s, StageWidths(j)[0], bf), j - 1, bf)
  }

  /** For N = 2^m the stages use the half widths N/2, N/4, ..., 1: one stage per bit. */
  lemma {:induction false} StageWidthsHalve(m: nat, i: nat)
    requires i < m
    ensures StageWidths(m)[i] * Pow2(i + 1) == Pow2(m)
  {
    if i == 0 {
      assert StageWidths(m)[0] == Pow2(m - 1);
    } else {
      StageWidthsHalve(m - 1, i - 1);
      assert StageWidths(m)[i] == StageWidths(m - 1)[i - 1];
    }
  }

  // ---------------------------------------------------------------------------
  // Bit-reversal reordering
  // ---------------------------------------------------------------------------

  /**
   * The m-bit reversal of a position below 2^m: where the reordering sends it.
   * It is ReverseIndex restated on plain naturals, kept separate so that the
   * reordering proofs do not carry the byte-table facts of BitReverse.
   */
  function Mirror(i: nat, m: nat): (j: nat)
    requires i < Pow2(m)
    ensures j < Pow2(m)
  {
    RevBits(i, m)
  }

  lemma MirrorTwice(i: nat, m: nat)
    requires i < Pow2(m)
    ensures Mirror(Mirror(i, m), m) == i
  {
    RevBitsInvolution(i, m);
    LowOfSmall(i, m);
  }

  /** Bit j of the mirrored position is bit m - 1 - j of the position. */
  lemma MirrorBit(i: nat, m: nat, j: nat)
    requires i < Pow2(m) && j < m
    ensures Bit(Mirror(i, m), j) == Bit(i, m - 1 - j)
  {
    RevBitsBit(i, m, j);
  }

  /**
   * The partner `bit_reverse(a) >> (64 - m)` that the reordering loop
   * computes for position a of an array of 2^m elements is its mirror.
   */
  method ReorderPartner(a: nat, m: nat) returns (b: nat)
    requires m <= 64 && a < Pow2(m)
    ensures b == Mirror(a, m)
  {
    IndexFits(a, m);
    LowOfSmall(a, m);
    b := ReverseIndex(a, m);
  }

  /** Swapping two elements keeps the multiset of elements. */
  lemma SwapKeepsElements<T>(s: seq<T>, a: nat, b: nat)
    requires a < |s| && b < |s|
    ensures multiset(s[a := s[b]][b := s[a]]) == multiset(s)
  {
    var t := s[a := s[b]];
    assert multiset(t) == multiset(s) - multiset{s[a]} + multiset{s[b]};
  }

  /** The sequence whose element i is the element at the m-bit reversal of i. */
  function BitReversed<T>(s: seq<T>, m: nat): (r: seq<T>)
    requires |s| == Pow2(m)
    ensures |r| == |s|
  {
    seq(|s|, i requires 0 <= i < |s| => s[Mirror(i, m)])
  }

  /** Reordering twice gives back the sequence. */
  lemma BitReversedTwice<T>(s: seq<T>, m: nat)
    requires |s| == Pow2(m)
    ensures BitReversed(BitReversed(s, m), m) == s
  {
    var r := BitReversed(s, m);
    forall i | 0 <= i < |s|
      ensures BitReversed(r, m)[i] == s[i]
    {
      MirrorTwice(i, m);
    }
  }

  /** Position i is in its final place once the smaller of i and its mirror has been visited. */
  predicate Visited(i: nat, m: nat, a: nat)
    requires i < Pow2(m)
  {
    i < a || Mirror(i, m) < a
  }

  /** The state of the reordering loop over s before position a is visited. */
  ghost predicate ReorderedBelow<T>(t: seq<T>, s: seq<T>, m: nat, a: nat)
    requires |s| == Pow2(m)
  {
    |t| == |s| && multiset(t) == multiset(s) &&
    forall i :: 0 <= i < |s| ==> t[i] == if Visited(i, m, a) then s[Mirror(i, m)] else s[i]
  }

  /** Visiting position a swaps it with its mirror b when b > a, and keeps the loop's state. */
  function VisitPosition<T>(t: seq<T>, m: nat, a: nat): (r: seq<T>)
    requires |t| == Pow2(m) && a < |t|
    ensures |r| == |t|
  {
    var b := Mirror(a, m);
    if b > a then t[a := t[b]][b := t[a]] else t
  }

  lemma VisitPositionStep<T>(t: seq<T>, s: seq<T>, m: nat, a: nat)
    requires |s| == Pow2(m) && a < |s|
    requires ReorderedBelow(t, s, m, a)
    ensures ReorderedBelow(VisitPosition(t, m, a), s, m, a + 1)
  {
    var b := Mirror(a, m);
    MirrorTwice(a, m);
    if b > a {
      SwapKeepsElements(t, a, b);
    }
    var r := VisitPosition(t, m, a);
    forall i | 0 <= i < |s|
      ensures r[i] == if Visited(i, m, a + 1) then s[Mirror(i, m)] else s[i]
    {
      MirrorTwice(i, m);
    }
  }

  lemma ReorderedAll<T>(t: seq<T>, s: seq<T>, m: nat)
    requires |s| == Pow2(m)
    requires ReorderedBelow(t, s, m, |s|)
    ensures t == BitReversed(s, m)
    ensures multiset(t) == multiset(s)
  {
  }

  /**
   * The reordering loop at the end of `fft`: for a = 0, ..., N - 1 the element
   * at a is swapped with the one at its m-bit reversal b when b > a.
   */
  method BitReversalPermute<T>(x: array<T>, m: nat)
    requires m <= 64 && x.Length == Pow2(m)
    modifies x
    ensures x[..] == BitReversed(old(x[..]), m)
    ensures multiset(x[..]) == multiset(old(x[..]))
  {
    ghost var s := x[..];
    var N := x.Length;
    var a := 0;
    while a < N
      invariant 0 <= a <= N
      invariant ReorderedBelow(x[..], s, m, a)
    {
      var b := ReorderPartner(a, m);
      ghost var before := x[..];
      VisitPositionStep(before, s, m, a);
      if b > a {
        x[a], x[b] := x[b], x[a];
      }
      a := a + 1;
    }
    ReorderedAll(x[..], s, m);
  }

  // ---------------------------------------------------------------------------
  // The iterative transform
  // ---------------------------------------------------------------------------

  /** What `fft` leaves in a sequence of N = 2^m elements: all m stages, then the reordering. */
  function FftResult<T>(s: seq<T>, bf: Butterfly<T>): (r: seq<T>)
    requires IsPowerOfTwo(|s|) && |s| < 0x1_0000_0000_0000_0000
    ensures |r| == |s|
  {
    var m := Log2(|s|);
    SizeBitsFit(m);
    DivModUnique(|s|, Pow2(m), 1, 0);
    BitReversed(Stages(s, m, bf), m)
  }

  /** A power of two below 2^64 has at most 63 bits. */
  lemma SizeBitsFit(m: nat)
    requires Pow2(m) < 0x1_0000_0000_0000_0000
    ensures m < 64
  {
    Pow2Of64();
    if m >= 64 {
      Pow2Monotone(64, m);
    }
  }

  /**
   * `spectral::fft` on an array whose length N = 2^m fits a `size_t`: the
   * stage loop halves k from N down to 1, running one stage per halving, and
   * the reordering pass puts the result in natural order.
   */
  method Fft<T>(x: array<T>, bf: Butterfly<T>)
    requires IsPowerOfTwo(x.Length) && x.Length < 0x1_0000_0000_0000_0000
    modifies x
    ensures x[..] == FftResult(old(x[..]), bf)
  {
    var N := x.Length;
    var k := N;
    ghost var m := Log2(N);
    ghost var j := m;
    DivModUnique(N, Pow2(m), 1, 0);
    while k > 1
      invariant j <= m && k == Pow2(j) && N % k == 0
      invariant Stages(x[..], j, bf) == Stages(old(x[..]), m, bf)
      decreases k
    {
      var n := k;
      k := k / 2;
      j := j - 1;
      HalfBlock(N, j + 1);
      ButterflyStage(x, k, bf);
    }
    var bits := Log2(N);
    SizeBitsFit(bits);
    BitReversalPermute(x, bits);
  }

  // ---------------------------------------------------------------------------
  // The recursive transform: even/odd split and combine
  // ---------------------------------------------------------------------------

  /** The positions `std::slice(start, size, stride)` selects: start, start + stride, ... */
  function SliceIndices(start: nat, size: nat, stride: nat): (idx: seq<nat>)
    ensures |idx| == size
  {
    seq(size, k requires 0 <= k < size => start + k * stride)
  }

  /** The elements of s at the even positions below 2 * (|s| / 2): `x[std::slice(0, N/2, 2)]`. */
  function Evens<T>(s: seq<T>): (e: seq<T>)
    ensures |e| == |s| / 2
    ensures forall k :: 0 <= k < |e| ==> e[k] == s[SliceIndices(0, |s| / 2, 2)[k]]
  {
    seq(|s| / 2, k requires 0 <= k < |s| / 2 => s[2 * k])
  }

  /** The elements of s at the odd positions below 2 * (|s| / 2): `x[std::slice(1, N/2, 2)]`. */
  function Odds<T>(s: seq<T>): (o: seq<T>)
    ensures |o| == |s| / 2
    ensures forall k :: 0 <= k < |o| ==> o[k] == s[SliceIndices(1, |s| / 2, 2)[k]]
  {
    seq(|s| / 2, k requires 0 <= k < |s| / 2 => s[2 * k + 1])
  }

  /** The sequence with e at the even and o at the odd positions. */
  function Interleave<T>(e: seq<T>, o: seq<T>): (s: seq<T>)
    requires |e| == |o|
    ensures |s| == 2 * |e|
  {
    seq(2 * |e|, i requires 0 <= i < 2 * |e| => if i % 2 == 0 then e[i / 2] else o[i / 2])
  }

  /**
   * The two slices of fft_recursive partition the positions below 2n: each
   * slice lists its positions in increasing order, they have no position in
   * common, and every position below 2n is in one of them.
   */
  lemma SlicesPartition(n: nat)
    ensures forall k :: 0 <= k < n ==> SliceIndices(0, n, 2)[k] < 2 * n && SliceIndices(1, n, 2)[k] < 2 * n
    ensures forall k, k' :: 0 <= k < k' < n ==>
      SliceIndices(0, n, 2)[k] < SliceIndices(0, n, 2)[k'] && SliceIndices(1, n, 2)[k] < SliceIndices(1, n, 2)[k']
    ensures forall k, k' :: 0 <= k < n && 0 <= k' < n ==> SliceIndices(0, n, 2)[k] != SliceIndices(1, n, 2)[k']
    ensures forall i :: 0 <= i < 2 * n ==> i in SliceIndices(0, n, 2) || i in SliceIndices(1, n, 2)
  {
    var ev, od := SliceIndices(0, n, 2), SliceIndices(1, n, 2);
    forall i | 0 <= i < 2 * n
      ensures i in ev || i in od
    {
      var k := i / 2;
      if i % 2 == 0 {
        assert ev[k] == i;
      } else {
        assert od[k] == i;
      }
    }
  }

  /** Splitting and interleaving again restores the first 2 * (|s| / 2) elements. */
  lemma InterleaveEvensOdds<T>(s: seq<T>)
    ensures Interleave(Evens(s), Odds(s)) == s[..2 * (|s| / 2)]
  {
    var r := Interleave(Evens(s), Odds(s));
    forall i | 0 <= i < |r|
      ensures r[i] == s[i]
    {
      if i % 2 == 0 {
        assert 2 * (i / 2) == i;
      } else {
        assert 2 * (i / 2) + 1 == i;
      }
    }
  }

  /** Interleaving and splitting again gives back both halves. */
  lemma EvensOddsInterleave<T>(e: seq<T>, o: seq<T>)
    requires |e| == |o|
    ensures Evens(Interleave(e, o)) == e && Odds(Interleave(e, o)) == o
  {
    var s := Interleave(e, o);
    forall k | 0 <= k < |e|
      ensures Evens(s)[k] == e[k] && Odds(s)[k] == o[k]
    {
      DivModUnique(2 * k, 2, k, 0);
      DivModUnique(2 * k + 1, 2, k, 1);
    }
  }

  /**
   * The combine loop of fft_recursive over the transformed halves e and o of
   * length h: step k writes positions k and k + h from e[k], o[k], the step k
   * and the length 2h (the twiddle factor is a function of k and N).
   */
  function Combined<T>(e: seq<T>, o: seq<T>, cb: Butterfly<T>): (r: seq<T>)
    requires |e| == |o|
    ensures |r| == 2 * |e|
  {
    var h := |e|;
    seq(2 * h, i requires 0 <= i < 2 * h =>
      if i < h then cb(e[i], o[i], i, 2 * h).0 else cb(e[i - h], o[i - h], i - h, 2 * h).1)
  }

  /** Step k of the combine loop writes the two positions Combined assigns to it. */
  lemma CombinedAt<T>(e: seq<T>, o: seq<T>, cb: Butterfly<T>, k: nat)
    requires |e| == |o| && k < |e|
    ensures Combined(e, o, cb)[k] == cb(e[k], o[k], k, 2 * |e|).0
    ensures Combined(e, o, cb)[k + |e|] == cb(e[k], o[k], k, 2 * |e|).1
  {
  }

  /** Half of a power of two above 1 is a power of two. */
  lemma HalfOfPowerOfTwo(n: nat)
    requires IsPowerOfTwo(n) && n > 1
    ensures n % 2 == 0 && IsPowerOfTwo(n / 2) && n / 2 < n
  {
    var m := Log2(n);
    assert m > 0;
    assert n / 2 == Pow2(m - 1);
    Log2OfPow2(m - 1);
  }

  /** What fft_recursive leaves: for N <= 1 the input, else the combine of the transformed halves. */
  function FftRecursiveResult<T>(s: seq<T>, bf: Butterfly<T>, cb: Butterfly<T>): (r: seq<T>)
    requires |s| <= 1 || (IsPowerOfTwo(|s|) && |s| < 0x1_0000_0000_0000_0000)
    ensures |r| == |s|
  {
    if |s| <= 1 then s
    else
      HalfOfPowerOfTwo(|s|);
      Combined(FftResult(Evens(s), bf), FftResult(Odds(s), bf), cb)
  }

  /** Position i has been written once the combine loop has done steps 0, ..., k - 1. */
  predicate CombineDone(i: nat, h: nat, k: nat)
  {
    i < k || (h <= i < h + k)
  }

  /**
   * Step k of the combine loop writes exactly the positions k and k + h, neither
   * written before, and after the h steps every position below 2h is written:
   * each position is written by exactly one step.
   */
  lemma CombineWritesOnce(h: nat, k: nat)
    requires k < h
    ensures !CombineDone(k, h, k) && !CombineDone(k + h, h, k)
    ensures forall i: nat :: CombineDone(i, h, k + 1) <==> CombineDone(i, h, k) || i == k || i == k + h
    ensures forall i: nat :: i < 2 * h <==> CombineDone(i, h, h)
  {
  }

  /** Step k of the combine loop writes positions k and k + h and nothing else. */
  lemma CombineStep<T>(t: seq<T>, before: seq<T>, s: seq<T>, target: seq<T>, h: nat, k: nat)
    requires |before| == |s| == |target| == 2 * h && k < h
    requires t == before[k := target[k]][k + h := target[k + h]]
    requires forall i :: 0 <= i < 2 * h ==> before[i] == if CombineDone(i, h, k) then target[i] else s[i]
    ensures forall i :: 0 <= i < 2 * h ==> t[i] == if CombineDone(i, h, k + 1) then target[i] else s[i]
  {
    CombineWritesOnce(h, k);
  }

  /**
   * The combine loop of fft_recursive: for k = 0, ..., N/2 - 1, write x[k] and
   * x[k + N/2] from the transformed halves even[k] and odd[k].
   */
  method CombineHalves<T>(x: array<T>, even: array<T>, odd: array<T>, cb: Butterfly<T>)
    requires even.Length == odd.Length && x.Length == 2 * even.Length
    requires x != even && x != odd
    modifies x
    ensures x[..] == Combined(even[..], odd[..], cb)
  {
    ghost var s := x[..];
    ghost var target := Combined(even[..], odd[..], cb);
    var N := x.Length;
    var half := even.Length;
    var k := 0;
    while k < half
      invariant 0 <= k <= half
      invariant forall i :: 0 <= i < N ==> x[i] == if CombineDone(i, half, k) then target[i] else s[i]
    {
      CombinedAt(even[..], odd[..], cb, k);
      var (lo, hi) := cb(even[k], odd[k], k, N);
      ghost var before := x[..];
      x[k] := lo;
      x[k + half] := hi;
      CombineStep(x[..], before, s, target, half, k);
      k := k + 1;
    }
    assert x[..] == target;
  }

  /**
   * `spectral::fft_recursive`: nothing to do for N <= 1; otherwise copy the
   * even and odd slices, transform each with the iterative fft, and combine
   * them into x.
   */
  method FftRecursive<T>(x: array<T>, bf: Butterfly<T>, cb: Butterfly<T>)
    requires x.Length <= 1 || (IsPowerOfTwo(x.Length) && x.Length < 0x1_0000_0000_0000_0000)
    modifies x
    ensures x[..] == FftRecursiveResult(old(x[..]), bf, cb)
  {
    var N := x.Length;
    if N <= 1 {
      return;
    }
    HalfOfPowerOfTwo(N);
    var half := N / 2;
    var even := new T[half](k requires 0 <= k < half reads x => x[2 * k]);
    var odd := new T[half](k requires 0 <= k < half reads x => x[2 * k + 1]);
    assert even[..] == Evens(x[..]);
    assert odd[..] == Odds(x[..]);
    Fft(even, bf);
    Fft(odd, bf);
    CombineHalves(x, even, odd, cb);
  }

  // ---------------------------------------------------------------------------
  // Chirp Z-transform sizes
  // ---------------------------------------------------------------------------

  /** 2^64, the modulus of `size_t` arithmetic. */
  const SizeModulus: nat := 0x1_0000_0000_0000_0000

  /** `chirpLen = length + length - 1` in `size_t` arithmetic, wrapping below zero. */
  function ChirpLength(length: uint64): (c: uint64)
  {
    (length + length - 1) % SizeModulus
  }

  /**
   * chirpLen is SIZE_MAX for an empty input, 2N - 1 while that fits in 64 bits,
   * and 2N - 1 - 2^64 once N exceeds 2^63.
   */
  lemma ChirpLengthValue(length: uint64)
    ensures length == 0 ==> ChirpLength(length) == SizeModulus - 1
    ensures 0 < length <= 0x8000_0000_0000_0000 ==> ChirpLength(length) == 2 * length - 1
    ensures length > 0x8000_0000_0000_0000 ==> ChirpLength(length) == 2 * length - 1 - SizeModulus
  {
    if length == 0 {
      DivModUnique(-1, SizeModulus, -1, SizeModulus - 1);
    } else if length <= 0x8000_0000_0000_0000 {
      DivModUnique(2 * length - 1, SizeModulus, 0, 2 * length - 1);
    } else {
      DivModUnique(2 * length - 1, SizeModulus, 1, 2 * length - 1 - SizeModulus);
    }
  }

  /** A power of two strictly below 2^63 is at most 2^62. */
  lemma PowerBelowTop(e: nat)
    requires Pow2(e) < 0x8000_0000_0000_0000
    ensures 2 * Pow2(e) <= 0x8000_0000_0000_0000
  {
    Pow2Of64();
    assert Pow2(64) == 2 * Pow2(63);
    if e >= 63 {
      Pow2Monotone(63, e);
    }
    Pow2Monotone(e + 1, 63);
  }

  /**
   * The padding loop of `czt`: `length_pow2` starts at 1 and doubles while it
   * is below chirpLen, giving the smallest power of two >= chirpLen. For
   * chirpLen > 2^63 the `size_t` doubling wraps to 0 and the loop never ends.
   */
  method PaddedLength(chirpLen: uint64) returns (lengthPow2: uint64)
    requires chirpLen <= 0x8000_0000_0000_0000
    ensures IsPowerOfTwo(lengthPow2) && chirpLen <= lengthPow2 <= 0x8000_0000_0000_0000
    ensures forall e: nat :: chirpLen <= Pow2(e) ==> lengthPow2 <= Pow2(e)
  {
    lengthPow2 := 1;
    ghost var exp: nat := 0;
    while lengthPow2 < chirpLen
      invariant lengthPow2 == Pow2(exp) && lengthPow2 <= 0x8000_0000_0000_0000
      invariant exp == 0 || Pow2(exp - 1) < chirpLen
      decreases chirpLen - lengthPow2
    {
      PowerBelowTop(exp);
      lengthPow2 := lengthPow2 * 2;
      exp := exp + 1;
    }
    Log2OfPow2(exp);
    forall e: nat | chirpLen <= Pow2(e)
      ensures lengthPow2 <= Pow2(e)
    {
      if e < exp {
        Pow2Monotone(e, exp - 1);
      } else {
        Pow2Monotone(exp, e);
      }
    }
  }

  /** The buffer sizes of `czt`, or the allocation failure for an empty input. */
  datatype CztSizes = Sizes(chirpLen: nat, lengthPow2: nat) | ChirpAllocationFails

  /**
   * The sizes `czt` computes for an input of the given length. An empty input
   * makes chirpLen SIZE_MAX, and allocating a chirp array of that many
   * complex values fails before any loop runs.
   */
  method CztLengths(length: uint64) returns (r: CztSizes)
    requires length <= 0x4000_0000_0000_0000
    ensures length == 0 <==> r == ChirpAllocationFails
    ensures r.Sizes? ==> r.chirpLen == 2 * length - 1
    ensures r.Sizes? ==> IsPowerOfTwo(r.lengthPow2) && r.chirpLen <= r.lengthPow2 <= 0x8000_0000_0000_0000
    ensures r.Sizes? ==> forall e: nat :: r.chirpLen <= Pow2(e) ==> r.lengthPow2 <= Pow2(e)
  {
    var chirpLen := ChirpLength(length);
    ChirpLengthValue(length);
    if chirpLen == SizeModulus - 1 {
      return ChirpAllocationFails;
    }
    var lengthPow2 := PaddedLength(chirpLen);
    r := Sizes(chirpLen, lengthPow2);
  }

  /**
   * Every index of the Y, V and output loops of `czt` is in range: for
   * i < length, Y[i] is written below length_pow2 and chirp and G are read at
   * length - 1 + i < chirpLen <= length_pow2; for i < chirpLen, V[i] is
   * written below length_pow2.
   */
  lemma CztIndicesInRange(length: nat, chirpLen: nat, lengthPow2: nat, i: nat)
    requires length > 0 && chirpLen == 2 * length - 1 && chirpLen <= lengthPow2
    ensures i < length ==> length - 1 + i < chirpLen <= lengthPow2 && i < lengthPow2
    ensures i < chirpLen ==> i < lengthPow2
  {
  }
}
