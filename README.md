# Suffix arrays and the integer skeleton of the FFT, in Dafny

This project models two pieces of integer and combinatorial logic from a C++
algorithms collection and proves properties of them.

**Suffix array and longest common prefix** (`string_algorithms`).
- `suffix_t` is a window `[start, end)` over a byte buffer. Here it is the
  datatype `Suffixes.Suffix`.
- The hand-written `std::less<suffix_t>` comparator is the loop
  `Suffixes.Less`. It is proved to compute the lexicographic order
  `LexLess` on the window's bytes, and that order is proved to be a strict
  weak order.
- `std::map<suffix_t, size_t>` is the sequence of its entries in iteration
  order (`SuffixMap`). The entries are strictly increasing. `m[k] = v` is
  `Put`.
- `get_suffix_array` and `get_lcp` are the methods `GetSuffixArray` and
  `GetLcp` (`StringAlgorithms`). They specify:
  - the map's contents;
  - each suffix's common-prefix length with its predecessor;
  - the maximum of those lengths, which bounds the common prefix of every
    pair of suffixes.

  The test input `bananabanana` is proved to give 12 entries and an lcp of 6.

**The integer skeleton of `fourier_transform.cpp`** (`BitReversal`,
`FourierTransform`).
- The 256-entry table and `bit_reverse` are proved to reverse 8 and 64 bits
  respectively. The reference is the bit reversal `RevBits` on naturals.
- The butterfly stages of `spectral::fft` are in-place array loops over a
  generic element type `T`. The butterfly arithmetic is a function parameter
  (`Butterfly<T>`). Each stage is proved to write exactly the result of a
  specification function `Stage`.
- The final reordering pass is proved to be the bit-reversal permutation. It
  is an involution and keeps the multiset of elements.
- `fft_recursive` is modelled by:
  - the even/odd slices, proved to partition the positions;
  - the iterative transforms of the two halves;
  - the combine loop, which writes every position exactly once.
- The `czt` size arithmetic is modelled as:
  - `chirpLen` in wrapping `size_t` arithmetic;
  - the doubling loop, proved to give the smallest power of two at least
    `chirpLen`;
  - the bounds of every index the later loops use.

`Binary` holds powers of two and the shift and mask operations on naturals
(`High` is `>>`, `Low` is `& (2^w - 1)`), plus the division facts the bit
proofs need.

## Model

| member | source | states |
|---|---|---|
| Suffixes.Suffix.Length | string_algorithms/string_algorithms.h:43-45 | length() is end - start: start plus the length is end, for a window with start <= end |
| Suffixes.Suffix.Bytes | string_algorithms/string_algorithms.h:39-41 | the window's bytes are data_ptr()[0..length()): byte i is data[start + i], and there are length() of them |
| Suffixes.Less | string_algorithms/string_algorithms.h:51-70 | the comparator loop returns exactly LexLess of the two windows' bytes |
| Suffixes.LexLessByCommonPrefix | string_algorithms/string_algorithms.h:57-69 | lhs < rhs iff lhs is a proper prefix of rhs, or both extend past their longest common prefix and lhs's byte there is smaller |
| Suffixes.LexLessIrreflexive | string_algorithms/string_algorithms.h:57-67 | no byte string is less than itself |
| Suffixes.LexLessProperPrefix | string_algorithms/string_algorithms.h:65-66 | a proper prefix is less than the longer string |
| Suffixes.LexLessMismatch | string_algorithms/string_algorithms.h:57-69 | past an equal prefix, the first differing byte decides, in both directions |
| Suffixes.LexLessAsymmetric | string_algorithms/string_algorithms.h:49-74 | never both a < b and b < a |
| Suffixes.LexLessTransitive | string_algorithms/string_algorithms.h:49-74 | a < b and b < c give a < c |
| Suffixes.LexLessTotal | string_algorithms/string_algorithms.h:49-74 | different byte strings are ordered one way or the other, so equivalence is byte equality |
| Suffixes.SameBytesEquivalent | string_algorithms/string_algorithms.h:39-69 | windows with equal bytes at any offsets are equivalent: neither is less |
| Suffixes.DifferentBytesOrdered | string_algorithms/string_algorithms.h:39-69 | for windows with different bytes exactly one direction is less |
| Suffixes.CommonPrefixLength | string_algorithms/string_algorithms.cpp:51-58 | the result is a common prefix length no larger than either string, and it cannot be extended |
| SuffixMap.Put | string_algorithms/string_algorithms.cpp:35 | `sa[key] = v` keeps every key a valid window; what it does to the entries is stated by the PutSorted, PutNew, PutExisting and PutGreatest rows below |
| SuffixMap.PutSorted | string_algorithms/string_algorithms.h:74 | inserting or overwriting keeps the map's keys strictly increasing; every key afterwards is the new key or an old one |
| SuffixMap.PutNew | string_algorithms/string_algorithms.cpp:35 | `sa[suffix] = i` with a key not yet present adds exactly the entry (suffix, i) |
| SuffixMap.PutExisting | string_algorithms/string_algorithms.h:74 | assigning to a key equivalent to a present one keeps that key and replaces only its value |
| SuffixMap.PutGreatest | string_algorithms/string_algorithms.cpp:64 | assigning a key greater than every present key appends the entry at the end |
| StringAlgorithms.GetSuffixArray | string_algorithms/string_algorithms.cpp:29-39 | the map is sorted, has exactly count entries, each the suffix [k, count) mapped to k, and holds every start below count (none when count is 0) |
| StringAlgorithms.CommonPrefix | string_algorithms/string_algorithms.cpp:51-58 | the inner while loop counts exactly the longest common prefix of the two suffixes |
| StringAlgorithms.CommonPrefixBetween | string_algorithms/string_algorithms.cpp:49-64 | for a < b < c, the common prefix of a and c is no longer than that of a and b or b and c |
| StringAlgorithms.NeighboursBound | string_algorithms/string_algorithms.cpp:60-68 | a bound on every neighbouring pair's common prefix bounds the common prefix of every pair of suffixes |
| StringAlgorithms.GetLcp | string_algorithms/string_algorithms.cpp:41-71 | cp_array has the input's keys in order; its first value is 0; each later value is the common prefix length with the predecessor; lcp is the largest value, attained by some entry (so 0 for a single suffix), and bounds the common prefix of every pair |
| StringAlgorithms.BananabananaExample | string_algorithms/test_lcp.cpp:39-46 | the 12-byte input bananabanana gives 12 entries and lcp 6 |
| BitReversal.TableIsReversal | fourier_transform/fourier_transform.cpp:30-48 | every entry b of BitReverseTable256 is the 8-bit reversal of b |
| BitReversal.ReversedBytesValue | fourier_transform/fourier_transform.cpp:55-62 | writing output byte i as the table entry of input byte n-1-i reverses all 8n bits |
| BitReversal.BitReverse | fourier_transform/fourier_transform.cpp:50-65 | bit_reverse(v) is the 64-bit reversal of v |
| BitReversal.BitReverseBit | fourier_transform/fourier_transform.cpp:50-65 | bit j of bit_reverse(v) is bit 63 - j of v |
| BitReversal.BitReverseInvolution | fourier_transform/fourier_transform.cpp:50-65 | bit_reverse(bit_reverse(v)) == v |
| BitReversal.RevBitsInvolution | fourier_transform/fourier_transform.cpp:96 | reversing w bits twice gives back the low w bits |
| BitReversal.ShiftedReversal | fourier_transform/fourier_transform.cpp:96 | the top m bits of a w-bit reversal are the m-bit reversal of the low m bits |
| BitReversal.ReverseIndex | fourier_transform/fourier_transform.cpp:96 | `bit_reverse(a) >> (64 - m)` is the m-bit reversal of the low m bits of a |
| BitReversal.ReverseIndexInvolution | fourier_transform/fourier_transform.cpp:93-96 | for a < 2^m the reordering index is below 2^m and applying it twice gives a |
| FourierTransform.Log2 | fourier_transform/fourier_transform.cpp:93 | the exact integer log: 2^m <= n < 2^(m+1) |
| FourierTransform.Log2OfPow2 | fourier_transform/fourier_transform.cpp:93 | for N = 2^m the log is m |
| FourierTransform.ButterflyPartner | fourier_transform/fourier_transform.cpp:80-88 | in the stage with half width k every index below N is either the start a of a pair with a + k < N or the partner of the pair starting at index - k, never both |
| FourierTransform.ButterflyOffset | fourier_transform/fourier_transform.cpp:82-88 | the inner loop for offset l writes the stage result at exactly the pair positions with offset l and leaves the rest alone |
| FourierTransform.ButterflyStage | fourier_transform/fourier_transform.cpp:76-90 | one pass of the outer loop leaves the array equal to Stage of its old contents |
| FourierTransform.StageWidthsHalve | fourier_transform/fourier_transform.cpp:74-77 | Stages runs its stages with the half widths StageWidths lists; for N = 2^m the i-th of them times 2^(i+1) is N, so the widths are N/2, N/4, ..., 1 and there are m stages |
| FourierTransform.Mirror | fourier_transform/fourier_transform.cpp:96 | the reordering partner of a position below 2^m is below 2^m |
| FourierTransform.MirrorTwice | fourier_transform/fourier_transform.cpp:94-101 | mirroring twice gives the position back |
| FourierTransform.MirrorBit | fourier_transform/fourier_transform.cpp:96 | bit j of the partner is bit m - 1 - j of the position |
| FourierTransform.ReorderPartner | fourier_transform/fourier_transform.cpp:96 | the computed partner b of a is its m-bit mirror |
| FourierTransform.BitReversalPermute | fourier_transform/fourier_transform.cpp:94-101 | the reordering loop leaves new[i] == old[mirror(i)] for every i and keeps the multiset of elements |
| FourierTransform.BitReversedTwice | fourier_transform/fourier_transform.cpp:94-101 | applying the reordering twice restores the array |
| FourierTransform.Fft | fourier_transform/fourier_transform.cpp:67-102 | for N = 2^m, the array ends as the m stages with half widths N/2, ..., 1 followed by the bit-reversal reordering |
| FourierTransform.Evens | fourier_transform/fourier_transform.cpp:120 | `x[std::slice(0, N/2, 2)]`: N/2 elements, element k being x at the k-th position of that slice |
| FourierTransform.Odds | fourier_transform/fourier_transform.cpp:121 | `x[std::slice(1, N/2, 2)]`: N/2 elements, element k being x at the k-th position of that slice |
| FourierTransform.SlicesPartition | fourier_transform/fourier_transform.cpp:120-121 | the slices (0, n, 2) and (1, n, 2) are increasing, lie below 2n, share no position and together cover every position below 2n |
| FourierTransform.InterleaveEvensOdds | fourier_transform/fourier_transform.cpp:120-121 | interleaving the even and odd slices gives back the first 2 * (N/2) elements |
| FourierTransform.EvensOddsInterleave | fourier_transform/fourier_transform.cpp:120-121 | slicing an interleaving gives back both halves |
| FourierTransform.HalfOfPowerOfTwo | fourier_transform/fourier_transform.cpp:120-124 | for a power of two N > 1 the halves have the power-of-two length N/2 that fft on them needs |
| FourierTransform.CombineWritesOnce | fourier_transform/fourier_transform.cpp:126-131 | step k of the combine loop writes exactly x[k] and x[k + N/2], neither written by an earlier step, and after N/2 steps every position below N is written; CombineHalves' loop invariant is stated over these written positions |
| FourierTransform.CombineHalves | fourier_transform/fourier_transform.cpp:126-131 | the combine loop leaves x equal to Combined of the transformed halves |
| FourierTransform.FftRecursive | fourier_transform/fourier_transform.cpp:115-132 | for N <= 1 the array is unchanged; otherwise it ends as the combine of the iterative transforms of its even and odd slices |
| FourierTransform.ChirpLengthValue | fourier_transform/fourier_transform.cpp:149 | the `size_t` value ChirpLength computes: SIZE_MAX for N = 0, 2N - 1 for 0 < N <= 2^63, and 2N - 1 - 2^64 above that |
| FourierTransform.PaddedLength | fourier_transform/fourier_transform.cpp:160-163 | the doubling loop ends with the smallest power of two >= chirpLen, which fits in size_t |
| FourierTransform.CztLengths | fourier_transform/fourier_transform.cpp:147-163 | an empty input fails at the chirp allocation; otherwise chirpLen is 2N - 1 and length_pow2 the smallest power of two >= chirpLen |
| FourierTransform.CztIndicesInRange | fourier_transform/fourier_transform.cpp:166-186 | the Y, V, G and chirp indices of the later loops of czt are below the sizes of those arrays |

## Left out

- Complex floating-point arithmetic is not modelled. The butterfly values
  `x[a] + x[b]` and `(x[a] - x[b]) * tmp`, the twiddle recurrence
  `phi = phi * phi`, and the combine values `even[k] +/- polar(...) * odd[k]`
  are the parameters `bf` and `cb`. The DFT identities hold only
  approximately over doubles.
- `ifft` and `ifft_recursive` are not modelled (conjugate, transform,
  conjugate, divide by N). Everything except the transform is
  floating-point arithmetic.
- The chirp values, `ONE / chirp[i]`, `Y * V` and the czt transform calls are
  not modelled. Of czt, only the sizes and index bounds are.
- `log2(N)` in double is replaced by the exact integer `Log2`. For a power
  of two the two agree.
- `std::map` and `std::valarray` are library types, modelled as sequences.
  `Put` models `operator[]` followed by assignment. `new T[half](...)` models
  the slice copy.
- Fft: requires N to be a power of two below 2^64. For other lengths the stage
  loop of the source can index past the end; for N = 5 it reaches b = 5.
  N = 0 is excluded as well: `log2(0)` is minus infinity, and its cast to
  `uint64_t` at line 93 is undefined behaviour. The
  `int` counters `l` and `a` (lines 80, 82, 94) are taken not to overflow.
- FftRecursive: requires N <= 1 or N a power of two, because it calls the
  iterative fft on the halves.
- ReverseIndex: for m = 0 the C++ shift by 64 is undefined. The model shifts
  out all 64 bits. The only index is then 0, and bit_reverse(0) = 0 under
  any reading.
- bit_reverse reads and writes the bytes of a word through pointers. The
  model fixes little-endian byte order; the mapping is symmetric, so the
  result does not depend on it.
- GetSuffixArray: requires count <= INT_MAX + 1, because the loop counter is
  an `int` initialised to `count - 1`, which must fit in an `int`.
- GetLcp: requires a non-empty suffix array. The source dereferences
  `suffix_array.begin()` (lines 46-47), which is undefined for an empty map.
- GetLcp: `max` and `common` are `int` in the source. The model uses
  unbounded naturals.
- PaddedLength: requires chirpLen <= 2^63. For a larger chirpLen the
  `size_t` doubling wraps to 0 and the loop never ends.
- CztLengths: requires length <= 2^62. A larger valarray of 16-byte complex
  values cannot be allocated in a 64-bit address space. For length 0, the
  allocation of SIZE_MAX complex values is modelled as the error result
  `ChirpAllocationFails`.
- The console printing harnesses are not modelled. Their input
  `bananabanana` is the concrete case `BananabananaExample`.
