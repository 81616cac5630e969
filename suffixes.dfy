// suffix_t, a window [start, end) over a byte buffer, and the hand-written
// std::less<suffix_t> comparator that orders windows by their bytes.
module Suffixes {
  import opened Binary

  /**
   * suffix_t: the buffer `data` with the window [start, end). The C++ struct
   * holds a pointer to the buffer; here the buffer is the whole sequence.
   */
  datatype Suffix = Suffix(start: nat, end: nat, data: seq<uint8>)
  {
    /** The window lies inside the buffer and does not run backwards. */
    predicate Valid()
    {
      start <= end <= |data|
    }

    /** length(): end - start, which presumes start <= end. */
    function Length(): (n: nat)
      requires Valid()
      ensures start + n == end
    {
      end - start
    }

    /** The bytes data_ptr()[0 .. length()). */
    function Bytes(): (s: seq<uint8>)
      requires Valid()
      ensures |s| == Length()
      ensures forall i :: 0 <= i < |s| ==> s[i] == data[start + i]
    {
      data[start..end]
    }
  }

  /**
   * The order the comparator computes on byte strings: an exhausted string
   * is less exactly when the other is not exhausted, otherwise equal first
   * bytes defer to the rest and differing first bytes decide.
   */
  predicate LexLess(a: seq<uint8>, b: seq<uint8>)
  {
    if |a| == 0 || |b| == 0 then |a| < |b|
    else if a[0] == b[0] then LexLess(a[1..], b[1..])
    else a[0] < b[0]
  }

  /** The length of the longest common prefix of a and b. */
  function CommonPrefixLength(a: seq<uint8>, b: seq<uint8>): (n: nat)
    ensures n <= |a| && n <= |b|
    ensures a[..n] == b[..n]
    ensures n == |a| || n == |b| || a[n] != b[n]
  {
    if |a| == 0 || |b| == 0 || a[0] != b[0] then 0
    else
      var n := 1 + CommonPrefixLength(a[1..], b[1..]);
      assert a[..n] == [a[0]] + a[1..][..n - 1];
      assert b[..n] == [b[0]] + b[1..][..n - 1];
      n
  }

  /** Any common prefix that cannot be extended is the longest one. */
  lemma CommonPrefixUnique(a: seq<uint8>, b: seq<uint8>, n: nat)
    requires n <= |a| && n <= |b| && a[..n] == b[..n]
    requires n == |a| || n == |b| || a[n] != b[n]
    ensures n == CommonPrefixLength(a, b)
  {
  }

  lemma CommonPrefixSymmetric(a: seq<uint8>, b: seq<uint8>)
    ensures CommonPrefixLength(a, b) == CommonPrefixLength(b, a)
  {
    CommonPrefixUnique(b, a, CommonPrefixLength(a, b));
  }

  /**
   * The comparator's result in terms of the first mismatch: a is less than b
   * exactly when a is a proper prefix of b, or both go on past their common
   * prefix and a's byte there is the smaller.
   */
  lemma {:induction false} LexLessByCommonPrefix(a: seq<uint8>, b: seq<uint8>)
    ensures var n := CommonPrefixLength(a, b);
      LexLess(a, b) <==> (n == |a| && n < |b|) || (n < |a| && n < |b| && a[n] < b[n])
  {
    if |a| > 0 && |b| > 0 && a[0] == b[0] {
      LexLessByCommonPrefix(a[1..], b[1..]);
    }
  }

  /** No byte string is less than itself. */
  lemma LexLessIrreflexive(a: seq<uint8>)
    ensures !LexLess(a, a)
  {
    LexLessByCommonPrefix(a, a);
    CommonPrefixUnique(a, a, |a|);
  }

  /** A proper prefix is less than the string it starts. */
  lemma LexLessProperPrefix(a: seq<uint8>, b: seq<uint8>)
    requires |a| < |b| && a == b[..|a|]
    ensures LexLess(a, b)
  {
    assert a[..|a|] == a;
    CommonPrefixUnique(a, b, |a|);
    LexLessByCommonPrefix(a, b);
  }

  /** Past a common prefix shorter than both, the first differing byte decides. */
  lemma LexLessMismatch(a: seq<uint8>, b: seq<uint8>, n: nat)
    requires n < |a| && n < |b| && a[..n] == b[..n] && a[n] != b[n]
    ensures LexLess(a, b) <==> a[n] < b[n]
  {
    CommonPrefixUnique(a, b, n);
    LexLessByCommonPrefix(a, b);
  }

  lemma LexLessAsymmetric(a: seq<uint8>, b: seq<uint8>)
    ensures !(LexLess(a, b) && LexLess(b, a))
  {
    LexLessByCommonPrefix(a, b);
    LexLessByCommonPrefix(b, a);
    CommonPrefixSymmetric(a, b);
  }

  lemma LexLessTransitive(a: seq<uint8>, b: seq<uint8>, c: seq<uint8>)
    requires LexLess(a, b) && LexLess(b, c)
    ensures LexLess(a, c)
  {
    var m, n := CommonPrefixLength(a, b), CommonPrefixLength(b, c);
    LexLessByCommonPrefix(a, b);
    LexLessByCommonPrefix(b, c);
    var k := if m < n then m else n;
    assert a[..k] == c[..k] by {
      assert a[..k] == a[..m][..k] == b[..m][..k] == b[..k];
      assert b[..k] == b[..n][..k] == c[..n][..k] == c[..k];
    }
    if m < n {
      assert b[m] == c[m] by {
        assert b[m] == b[..n][m] == c[..n][m] == c[m];
      }
      if m == |a| {
        assert a == c[..|a|];
        LexLessProperPrefix(a, c);
      } else {
        LexLessMismatch(a, c, m);
      }
    } else if n < m {
      assert a[n] == b[n] by {
        assert a[n] == a[..m][n] == b[..m][n] == b[n];
      }
      LexLessMismatch(a, c, n);
    } else {
      if m == |a| {
        assert a == c[..|a|];
        LexLessProperPrefix(a, c);
      } else {
        LexLessMismatch(a, c, m);
      }
    }
  }

  /** Two different byte strings are ordered one way or the other. */
  lemma LexLessTotal(a: seq<uint8>, b: seq<uint8>)
    requires a != b
    ensures LexLess(a, b) || LexLess(b, a)
  {
    var n := CommonPrefixLength(a, b);
    LexLessByCommonPrefix(a, b);
    LexLessByCommonPrefix(b, a);
    CommonPrefixSymmetric(a, b);
  }

  /** The comparator on windows: it depends on nothing but the windows' bytes. */
  predicate SuffixLess(x: Suffix, y: Suffix)
    requires x.Valid() && y.Valid()
  {
    LexLess(x.Bytes(), y.Bytes())
  }

  /**
   * std::less<suffix_t>::operator(): walk both windows while neither is
   * exhausted and the bytes agree; then an exhausted window decides by the
   * remaining lengths, otherwise the current bytes decide.
   */
  method Less(lhs: Suffix, rhs: Suffix) returns (r: bool)
    requires lhs.Valid() && rhs.Valid()
    ensures r == LexLess(lhs.Bytes(), rhs.Bytes())
  {
    var lhsLen, rhsLen := lhs.Length(), rhs.Length();
    var lptr, rptr := lhs.start, rhs.start;
    while lhsLen > 0 && rhsLen > 0 && lhs.data[lptr] == rhs.data[rptr]
      invariant lhs.start <= lptr && lptr + lhsLen == lhs.end
      invariant rhs.start <= rptr && rptr + rhsLen == rhs.end
      invariant LexLess(lhs.Bytes(), rhs.Bytes()) == LexLess(lhs.data[lptr..lhs.end], rhs.data[rptr..rhs.end])
      decreases lhsLen
    {
      assert lhs.data[lptr..lhs.end][1..] == lhs.data[lptr + 1..lhs.end];
      assert rhs.data[rptr..rhs.end][1..] == rhs.data[rptr + 1..rhs.end];
      lhsLen := lhsLen - 1;
      rhsLen := rhsLen - 1;
      lptr := lptr + 1;
      rptr := rptr + 1;
    }
    if lhsLen == 0 || rhsLen == 0 {
      return lhsLen < rhsLen;
    }
    return lhs.data[lptr] < rhs.data[rptr];
  }

  /** Windows with equal bytes at any offsets are equivalent: neither is less. */
  lemma SameBytesEquivalent(x: Suffix, y: Suffix)
    requires x.Valid() && y.Valid() && x.Bytes() == y.Bytes()
    ensures !SuffixLess(x, y) && !SuffixLess(y, x)
  {
    LexLessIrreflexive(x.Bytes());
  }

  /** Windows with different bytes: exactly one is less than the other. */
  lemma DifferentBytesOrdered(x: Suffix, y: Suffix)
    requires x.Valid() && y.Valid() && x.Bytes() != y.Bytes()
    ensures SuffixLess(x, y) != SuffixLess(y, x)
  {
    LexLessTotal(x.Bytes(), y.Bytes());
    LexLessAsymmetric(x.Bytes(), y.Bytes());
  }
}
