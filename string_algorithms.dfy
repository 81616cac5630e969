// get_suffix_array and get_lcp: the naive suffix array of a byte buffer as
// an ordered map from suffix to start index, and the common-prefix lengths
// of neighbouring suffixes in that order together with their maximum.
module StringAlgorithms {
  import opened Binary
  import opened Suffixes
  import opened SuffixMap

  /** The largest value of a C++ `int`, the type of get_suffix_array's loop counter. */
  const IntMax: nat := 0x7FFF_FFFF

  /**
   * get_suffix_array: for i from count-1 down to 0, `sa[{i, count, data}] = i`.
   * The result holds exactly one entry per start below count, each suffix
   * ending at count and mapped to its own start, in comparator order.
   */
  method GetSuffixArray(data: seq<uint8>, count: nat) returns (sa: seq<Entry>)
    requires count <= |data|
    requires count <= IntMax + 1
    ensures Sorted(sa)
    ensures |sa| == count
    ensures forall k :: 0 <= k < |sa| ==> sa[k].value < count && sa[k].key == Suffix(sa[k].value, count, data)
    ensures forall i :: 0 <= i < count ==> Entry(Suffix(i, count, data), i) in sa
  {
    sa := [];
    var i: int := count - 1;
    while i >= 0
      invariant -1 <= i < count
      invariant Sorted(sa)
      invariant |sa| == count - 1 - i
      invariant forall k :: 0 <= k < |sa| ==> i < sa[k].value < count && sa[k].key == Suffix(sa[k].value, count, data)
      invariant forall j :: i < j < count ==> Entry(Suffix(j, count, data), j) in sa
    {
      var suffix := Suffix(i, count, data);
      assert !HasEquivalentKey(sa, suffix) by {
        forall k | 0 <= k < |sa|
          ensures sa[k].key.Bytes() != suffix.Bytes()
        {
          assert |sa[k].key.Bytes()| < |suffix.Bytes()|;
        }
      }
      PutNew(sa, suffix, i);
      PutSorted(sa, suffix, i);
      ghost var old_sa := sa;
      sa := Put(sa, suffix, i);
      forall k | 0 <= k < |sa|
        ensures i <= sa[k].value < count && sa[k].key == Suffix(sa[k].value, count, data)
      {
        assert sa[k] in multiset(old_sa) + multiset{Entry(suffix, i)};
      }
      forall j | i <= j < count
        ensures Entry(Suffix(j, count, data), j) in sa
      {
        assert Entry(Suffix(j, count, data), j) in multiset(old_sa) + multiset{Entry(suffix, i)};
      }
      i := i - 1;
    }
  }

  /**
   * The inner loop of get_lcp: count equal bytes from the start of both
   * suffixes while fewer than the shorter length have been compared. (The
   * C++ condition also steps `min` and both pointers once more on exit;
   * those values are not used afterwards.)
   */
  method CommonPrefix(prev: Suffix, curr: Suffix) returns (common: nat)
    requires prev.Valid() && curr.Valid()
    ensures common == CommonPrefixLength(prev.Bytes(), curr.Bytes())
  {
    var prevSuffix, currSuffix := prev.start, curr.start;
    var shorter: nat := if prev.Length() < curr.Length() then prev.Length() else curr.Length();
    var min: nat := shorter;
    common := 0;
    while min > 0 && prev.data[prevSuffix] == curr.data[currSuffix]
      invariant common + min == shorter
      invariant shorter <= |prev.Bytes()| && shorter <= |curr.Bytes()|
      invariant prevSuffix == prev.start + common && currSuffix == curr.start + common
      invariant prev.Bytes()[..common] == curr.Bytes()[..common]
      decreases min
    {
      assert prev.Bytes()[..common + 1] == prev.Bytes()[..common] + [prev.data[prevSuffix]];
      assert curr.Bytes()[..common + 1] == curr.Bytes()[..common] + [curr.data[currSuffix]];
      min := min - 1;
      prevSuffix := prevSuffix + 1;
      currSuffix := currSuffix + 1;
      common := common + 1;
    }
    assert common == |prev.Bytes()| || common == |curr.Bytes()| || prev.Bytes()[common] != curr.Bytes()[common];
    CommonPrefixUnique(prev.Bytes(), curr.Bytes(), common);
  }

  /**
   * Between two strings in order, a third one shares with each of them at
   * least the prefix the outer two share.
   */
  lemma CommonPrefixBetween(a: seq<uint8>, b: seq<uint8>, c: seq<uint8>)
    requires LexLess(a, b) && LexLess(b, c)
    ensures CommonPrefixLength(a, c) <= CommonPrefixLength(a, b)
    ensures CommonPrefixLength(a, c) <= CommonPrefixLength(b, c)
  {
    var n := CommonPrefixLength(a, c);
    var m := CommonPrefixLength(a, b);
    if m < n {
      assert a[m] == c[m] by {
        assert a[m] == a[..n][m] == c[..n][m] == c[m];
      }
      if m == |b| {
        assert b == a[..|b|];
        LexLessProperPrefix(b, a);
        LexLessAsymmetric(a, b);
      } else {
        LexLessMismatch(a, b, m);
        assert b[..m] == c[..m] by {
          assert b[..m] == a[..m] == a[..n][..m] == c[..n][..m] == c[..m];
        }
        LexLessMismatch(b, c, m);
      }
    }
    var l := CommonPrefixLength(b, c);
    if l < n {
      assert a[l] == c[l] by {
        assert a[l] == a[..n][l] == c[..n][l] == c[l];
      }
      assert a[..l] == b[..l] by {
        assert a[..l] == a[..n][..l] == c[..n][..l] == c[..l];
      }
      LexLessMismatch(b, c, l);
      LexLessMismatch(a, b, l);
    }
  }

  /**
   * In an ordered map, the common prefix of any two keys is no longer than
   * that of any neighbouring pair between them.
   */
  lemma NeighboursShareMore(sa: seq<Entry>, i: nat, j: nat, k: nat)
    requires Sorted(sa) && i < k <= j < |sa|
    ensures CommonPrefixLength(sa[i].key.Bytes(), sa[j].key.Bytes())
      <= CommonPrefixLength(sa[k - 1].key.Bytes(), sa[k].key.Bytes())
  {
    var si, sp, sk, sj := sa[i].key.Bytes(), sa[k - 1].key.Bytes(), sa[k].key.Bytes(), sa[j].key.Bytes();
    if i < k - 1 {
      CommonPrefixBetween(si, sp, sj);
    }
    if k < j {
      CommonPrefixBetween(sp, sk, sj);
    }
  }

  /**
   * cp holds the first n suffixes of sa, in order: the first with 0 and each
   * later one with its common-prefix length with its predecessor.
   */
  predicate PrefixTable(sa: seq<Entry>, cp: seq<Entry>, n: nat)
    requires ValidKeys(sa)
  {
    0 < n <= |sa| && |cp| == n &&
    (forall k :: 0 <= k < n ==> cp[k].key == sa[k].key) &&
    cp[0].value == 0 &&
    forall k :: 0 < k < n ==> cp[k].value == CommonPrefixLength(sa[k - 1].key.Bytes(), sa[k].key.Bytes())
  }

  /**
   * Inserting the next suffix of an ordered map with its common-prefix
   * length appends it and extends the table by one.
   */
  lemma PrefixTableStep(sa: seq<Entry>, cp: seq<Entry>, n: nat, common: nat)
    requires Sorted(sa) && PrefixTable(sa, cp, n) && n < |sa|
    requires common == CommonPrefixLength(sa[n - 1].key.Bytes(), sa[n].key.Bytes())
    ensures Put(cp, sa[n].key, common) == cp + [Entry(sa[n].key, common)]
    ensures PrefixTable(sa, Put(cp, sa[n].key, common), n + 1)
  {
    assert forall k :: 0 <= k < |cp| ==> SuffixLess(cp[k].key, sa[n].key);
    PutGreatest(cp, sa[n].key, common);
  }

  /**
   * get_lcp: the first suffix in order gets 0; every later suffix gets the
   * length of its common prefix with its predecessor; lcp is the largest of
   * these, and so no two suffixes of the map share a longer prefix.
   */
  method GetLcp(sa: seq<Entry>) returns (lcp: nat, cpArray: seq<Entry>)
    requires |sa| > 0 && Sorted(sa)
    ensures Keys(cpArray) == Keys(sa)
    ensures cpArray[0].value == 0
    ensures forall k :: 0 < k < |sa| ==>
      cpArray[k].value == CommonPrefixLength(sa[k - 1].key.Bytes(), sa[k].key.Bytes())
    ensures forall k :: 0 <= k < |cpArray| ==> cpArray[k].value <= lcp
    ensures exists k :: 0 <= k < |cpArray| && cpArray[k].value == lcp
    ensures |sa| == 1 ==> lcp == 0
    ensures forall i, j :: 0 <= i < j < |sa| ==>
      CommonPrefixLength(sa[i].key.Bytes(), sa[j].key.Bytes()) <= lcp
  {
    var max := 0;
    ghost var at := 0;
    var prev := 0;
    cpArray := Put([], sa[prev].key, 0);
    var curr := prev + 1;
    while curr < |sa|
      invariant 1 <= curr <= |sa| && prev == curr - 1
      invariant PrefixTable(sa, cpArray, curr)
      invariant forall k :: 0 <= k < curr ==> cpArray[k].value <= max
      invariant 0 <= at < curr && cpArray[at].value == max
    {
      var common := CommonPrefix(sa[prev].key, sa[curr].key);
      if max < common {
        max := common;
        at := curr;
      }
      PrefixTableStep(sa, cpArray, curr, common);
      cpArray := Put(cpArray, sa[curr].key, common);
      prev := curr;
      curr := curr + 1;
    }
    lcp := max;
    PrefixTableKeys(sa, cpArray);
    NeighboursBound(sa, cpArray, lcp);
  }

  /** A complete table has the keys of the map, in the same order. */
  lemma PrefixTableKeys(sa: seq<Entry>, cp: seq<Entry>)
    requires ValidKeys(sa) && PrefixTable(sa, cp, |sa|)
    ensures Keys(cp) == Keys(sa)
  {
  }

  /** A bound on every neighbouring pair of an ordered map bounds every pair. */
  lemma NeighboursBound(sa: seq<Entry>, cp: seq<Entry>, bound: nat)
    requires Sorted(sa) && PrefixTable(sa, cp, |sa|)
    requires forall k :: 0 <= k < |cp| ==> cp[k].value <= bound
    ensures forall i, j :: 0 <= i < j < |sa| ==>
      CommonPrefixLength(sa[i].key.Bytes(), sa[j].key.Bytes()) <= bound
  {
    forall i, j | 0 <= i < j < |sa|
      ensures CommonPrefixLength(sa[i].key.Bytes(), sa[j].key.Bytes()) <= bound
    {
      NeighboursShareMore(sa, i, j, j);
    }
  }

  /** The test input "bananabanana" as bytes. */
  const Bananabanana: seq<uint8> := [98, 97, 110, 97, 110, 97, 98, 97, 110, 97, 110, 97]

  /** A byte where two strings differ bounds their common prefix. */
  lemma CommonPrefixBeforeMismatch(a: seq<uint8>, b: seq<uint8>, d: nat)
    requires d < |a| && d < |b| && a[d] != b[d]
    ensures CommonPrefixLength(a, b) <= d
  {
  }

  /** No two different suffixes of "bananabanana" share more than 6 bytes. */
  lemma BananabananaRepeats(s: nat, t: nat)
    requires s < t < 12
    ensures CommonPrefixLength(Bananabanana[s..], Bananabanana[t..]) <= 6
  {
    if s == 0 && t == 1 {
      CommonPrefixBeforeMismatch(Bananabanana[0..], Bananabanana[1..], 0);
    } else if s == 0 && t == 2 {
      CommonPrefixBeforeMismatch(Bananabanana[0..], Bananabanana[2..], 0);
    } else if s == 0 && t == 3 {
      CommonPrefixBeforeMismatch(Bananabanana[0..], Bananabanana[3..], 0);
    } else if s == 0 && t == 4 {
      CommonPrefixBeforeMismatch(Bananabanana[0..], Bananabanana[4..], 0);
    } else if s == 0 && t == 5 {
      CommonPrefixBeforeMismatch(Bananabanana[0..], Bananabanana[5..], 0);
    } else if s == 1 && t == 2 {
      CommonPrefixBeforeMismatch(Bananabanana[1..], Bananabanana[2..], 0);
    } else if s == 1 && t == 3 {
      CommonPrefixBeforeMismatch(Bananabanana[1..], Bananabanana[3..], 3);
    } else if s == 1 && t == 4 {
      CommonPrefixBeforeMismatch(Bananabanana[1..], Bananabanana[4..], 0);
    } else if s == 1 && t == 5 {
      CommonPrefixBeforeMismatch(Bananabanana[1..], Bananabanana[5..], 1);
    } else if s == 2 && t == 3 {
      CommonPrefixBeforeMismatch(Bananabanana[2..], Bananabanana[3..], 0);
    } else if s == 2 && t == 4 {
      CommonPrefixBeforeMismatch(Bananabanana[2..], Bananabanana[4..], 2);
    } else if s == 2 && t == 5 {
      CommonPrefixBeforeMismatch(Bananabanana[2..], Bananabanana[5..], 0);
    } else if s == 3 && t == 4 {
      CommonPrefixBeforeMismatch(Bananabanana[3..], Bananabanana[4..], 0);
    } else if s == 3 && t == 5 {
      CommonPrefixBeforeMismatch(Bananabanana[3..], Bananabanana[5..], 1);
    } else if s == 4 && t == 5 {
      CommonPrefixBeforeMismatch(Bananabanana[4..], Bananabanana[5..], 0);
    }
  }

  /** "bananabanana" shares its first 6 bytes with "banana" and no more. */
  lemma BananaPrefix()
    ensures CommonPrefixLength(Bananabanana[0..], Bananabanana[6..]) == 6
  {
    var a, b := Bananabanana[0..], Bananabanana[6..];
    assert a[..6] == b[..6];
    CommonPrefixUnique(a, b, 6);
  }

  /** A map holding the suffixes at 0 and 6 has a pair sharing 6 bytes, so lcp >= 6. */
  lemma BananabananaLcpAtLeast(sa: seq<Entry>, lcp: nat)
    requires ValidKeys(sa)
    requires Entry(Suffix(0, 12, Bananabanana), 0) in sa && Entry(Suffix(6, 12, Bananabanana), 6) in sa
    requires forall i, j :: 0 <= i < j < |sa| ==>
      CommonPrefixLength(sa[i].key.Bytes(), sa[j].key.Bytes()) <= lcp
    ensures lcp >= 6
  {
    var i :| 0 <= i < |sa| && sa[i] == Entry(Suffix(0, 12, Bananabanana), 0);
    var j :| 0 <= j < |sa| && sa[j] == Entry(Suffix(6, 12, Bananabanana), 6);
    BananaPrefix();
    if j < i {
      CommonPrefixSymmetric(sa[j].key.Bytes(), sa[i].key.Bytes());
    }
  }

  /** Neighbours in a map of distinct suffixes of "bananabanana" share at most 6 bytes. */
  lemma BananabananaNeighbours(sa: seq<Entry>, k: nat)
    requires Sorted(sa) && 0 < k < |sa|
    requires forall m :: 0 <= m < |sa| ==> sa[m].value < 12 && sa[m].key == Suffix(sa[m].value, 12, Bananabanana)
    ensures CommonPrefixLength(sa[k - 1].key.Bytes(), sa[k].key.Bytes()) <= 6
  {
    var s, t := sa[k - 1].value, sa[k].value;
    assert sa[k - 1].key.Bytes() == Bananabanana[s..];
    assert sa[k].key.Bytes() == Bananabanana[t..];
    if s == t {
      LexLessIrreflexive(sa[k].key.Bytes());
    } else if s < t {
      BananabananaRepeats(s, t);
    } else {
      BananabananaRepeats(t, s);
      CommonPrefixSymmetric(sa[k - 1].key.Bytes(), sa[k].key.Bytes());
    }
  }

  /**
   * The 12-byte input "bananabanana" yields 12 suffixes and a longest
   * common prefix of 6, that of "banana" and "bananabanana".
   */
  method BananabananaExample() returns (entries: nat, lcp: nat)
    ensures entries == 12 && lcp == 6
  {
    var sa := GetSuffixArray(Bananabanana, 12);
    var cpArray;
    lcp, cpArray := GetLcp(sa);
    entries := |sa|;
    BananabananaLcpAtLeast(sa, lcp);
    var k :| 0 <= k < |cpArray| && cpArray[k].value == lcp;
    if k > 0 {
      BananabananaNeighbours(sa, k);
    }
  }
}
