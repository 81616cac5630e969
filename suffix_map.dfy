// std::map<suffix_t, size_t> (suffix_array_t and common_prefix_array_t) as
// the sequence of its entries in iteration order, strictly increasing under
// std::less<suffix_t>. operator[] followed by assignment is Put.
module SuffixMap {

  import opened Suffixes

  datatype Entry = Entry(key: Suffix, value: nat)

  /** The keys in iteration order. */
  function Keys(m: seq<Entry>): (ks: seq<Suffix>)
    ensures |ks| == |m| && forall i :: 0 <= i < |m| ==> ks[i] == m[i].key
  {
    seq(|m|, i requires 0 <= i < |m| => m[i].key)
  }

  predicate ValidKeys(m: seq<Entry>)
  {
    forall i :: 0 <= i < |m| ==> m[i].key.Valid()
  }

  /** The map's ordering invariant: keys strictly increase along the entries. */
  predicate Sorted(m: seq<Entry>)
  {
    ValidKeys(m) && forall i, j :: 0 <= i < j < |m| ==> SuffixLess(m[i].key, m[j].key)
  }

  /** k and the key of some entry are equivalent: neither is less than the other. */
  predicate HasEquivalentKey(m: seq<Entry>, k: Suffix)
    requires ValidKeys(m) && k.Valid()
  {
    exists i :: 0 <= i < |m| && m[i].key.Bytes() == k.Bytes()
  }

  /**
   * `m[k] = v`: insert (k, v) at its place in the order, or, when an
   * equivalent key is present, keep that key and overwrite its value.
   */
  function Put(m: seq<Entry>, k: Suffix, v: nat): (r: seq<Entry>)
    requires ValidKeys(m) && k.Valid()
    ensures ValidKeys(r)
  {
    if |m| == 0 then [Entry(k, v)]
    else if SuffixLess(k, m[0].key) then [Entry(k, v)] + m
    else if SuffixLess(m[0].key, k) then [m[0]] + Put(m[1..], k, v)
    else [Entry(m[0].key, v)] + m[1..]
  }

  /** Put keeps the map ordered. */
  lemma {:induction false} PutSorted(m: seq<Entry>, k: Suffix, v: nat)
    requires Sorted(m) && k.Valid()
    ensures Sorted(Put(m, k, v))
    ensures forall j :: 0 <= j < |Put(m, k, v)| ==> Put(m, k, v)[j].key == k || Put(m, k, v)[j].key in Keys(m)
  {
    if |m| > 0 && !SuffixLess(k, m[0].key) && SuffixLess(m[0].key, k) {
      PutSorted(m[1..], k, v);
      var r := Put(m, k, v);
      forall i, j | 0 <= i < j < |r|
        ensures SuffixLess(r[i].key, r[j].key)
      {
        if i == 0 && r[j].key != k {
          var t :| 0 <= t < |m| - 1 && Keys(m[1..])[t] == r[j].key;
          assert r[j].key == m[t + 1].key;
        }
      }
    } else if |m| > 0 && !SuffixLess(k, m[0].key) {
      SameKeyBytes(m[0].key, k);
      var r := Put(m, k, v);
      forall i, j | 0 <= i < j < |r|
        ensures SuffixLess(r[i].key, r[j].key)
      {
        if i == 0 {
          assert SuffixLess(m[0].key, m[j].key);
        }
      }
    } else if |m| > 0 {
      var r := Put(m, k, v);
      forall i, j | 0 <= i < j < |r|
        ensures SuffixLess(r[i].key, r[j].key)
      {
        if i == 0 && j > 1 {
          LexLessTransitive(k.Bytes(), m[0].key.Bytes(), m[j - 1].key.Bytes());
        }
      }
    }
  }

  /** Without an equivalent key, Put adds exactly the entry (k, v). */
  lemma {:induction false} PutNew(m: seq<Entry>, k: Suffix, v: nat)
    requires Sorted(m) && k.Valid() && !HasEquivalentKey(m, k)
    ensures |Put(m, k, v)| == |m| + 1
    ensures multiset(Put(m, k, v)) == multiset(m) + multiset{Entry(k, v)}
  {
    if |m| > 0 && !SuffixLess(k, m[0].key) {
      if SuffixLess(m[0].key, k) {
        PutNew(m[1..], k, v);
        assert m == [m[0]] + m[1..];
      } else {
        SameKeyBytes(m[0].key, k);
      }
    }
  }

  /** With an equivalent key at index i, Put keeps that key and overwrites its value. */
  lemma {:induction false} PutExisting(m: seq<Entry>, k: Suffix, v: nat, i: nat)
    requires Sorted(m) && k.Valid() && i < |m| && m[i].key.Bytes() == k.Bytes()
    ensures Put(m, k, v) == m[i := Entry(m[i].key, v)]
  {
    if i == 0 {
      SameBytesEquivalent(k, m[0].key);
    } else {
      assert SuffixLess(m[0].key, k) by {
        assert SuffixLess(m[0].key, m[i].key);
      }
      LexLessAsymmetric(m[0].key.Bytes(), k.Bytes());
      PutExisting(m[1..], k, v, i - 1);
      assert m[i := Entry(m[i].key, v)] == [m[0]] + m[1..][i - 1 := Entry(m[i].key, v)];
    }
  }

  /** A key greater than every key present goes at the end. */
  lemma {:induction false} PutGreatest(m: seq<Entry>, k: Suffix, v: nat)
    requires ValidKeys(m) && k.Valid()
    requires forall i :: 0 <= i < |m| ==> SuffixLess(m[i].key, k)
    ensures Put(m, k, v) == m + [Entry(k, v)]
  {
    if |m| > 0 {
      LexLessAsymmetric(m[0].key.Bytes(), k.Bytes());
      PutGreatest(m[1..], k, v);
      assert m + [Entry(k, v)] == [m[0]] + (m[1..] + [Entry(k, v)]);
    }
  }

  /** Two keys neither of which is less than the other have the same bytes. */
  lemma SameKeyBytes(x: Suffix, y: Suffix)
    requires x.Valid() && y.Valid() && !SuffixLess(x, y) && !SuffixLess(y, x)
    ensures x.Bytes() == y.Bytes()
  {
    if x.Bytes() != y.Bytes() {
      DifferentBytesOrdered(x, y);
    }
  }
}
