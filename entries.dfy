/**
  Sorted sequences of key/value pairs: the abstract contents of a B+tree
  (its enumeration order) and of a leaf node, and the edits insert and
  remove make to them. Keys are ordered by Bytes.Less (gtw_compare).
*/
module Entries {
  import opened Bytes
  import opened Results

  type Key = seq<byte>
  type Value = seq<byte>
  type Pair = (Key, Value)

  /** Keys in strictly ascending order, hence distinct. */
  predicate StrictlyAscending(keys: seq<Key>)
  {
    forall i, j | 0 <= i < j < |keys| :: Less(keys[i], keys[j])
  }

  /** Pairs in strictly ascending key order. */
  predicate SortedPairs(ps: seq<Pair>)
  {
    forall i, j | 0 <= i < j < |ps| :: Less(ps[i].0, ps[j].0)
  }

  function KeysOf(ps: seq<Pair>): (ks: seq<Key>)
    ensures |ks| == |ps| && forall i | 0 <= i < |ps| :: ks[i] == ps[i].0
  {
    if ps == [] then [] else [ps[0].0] + KeysOf(ps[1..])
  }

  function ValuesOf(ps: seq<Pair>): (vs: seq<Value>)
    ensures |vs| == |ps| && forall i | 0 <= i < |ps| :: vs[i] == ps[i].1
  {
    if ps == [] then [] else [ps[0].1] + ValuesOf(ps[1..])
  }

  /** Pairs the i-th key with the i-th value, as the node enumerators do. */
  function Zip(keys: seq<Key>, vals: seq<Value>): (ps: seq<Pair>)
    requires |keys| == |vals|
    ensures |ps| == |keys| && forall i | 0 <= i < |ps| :: ps[i] == (keys[i], vals[i])
  {
    if keys == [] then [] else [(keys[0], vals[0])] + Zip(keys[1..], vals[1..])
  }

  lemma ZipUnzip(ps: seq<Pair>)
    ensures Zip(KeysOf(ps), ValuesOf(ps)) == ps
  {
  }

  lemma SortedPairsKeys(ps: seq<Pair>)
    ensures SortedPairs(ps) <==> StrictlyAscending(KeysOf(ps))
  {
  }

  /** The map a sorted pair sequence denotes. */
  function ToMap(ps: seq<Pair>): map<Key, Value>
  {
    if ps == [] then map[] else ToMap(ps[1..])[ps[0].0 := ps[0].1]
  }

  // ---------------------------------------------------------------------
  // Lower and upper key bounds (None: unbounded)
  // ---------------------------------------------------------------------

  /** lo <= k */
  predicate AboveLo(k: Key, lo: Option<Key>)
  {
    lo.None? || lo.value == k || Less(lo.value, k)
  }

  /** k < hi */
  predicate BelowHi(k: Key, hi: Option<Key>)
  {
    hi.None? || Less(k, hi.value)
  }

  predicate InRange(ps: seq<Pair>, lo: Option<Key>, hi: Option<Key>)
  {
    forall i | 0 <= i < |ps| :: AboveLo(ps[i].0, lo) && BelowHi(ps[i].0, hi)
  }

  /** The lower bound lowered to k, when k is below it. */
  function MinLo(lo: Option<Key>, k: Key): (r: Option<Key>)
    ensures AboveLo(k, r)
    ensures forall x :: AboveLo(x, lo) ==> AboveLo(x, r)
  {
    if lo.Some? && Less(k, lo.value) then
      assert forall x :: AboveLo(x, lo) ==> AboveLo(x, Some(k)) by {
        forall x | AboveLo(x, lo) ensures AboveLo(x, Some(k)) {
          LessMixedTransitive(k, lo.value, x);
        }
      }
      Some(k)
    else
      assert AboveLo(k, lo) by { if lo.Some? { LessTrichotomy(k, lo.value); } }
      lo
  }

  lemma MinLoIdentity(lo: Option<Key>, k: Key)
    requires AboveLo(k, lo)
    ensures MinLo(lo, k) == lo
  {
    if lo.Some? { LessTrichotomy(k, lo.value); }
  }

  /** Two sorted blocks separated by x concatenate into a sorted sequence. */
  lemma SortedConcat(a: seq<Pair>, b: seq<Pair>, x: Key)
    requires SortedPairs(a) && SortedPairs(b)
    requires forall i | 0 <= i < |a| :: Less(a[i].0, x)
    requires forall j | 0 <= j < |b| :: AboveLo(b[j].0, Some(x))
    ensures SortedPairs(a + b)
  {
    forall i, j | 0 <= i < j < |a + b| ensures Less((a + b)[i].0, (a + b)[j].0) {
      if i < |a| && j >= |a| {
        LessMixedTransitive(a[i].0, x, b[j - |a|].0);
      }
    }
  }

  lemma InRangeConcat(a: seq<Pair>, b: seq<Pair>, lo: Option<Key>, hi: Option<Key>)
    ensures InRange(a + b, lo, hi) <==> InRange(a, lo, hi) && InRange(b, lo, hi)
  {
    if InRange(a, lo, hi) && InRange(b, lo, hi) {
      forall i | 0 <= i < |a + b| ensures AboveLo((a + b)[i].0, lo) && BelowHi((a + b)[i].0, hi) {
        if i >= |a| { assert (a + b)[i] == b[i - |a|]; }
      }
    }
    if InRange(a + b, lo, hi) {
      forall j | 0 <= j < |b| ensures AboveLo(b[j].0, lo) && BelowHi(b[j].0, hi) {
        assert (a + b)[|a| + j] == b[j];
      }
      forall i | 0 <= i < |a| ensures AboveLo(a[i].0, lo) && BelowHi(a[i].0, hi) {
        assert (a + b)[i] == a[i];
      }
    }
  }

  // ---------------------------------------------------------------------
  // Insert: add a pair or replace the value of its key
  // ---------------------------------------------------------------------

  /** The leaf rewrite of an insert: replace the value if k exists, else insert in sorted position. */
  function InsertSorted(ps: seq<Pair>, k: Key, v: Value): (r: seq<Pair>)
  {
    if ps == [] then [(k, v)]
    else if ps[0].0 == k then [(k, v)] + ps[1..]
    else if Less(k, ps[0].0) then [(k, v)] + ps
    else [ps[0]] + InsertSorted(ps[1..], k, v)
  }

  /** Inserting keeps the order strict, puts (k, v) in, and adds no other pair. */
  lemma {:induction false} InsertSortedProperties(ps: seq<Pair>, k: Key, v: Value)
    requires SortedPairs(ps)
    ensures SortedPairs(InsertSorted(ps, k, v))
    ensures (k, v) in InsertSorted(ps, k, v)
    ensures forall i | 0 <= i < |InsertSorted(ps, k, v)| ::
              InsertSorted(ps, k, v)[i] == (k, v) || InsertSorted(ps, k, v)[i] in ps
    ensures |InsertSorted(ps, k, v)| == |ps| || |InsertSorted(ps, k, v)| == |ps| + 1
  {
    var r := InsertSorted(ps, k, v);
    if ps == [] {
    } else if ps[0].0 == k {
      forall i, j | 0 <= i < j < |r| ensures Less(r[i].0, r[j].0) {
        assert r[i].0 == ps[i].0 && r[j].0 == ps[j].0;
      }
      forall i | 0 <= i < |r| ensures r[i] == (k, v) || r[i] in ps {
        if i > 0 { assert r[i] == ps[i]; }
      }
    } else if Less(k, ps[0].0) {
      forall i, j | 0 <= i < j < |r| ensures Less(r[i].0, r[j].0) {
        if i == 0 && j > 1 {
          LessTransitive(k, ps[0].0, ps[j - 1].0);
        }
      }
    } else {
      LessTrichotomy(k, ps[0].0);
      var rest := InsertSorted(ps[1..], k, v);
      InsertSortedProperties(ps[1..], k, v);
      assert r == [ps[0]] + rest;
      forall i, j | 0 <= i < j < |r| ensures Less(r[i].0, r[j].0) {
        if i == 0 {
          assert r[j] == rest[j - 1];
          if rest[j - 1] != (k, v) {
            assert rest[j - 1] in ps[1..];
          }
        } else {
          assert r[i] == rest[i - 1] && r[j] == rest[j - 1];
        }
      }
    }
  }

  /** Inserting into a sorted sequence updates its map at k and nowhere else. */
  lemma {:induction false} InsertSortedMap(ps: seq<Pair>, k: Key, v: Value)
    requires SortedPairs(ps)
    ensures ToMap(InsertSorted(ps, k, v)) == ToMap(ps)[k := v]
  {
    if ps == [] {
    } else if ps[0].0 == k {
      assert ToMap(InsertSorted(ps, k, v)) == ToMap(ps[1..])[k := v];
    } else if Less(k, ps[0].0) {
      assert ToMap(InsertSorted(ps, k, v)) == ToMap(ps)[k := v];
    } else {
      InsertSortedMap(ps[1..], k, v);
    }
  }

  /** Inserting a key already present keeps the length; a new key adds one pair. */
  lemma {:induction false} InsertSortedLength(ps: seq<Pair>, k: Key, v: Value)
    requires SortedPairs(ps)
    ensures |InsertSorted(ps, k, v)| == if HasKey(ps, k) then |ps| else |ps| + 1
  {
    if ps == [] {
    } else if ps[0].0 == k {
      assert ps[0].0 == k;
    } else if Less(k, ps[0].0) {
      forall i | 0 <= i < |ps| ensures ps[i].0 != k {
        LessTrichotomy(k, k);
        if i > 0 { LessTransitive(k, ps[0].0, ps[i].0); }
      }
    } else {
      InsertSortedLength(ps[1..], k, v);
      if HasKey(ps, k) {
        var i :| 0 <= i < |ps| && ps[i].0 == k;
        assert ps[1..][i - 1].0 == k;
      }
      if HasKey(ps[1..], k) {
        var i :| 0 <= i < |ps| - 1 && ps[1..][i].0 == k;
        assert ps[i + 1].0 == k;
      }
    }
  }

  /** Pairs below k stay in front of the insertion point. */
  lemma {:induction false} InsertAfterSmaller(a: seq<Pair>, b: seq<Pair>, k: Key, v: Value)
    requires forall i | 0 <= i < |a| :: Less(a[i].0, k)
    ensures InsertSorted(a + b, k, v) == a + InsertSorted(b, k, v)
  {
    if a != [] {
      LessTrichotomy(a[0].0, k);
      assert (a + b)[0] == a[0] && (a + b)[1..] == a[1..] + b;
      assert a == [a[0]] + a[1..];
      InsertAfterSmaller(a[1..], b, k, v);
    } else {
      assert a + b == b;
    }
  }

  /** Pairs above k stay behind the insertion point. */
  lemma {:induction false} InsertBeforeLarger(b: seq<Pair>, c: seq<Pair>, k: Key, v: Value)
    requires forall i | 0 <= i < |c| :: Less(k, c[i].0)
    ensures InsertSorted(b + c, k, v) == InsertSorted(b, k, v) + c
  {
    if b == [] {
      assert b + c == c;
      if c != [] { LessTrichotomy(k, c[0].0); }
    } else {
      assert (b + c)[0] == b[0] && (b + c)[1..] == b[1..] + c;
      InsertBeforeLarger(b[1..], c, k, v);
    }
  }

  // ---------------------------------------------------------------------
  // Remove: drop the pair of a key
  // ---------------------------------------------------------------------

  /** The leaf rewrite of a remove: the pairs whose key is not k. */
  function RemoveSorted(ps: seq<Pair>, k: Key): (r: seq<Pair>)
    ensures forall i | 0 <= i < |r| :: r[i] in ps && r[i].0 != k
  {
    if ps == [] then []
    else (if ps[0].0 == k then [] else [ps[0]]) + RemoveSorted(ps[1..], k)
  }

  predicate HasKey(ps: seq<Pair>, k: Key)
  {
    exists i | 0 <= i < |ps| :: ps[i].0 == k
  }

  lemma {:induction false} RemoveConcat(a: seq<Pair>, b: seq<Pair>, k: Key)
    ensures RemoveSorted(a + b, k) == RemoveSorted(a, k) + RemoveSorted(b, k)
  {
    if a != [] {
      var head := if a[0].0 == k then [] else [a[0]];
      assert (a + b)[0] == a[0] && (a + b)[1..] == a[1..] + b;
      RemoveConcat(a[1..], b, k);
      calc {
        RemoveSorted(a + b, k);
        head + RemoveSorted(a[1..] + b, k);
        head + (RemoveSorted(a[1..], k) + RemoveSorted(b, k));
        (head + RemoveSorted(a[1..], k)) + RemoveSorted(b, k);
        RemoveSorted(a, k) + RemoveSorted(b, k);
      }
    } else {
      assert a + b == b;
    }
  }

  lemma {:induction false} RemoveAbsent(ps: seq<Pair>, k: Key)
    requires !HasKey(ps, k)
    ensures RemoveSorted(ps, k) == ps
  {
    if ps != [] {
      RemoveAbsent(ps[1..], k);
    }
  }

  /** Removing keeps the order and removes exactly k from the map. */
  lemma RemoveSortedProperties(ps: seq<Pair>, k: Key)
    requires SortedPairs(ps)
    ensures SortedPairs(RemoveSorted(ps, k))
    ensures ToMap(RemoveSorted(ps, k)) == ToMap(ps) - {k}
  {
    RemoveSortedSorted(ps, k);
    RemoveSortedMap(ps, k);
  }

  lemma {:induction false} RemoveSortedSorted(ps: seq<Pair>, k: Key)
    requires SortedPairs(ps)
    ensures SortedPairs(RemoveSorted(ps, k))
  {
    if ps != [] {
      var rest := RemoveSorted(ps[1..], k);
      RemoveSortedSorted(ps[1..], k);
      if ps[0].0 != k {
        var r := [ps[0]] + rest;
        assert RemoveSorted(ps, k) == r;
        forall i, j | 0 <= i < j < |r| ensures Less(r[i].0, r[j].0) {
          if i == 0 {
            var x := rest[j - 1];
            assert x in ps[1..];
            var m :| 0 <= m < |ps[1..]| && ps[1..][m] == x;
            assert Less(ps[0].0, ps[m + 1].0);
          } else {
            assert Less(rest[i - 1].0, rest[j - 1].0);
          }
        }
      }
    }
  }

  lemma {:induction false} RemoveSortedMap(ps: seq<Pair>, k: Key)
    requires SortedPairs(ps)
    ensures ToMap(RemoveSorted(ps, k)) == ToMap(ps) - {k}
  {
    if ps != [] {
      RemoveSortedMap(ps[1..], k);
      if ps[0].0 == k {
        RemoveHeadMap(ps, k);
      } else {
        KeepHeadMap(ps, k);
      }
    }
  }

  /** The step of RemoveSortedMap where the first pair holds k. */
  lemma RemoveHeadMap(ps: seq<Pair>, k: Key)
    requires SortedPairs(ps) && ps != [] && ps[0].0 == k
    ensures ToMap(RemoveSorted(ps, k)) == ToMap(ps) - {k}
  {
    HeadNotInTail(ps);
    RemoveAbsent(ps[1..], k);
    assert RemoveSorted(ps, k) == [] + ps[1..] == ps[1..];
    ToMapAbsent(ps[1..], k);
    assert ToMap(ps) == ToMap(ps[1..])[k := ps[0].1];
    MapUpdateThenRemove(ToMap(ps[1..]), k, ps[0].1);
  }

  /** The step of RemoveSortedMap where the first pair is kept. */
  lemma KeepHeadMap(ps: seq<Pair>, k: Key)
    requires ps != [] && ps[0].0 != k
    requires ToMap(RemoveSorted(ps[1..], k)) == ToMap(ps[1..]) - {k}
    ensures ToMap(RemoveSorted(ps, k)) == ToMap(ps) - {k}
  {
    var q := [ps[0]] + RemoveSorted(ps[1..], k);
    assert RemoveSorted(ps, k) == q;
    assert q[0] == ps[0] && q[1..] == RemoveSorted(ps[1..], k);
    assert ToMap(q) == ToMap(q[1..])[ps[0].0 := ps[0].1];
    MapUpdateCommutesRemove(ToMap(ps[1..]), ps[0].0, ps[0].1, k);
  }

  /** Setting a then removing k is removing k then setting a, for a other than k. */
  lemma MapUpdateCommutesRemove(m: map<Key, Value>, a: Key, v: Value, k: Key)
    requires a != k
    ensures m[a := v] - {k} == (m - {k})[a := v]
  {
  }

  /** Setting k then removing it is removing it. */
  lemma MapUpdateThenRemove(m: map<Key, Value>, k: Key, v: Value)
    ensures m[k := v] - {k} == m - {k}
  {
  }

  /** In strictly ascending pairs the first key does not come back. */
  lemma HeadNotInTail(ps: seq<Pair>)
    requires SortedPairs(ps) && ps != []
    ensures !HasKey(ps[1..], ps[0].0)
  {
    if HasKey(ps[1..], ps[0].0) {
      var i :| 0 <= i < |ps[1..]| && ps[1..][i].0 == ps[0].0;
      assert Less(ps[0].0, ps[i + 1].0);
      LessTrichotomy(ps[0].0, ps[0].0);
    }
  }

  lemma {:induction false} ToMapAbsent(ps: seq<Pair>, k: Key)
    requires !HasKey(ps, k)
    ensures k !in ToMap(ps)
    ensures ToMap(ps) - {k} == ToMap(ps)
  {
    if ps != [] {
      ToMapAbsent(ps[1..], k);
    }
  }

  // ---------------------------------------------------------------------
  // Prefix matching
  // ---------------------------------------------------------------------

  /** The pairs whose key starts with p, in their order. */
  function FilterPrefix(ps: seq<Pair>, p: Key): (r: seq<Pair>)
    ensures forall i | 0 <= i < |r| :: r[i] in ps && HasPrefix(r[i].0, p)
  {
    if ps == [] then []
    else (if HasPrefix(ps[0].0, p) then [ps[0]] else []) + FilterPrefix(ps[1..], p)
  }

  lemma {:induction false} FilterPrefixConcat(a: seq<Pair>, b: seq<Pair>, p: Key)
    ensures FilterPrefix(a + b, p) == FilterPrefix(a, p) + FilterPrefix(b, p)
  {
    if a != [] {
      assert (a + b)[0] == a[0] && (a + b)[1..] == a[1..] + b;
      assert a == [a[0]] + a[1..];
      FilterPrefixConcat(a[1..], b, p);
    } else {
      assert a + b == b;
    }
  }

  lemma {:induction false} FilterPrefixNone(ps: seq<Pair>, p: Key)
    requires forall i | 0 <= i < |ps| :: !HasPrefix(ps[i].0, p)
    ensures FilterPrefix(ps, p) == []
  {
    if ps != [] {
      FilterPrefixNone(ps[1..], p);
    }
  }

  /** Skips the pairs whose key sorts before p. */
  function SkipBelow(ps: seq<Pair>, p: Key): (r: seq<Pair>)
    ensures |r| <= |ps| && r == ps[|ps| - |r|..]
  {
    if ps != [] && Less(ps[0].0, p) then SkipBelow(ps[1..], p) else ps
  }

  /** The leading pairs whose key starts with p; stops at the first that does not. */
  function TakePrefixed(ps: seq<Pair>, p: Key): (r: seq<Pair>)
    ensures forall i | 0 <= i < |r| :: r[i] in ps && HasPrefix(r[i].0, p)
  {
    if ps != [] && HasPrefix(ps[0].0, p) then [ps[0]] + TakePrefixed(ps[1..], p) else []
  }

  /** The enumeration of a prefix range: skip what sorts below, then take while the prefix holds. */
  function ScanPrefix(ps: seq<Pair>, p: Key): (r: seq<Pair>)
    ensures forall i | 0 <= i < |r| :: r[i] in ps && HasPrefix(r[i].0, p)
  {
    TakePrefixed(SkipBelow(ps, p), p)
  }

  /** Keys below p never carry the prefix p, so skipping them drops no match. */
  lemma {:induction false} SkipBelowKeepsMatches(ps: seq<Pair>, p: Key)
    ensures FilterPrefix(SkipBelow(ps, p), p) == FilterPrefix(ps, p)
  {
    if ps != [] && Less(ps[0].0, p) {
      var x := ps[0].0;
      assert !HasPrefix(x, p) by {
        if HasPrefix(x, p) {
          PrefixNotAfter(x, p);
          LessTrichotomy(x, p);
        }
      }
      SkipBelowKeepsMatches(ps[1..], p);
    }
  }

  /**
    In a sorted sequence whose first key is not below p, the matches of p
    form a leading block: the scan that stops at the first non-match finds
    all of them.
  */
  lemma {:induction false} TakePrefixedIsFilter(ps: seq<Pair>, p: Key)
    requires SortedPairs(ps)
    requires ps != [] ==> !Less(ps[0].0, p)
    ensures TakePrefixed(ps, p) == FilterPrefix(ps, p)
  {
    if ps != [] {
      if HasPrefix(ps[0].0, p) {
        assert ps[1..] != [] ==> !Less(ps[1..][0].0, p) by {
          if ps[1..] != [] {
            assert Less(ps[0].0, ps[1].0);
            PrefixNotAfter(ps[0].0, p);
            if Less(ps[1].0, p) {
              LessMixedTransitive(p, ps[0].0, ps[1].0);
              LessTrichotomy(ps[1].0, p);
            }
          }
        }
        TakePrefixedIsFilter(ps[1..], p);
      } else {
        LessTrichotomy(ps[0].0, p);
        assert ps[0].0 != p by { assert HasPrefix(p, p); }
        forall i | 0 <= i < |ps| ensures !HasPrefix(ps[i].0, p) {
          if i > 0 && HasPrefix(ps[i].0, p) {
            PrefixBlockBelow(p, ps[0].0, ps[i].0);
            LessTrichotomy(ps[i].0, ps[0].0);
          }
        }
        FilterPrefixNone(ps, p);
      }
    }
  }

  /** The prefix scan of a sorted sequence is exactly its subsequence of matches. */
  lemma ScanPrefixIsFilter(ps: seq<Pair>, p: Key)
    requires SortedPairs(ps)
    ensures ScanPrefix(ps, p) == FilterPrefix(ps, p)
  {
    var s := SkipBelow(ps, p);
    SkipBelowStopsAtP(ps, p);
    SortedSuffix(ps, |ps| - |s|);
    TakePrefixedIsFilter(s, p);
    SkipBelowKeepsMatches(ps, p);
  }

  lemma SortedSuffix(ps: seq<Pair>, n: nat)
    requires SortedPairs(ps) && n <= |ps|
    ensures SortedPairs(ps[n..])
  {
    forall i, j | 0 <= i < j < |ps| - n ensures Less(ps[n..][i].0, ps[n..][j].0) {
      assert ps[n..][i] == ps[n + i] && ps[n..][j] == ps[n + j];
    }
  }

  lemma {:induction false} SkipBelowStopsAtP(ps: seq<Pair>, p: Key)
    ensures SkipBelow(ps, p) != [] ==> !Less(SkipBelow(ps, p)[0].0, p)
  {
    if ps != [] && Less(ps[0].0, p) {
      SkipBelowStopsAtP(ps[1..], p);
    }
  }
}
