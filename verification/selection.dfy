/** Reordering a list by positions. Both sorts in the catalog are described as
    a list of positions into the original list: `Select(xs, js)` picks them out.
    This module holds the stable sort by a key (Python's `list.sort(key=...)`),
    used for the index list (by order) and for a freshly read ledger (by word). */
module Selection {

  /** The elements of `xs` at the positions `js`, in that order. */
  function Select<T>(xs: seq<T>, js: seq<nat>): (r: seq<T>)
    requires forall k :: 0 <= k < |js| ==> js[k] < |xs|
    ensures |r| == |js|
    ensures forall k :: 0 <= k < |js| ==> r[k] == xs[js[k]]
  {
    seq(|js|, k requires 0 <= k < |js| => xs[js[k]])
  }

  /** The positions lo, lo+1, ..., hi-1. */
  function Range(lo: nat, hi: nat): (r: seq<nat>)
    requires lo <= hi
    ensures |r| == hi - lo
    ensures forall k :: 0 <= k < |r| ==> r[k] == lo + k
    decreases hi - lo
  {
    if lo == hi then [] else [lo] + Range(lo + 1, hi)
  }

  /** Selecting every position in order changes nothing. */
  lemma SelectAll<T>(xs: seq<T>)
    ensures Select(xs, Range(0, |xs|)) == xs
  {
  }

  /** `lt` is a strict total order: irreflexive, transitive and total. */
  ghost predicate StrictTotal<K(!new)>(lt: (K, K) -> bool)
  {
    && (forall a :: !lt(a, a))
    && (forall a, b, c :: lt(a, b) && lt(b, c) ==> lt(a, c))
    && (forall a, b :: a != b ==> lt(a, b) || lt(b, a))
  }

  /** The keys along `r` never go down. */
  ghost predicate SortedBy<K>(keys: seq<K>, lt: (K, K) -> bool, r: seq<nat>)
    requires forall k :: 0 <= k < |r| ==> r[k] < |keys|
  {
    forall p, q :: 0 <= p < q < |r| ==> !lt(keys[r[q]], keys[r[p]])
  }

  /** Positions with equal keys keep their original relative order. */
  ghost predicate KeepsTies<K>(keys: seq<K>, r: seq<nat>)
    requires forall k :: 0 <= k < |r| ==> r[k] < |keys|
  {
    forall p, q :: 0 <= p < q < |r| && keys[r[p]] == keys[r[q]] ==> r[p] < r[q]
  }

  /** Puts position `j` in front of the first position whose key is not
      smaller than its own. */
  function Insert<K>(j: nat, keys: seq<K>, lt: (K, K) -> bool, sorted: seq<nat>): (r: seq<nat>)
    requires j < |keys|
    requires forall k :: 0 <= k < |sorted| ==> sorted[k] < |keys|
    ensures |r| == |sorted| + 1
    ensures multiset(r) == multiset(sorted) + multiset{j}
    ensures forall k :: 0 <= k < |r| ==> r[k] < |keys|
  {
    if sorted == [] then [j]
    else if lt(keys[sorted[0]], keys[j]) then
      var r := [sorted[0]] + Insert(j, keys, lt, sorted[1..]);
      assert sorted == [sorted[0]] + sorted[1..];
      r
    else [j] + sorted
  }

  /** Insertion sort of the positions from `i` on, by key. */
  function SortFrom<K>(keys: seq<K>, lt: (K, K) -> bool, i: nat): (r: seq<nat>)
    requires i <= |keys|
    ensures |r| == |keys| - i
    ensures multiset(r) == multiset(Range(i, |keys|))
    ensures forall k :: 0 <= k < |r| ==> i <= r[k] < |keys|
    decreases |keys| - i
  {
    if i == |keys| then []
    else
      var rest := SortFrom(keys, lt, i + 1);
      var r := Insert(i, keys, lt, rest);
      assert Range(i, |keys|) == [i] + Range(i + 1, |keys|);
      forall k | 0 <= k < |r| ensures i <= r[k] {
        assert r[k] in multiset(r);
      }
      r
  }

  /** Python's stable `sort(key=...)`, as the positions of the sorted list. */
  function StableOrder<K>(keys: seq<K>, lt: (K, K) -> bool): (r: seq<nat>)
    ensures |r| == |keys|
    ensures forall k :: 0 <= k < |r| ==> r[k] < |keys|
  {
    SortFrom(keys, lt, 0)
  }

  lemma {:induction false} InsertSorted<K(!new)>(j: nat, keys: seq<K>, lt: (K, K) -> bool, sorted: seq<nat>)
    requires StrictTotal(lt)
    requires j < |keys|
    requires forall k :: 0 <= k < |sorted| ==> j < sorted[k] < |keys|
    requires SortedBy(keys, lt, sorted) && KeepsTies(keys, sorted)
    ensures SortedBy(keys, lt, Insert(j, keys, lt, sorted))
    ensures KeepsTies(keys, Insert(j, keys, lt, sorted))
  {
    if sorted != [] {
      if lt(keys[sorted[0]], keys[j]) {
        InsertSorted(j, keys, lt, sorted[1..]);
        InsertPastHead(j, keys, lt, sorted);
      } else {
        InsertAtHead(j, keys, lt, sorted);
      }
    }
  }

  /** When `j` goes behind the head, the head still precedes everything. */
  lemma InsertPastHead<K(!new)>(j: nat, keys: seq<K>, lt: (K, K) -> bool, sorted: seq<nat>)
    requires StrictTotal(lt)
    requires j < |keys| && sorted != []
    requires forall k :: 0 <= k < |sorted| ==> j < sorted[k] < |keys|
    requires SortedBy(keys, lt, sorted) && KeepsTies(keys, sorted)
    requires lt(keys[sorted[0]], keys[j])
    requires SortedBy(keys, lt, Insert(j, keys, lt, sorted[1..]))
    requires KeepsTies(keys, Insert(j, keys, lt, sorted[1..]))
    ensures SortedBy(keys, lt, Insert(j, keys, lt, sorted))
    ensures KeepsTies(keys, Insert(j, keys, lt, sorted))
  {
    var rt := Insert(j, keys, lt, sorted[1..]);
    forall q | 0 <= q < |rt|
      ensures !lt(keys[rt[q]], keys[sorted[0]])
      ensures keys[sorted[0]] == keys[rt[q]] ==> sorted[0] < rt[q]
    {
      HeadPrecedes(j, keys, lt, sorted, q);
    }
    ConsSorted(keys, lt, sorted[0], rt);
    assert Insert(j, keys, lt, sorted) == [sorted[0]] + rt;
  }

  /** A head whose key is not above any key behind it, and which comes
      before every later position with an equal key, keeps the order. */
  lemma ConsSorted<K>(keys: seq<K>, lt: (K, K) -> bool, h: nat, rt: seq<nat>)
    requires h < |keys|
    requires forall k :: 0 <= k < |rt| ==> rt[k] < |keys|
    requires SortedBy(keys, lt, rt) && KeepsTies(keys, rt)
    requires forall q :: 0 <= q < |rt| ==> !lt(keys[rt[q]], keys[h])
    requires forall q :: 0 <= q < |rt| ==> keys[h] == keys[rt[q]] ==> h < rt[q]
    ensures SortedBy(keys, lt, [h] + rt) && KeepsTies(keys, [h] + rt)
  {
    var r := [h] + rt;
    forall p, q | 0 <= p < q < |r|
      ensures !lt(keys[r[q]], keys[r[p]])
      ensures keys[r[p]] == keys[r[q]] ==> r[p] < r[q]
    {
      assert r[q] == rt[q - 1];
      if p > 0 {
        assert r[p] == rt[p - 1];
      }
    }
  }

  /** The head of `sorted` precedes each position of the insertion into
      the rest. */
  lemma HeadPrecedes<K(!new)>(j: nat, keys: seq<K>, lt: (K, K) -> bool, sorted: seq<nat>, q: nat)
    requires StrictTotal(lt)
    requires j < |keys| && sorted != []
    requires forall k :: 0 <= k < |sorted| ==> j < sorted[k] < |keys|
    requires SortedBy(keys, lt, sorted) && KeepsTies(keys, sorted)
    requires lt(keys[sorted[0]], keys[j])
    requires q < |sorted|
    ensures var x := Insert(j, keys, lt, sorted[1..])[q];
            !lt(keys[x], keys[sorted[0]]) && (keys[sorted[0]] == keys[x] ==> sorted[0] < x)
  {
    var tail := sorted[1..];
    var x := Insert(j, keys, lt, tail)[q];
    assert x in multiset(Insert(j, keys, lt, tail));
    if x == j {
      assert !lt(keys[j], keys[sorted[0]]);
    } else {
      assert x in multiset(tail);
      var m :| 0 <= m < |tail| && tail[m] == x;
      assert sorted[m + 1] == tail[m];
    }
  }

  /** When `j` goes in front, its key is not above any key behind it. */
  lemma InsertAtHead<K(!new)>(j: nat, keys: seq<K>, lt: (K, K) -> bool, sorted: seq<nat>)
    requires StrictTotal(lt)
    requires j < |keys| && sorted != []
    requires forall k :: 0 <= k < |sorted| ==> j < sorted[k] < |keys|
    requires SortedBy(keys, lt, sorted) && KeepsTies(keys, sorted)
    requires !lt(keys[sorted[0]], keys[j])
    ensures SortedBy(keys, lt, Insert(j, keys, lt, sorted))
    ensures KeepsTies(keys, Insert(j, keys, lt, sorted))
  {
    var r := Insert(j, keys, lt, sorted);
    assert r == [j] + sorted;
    forall q | 0 < q < |r|
      ensures !lt(keys[r[q]], keys[j])
    {
      assert r[q] == sorted[q - 1];
      assert !lt(keys[sorted[q - 1]], keys[sorted[0]]);
    }
  }

  lemma {:induction false} SortFromSorted<K(!new)>(keys: seq<K>, lt: (K, K) -> bool, i: nat)
    requires StrictTotal(lt)
    requires i <= |keys|
    ensures SortedBy(keys, lt, SortFrom(keys, lt, i))
    ensures KeepsTies(keys, SortFrom(keys, lt, i))
    decreases |keys| - i
  {
    if i < |keys| {
      SortFromSorted(keys, lt, i + 1);
      InsertSorted(i, keys, lt, SortFrom(keys, lt, i + 1));
    }
  }

  /** The stable sort orders by key, keeps ties in their original order and
      is a permutation of the positions: it is exactly what a stable sort
      must produce. */
  lemma StableOrderCorrect<K(!new)>(keys: seq<K>, lt: (K, K) -> bool)
    requires StrictTotal(lt)
    ensures SortedBy(keys, lt, StableOrder(keys, lt))
    ensures KeepsTies(keys, StableOrder(keys, lt))
    ensures multiset(StableOrder(keys, lt)) == multiset(Range(0, |keys|))
  {
    SortFromSorted(keys, lt, 0);
  }

  /** Keys that are already in order are left where they are. */
  lemma StableOrderOfSorted<K>(keys: seq<K>, lt: (K, K) -> bool)
    requires forall p, q :: 0 <= p < q < |keys| ==> !lt(keys[q], keys[p])
    ensures StableOrder(keys, lt) == Range(0, |keys|)
  {
    NextNotBelow(keys, lt, 0);
    SortFromInOrder(keys, lt, 0);
  }

  /** From position `i` on, no key is below the one before it. */
  ghost predicate InOrderFrom<K>(keys: seq<K>, lt: (K, K) -> bool, i: nat)
    decreases |keys| - i
  {
    i + 1 < |keys| ==> !lt(keys[i + 1], keys[i]) && InOrderFrom(keys, lt, i + 1)
  }

  lemma {:induction false} NextNotBelow<K>(keys: seq<K>, lt: (K, K) -> bool, i: nat)
    requires forall p, q :: 0 <= p < q < |keys| ==> !lt(keys[q], keys[p])
    ensures InOrderFrom(keys, lt, i)
    decreases |keys| - i
  {
    if i + 1 < |keys| {
      NextNotBelow(keys, lt, i + 1);
    }
  }

  /** Inserting each position in front of the later, no smaller keys
      leaves the positions in order. */
  lemma {:induction false} SortFromInOrder<K>(keys: seq<K>, lt: (K, K) -> bool, i: nat)
    requires i <= |keys|
    requires InOrderFrom(keys, lt, i)
    ensures SortFrom(keys, lt, i) == Range(i, |keys|)
    decreases |keys| - i
  {
    if i == |keys| {
      assert Range(i, |keys|) == [];
    } else {
      SortFromInOrder(keys, lt, i + 1);
      SortFromStep(keys, lt, i);
      InsertInFront(keys, lt, i);
    }
  }

  /** One step of the insertion sort: position `i` is inserted into the
      sorted later positions. */
  lemma SortFromStep<K>(keys: seq<K>, lt: (K, K) -> bool, i: nat)
    requires i < |keys|
    ensures SortFrom(keys, lt, i) == Insert(i, keys, lt, SortFrom(keys, lt, i + 1))
  {
  }

  /** Position `i` goes in front of the later positions when the next key
      is not below its key. */
  lemma InsertInFront<K>(keys: seq<K>, lt: (K, K) -> bool, i: nat)
    requires i < |keys|
    requires i + 1 < |keys| ==> !lt(keys[i + 1], keys[i])
    ensures Insert(i, keys, lt, Range(i + 1, |keys|)) == Range(i, |keys|)
  {
    assert Range(i, |keys|) == [i] + Range(i + 1, |keys|);
  }

  /** Selecting a permutation of all positions permutes the elements. */
  lemma SelectPermutation<T>(xs: seq<T>, js: seq<nat>)
    requires forall k :: 0 <= k < |js| ==> js[k] < |xs|
    requires multiset(js) == multiset(Range(0, |xs|))
    ensures multiset(Select(xs, js)) == multiset(xs)
  {
    PermutedSelect(xs, js, Range(0, |xs|));
    SelectAll(xs);
  }

  /** Two position lists that are permutations of each other select
      permutations of each other. */
  lemma {:induction false} PermutedSelect<T>(xs: seq<T>, js: seq<nat>, ks: seq<nat>)
    requires forall k :: 0 <= k < |js| ==> js[k] < |xs|
    requires forall k :: 0 <= k < |ks| ==> ks[k] < |xs|
    requires multiset(js) == multiset(ks)
    ensures multiset(Select(xs, js)) == multiset(Select(xs, ks))
    decreases |js|
  {
    if js != [] {
      var j := js[0];
      assert j in multiset(ks);
      var m :| 0 <= m < |ks| && ks[m] == j;
      var js', ks' := js[1..], ks[..m] + ks[m + 1..];
      assert js[..0] + js[1..] == js';
      RemoveAt(js, 0, |xs|);
      RemoveAt(ks, m, |xs|);
      calc {
        multiset(Select(xs, js));
        { SelectRemove(xs, js, 0); }
        multiset(Select(xs, js')) + multiset{xs[j]};
        { PermutedSelect(xs, js', ks'); }
        multiset(Select(xs, ks')) + multiset{xs[j]};
        { SelectRemove(xs, ks, m); }
        multiset(Select(xs, ks));
      }
    } else {
      assert |ks| == |multiset(ks)| == 0;
    }
  }

  /** Taking one position out of a list of positions below `bound`. */
  lemma RemoveAt(ks: seq<nat>, m: nat, bound: nat)
    requires m < |ks| && forall k :: 0 <= k < |ks| ==> ks[k] < bound
    ensures var rest := ks[..m] + ks[m + 1..];
            && (forall k :: 0 <= k < |rest| ==> rest[k] < bound)
            && multiset(rest) == multiset(ks) - multiset{ks[m]}
  {
    assert ks == ks[..m] + [ks[m]] + ks[m + 1..];
  }

  /** Taking one position out of the list takes its element out of the
      selection. */
  lemma SelectRemove<T>(xs: seq<T>, ks: seq<nat>, m: nat)
    requires forall k :: 0 <= k < |ks| ==> ks[k] < |xs|
    requires m < |ks|
    ensures multiset(Select(xs, ks)) == multiset(Select(xs, ks[..m] + ks[m + 1..])) + multiset{xs[ks[m]]}
  {
    var r := Select(xs, ks);
    assert r == r[..m] + [xs[ks[m]]] + r[m + 1..];
    assert Select(xs, ks[..m] + ks[m + 1..]) == r[..m] + r[m + 1..];
  }
}
