/** `sortWorkExperiencesByDate` (src/utils/workExperienceUtils.ts): a copy
    of the list sorted by start-date key, most recent first. The engine's
    sort is stable (ECMA-262 requires it since the 2019 edition), and the
    comparator `dateB - dateA` is a consistent total preorder, so the result
    is fully determined: `SortUnique` shows it is the only sequence that is
    sorted and keeps each key's entries in input order. */
module WorkSort {
  import opened Experience
  import opened WorkDates

  // The sort is written for any key function so that its proofs never look
  // inside the date parser; `SortByDate` instantiates it with `Key`.

  /** Non-increasing in the key: largest key first. */
  ghost predicate SortedDesc<T>(s: seq<T>, key: T -> nat) {
    forall i, j :: 0 <= i < j < |s| ==> key(s[i]) >= key(s[j])
  }

  /** The elements whose key is `k`, in their order in `s`. */
  function WithKey<T>(s: seq<T>, key: T -> nat, k: nat): (r: seq<T>)
    ensures |r| <= |s|
    ensures forall x :: x in r ==> x in s && key(x) == k
  {
    if |s| == 0 then []
    else if key(s[0]) == k then [s[0]] + WithKey(s[1..], key, k)
    else WithKey(s[1..], key, k)
  }

  /** Stability: for every key, the elements with that key appear in `r` in
      exactly the order they had in `s`. */
  ghost predicate SameKeyOrder<T>(r: seq<T>, s: seq<T>, key: T -> nat) {
    forall k :: WithKey(r, key, k) == WithKey(s, key, k)
  }

  /** Puts `x` in front of the first element whose key is not larger. */
  function Insert<T>(x: T, s: seq<T>, key: T -> nat): (r: seq<T>)
    ensures |r| == |s| + 1
    ensures multiset(r) == multiset(s) + multiset{x}
  {
    if |s| == 0 || key(x) >= key(s[0]) then [x] + s
    else
      var r := [s[0]] + Insert(x, s[1..], key);
      assert s == [s[0]] + s[1..];
      r
  }

  /** Inserting into a sorted sequence keeps it sorted. */
  lemma {:induction false} InsertSorted<T>(x: T, s: seq<T>, key: T -> nat)
    requires SortedDesc(s, key)
    ensures SortedDesc(Insert(x, s, key), key)
  {
    if |s| > 0 && key(x) < key(s[0]) {
      InsertSorted(x, s[1..], key);
      var rest := Insert(x, s[1..], key);
      forall j | 0 <= j < |rest| ensures key(s[0]) >= key(rest[j]) {
        assert rest[j] in multiset(rest);
        if rest[j] != x {
          assert rest[j] in multiset(s[1..]);
          var t :| 0 <= t < |s[1..]| && s[1..][t] == rest[j];
          assert s[t + 1] == rest[j];
        }
      }
      var r := Insert(x, s, key);
      assert r == [s[0]] + rest;
      forall i, j | 0 <= i < j < |r| ensures key(r[i]) >= key(r[j]) {
        assert r[j] == rest[j - 1];
        if i > 0 {
          assert r[i] == rest[i - 1];
        }
      }
    }
  }

  /** Inserting `x` adds it in front of the other elements of its key, and
      leaves the elements of every other key as they were. */
  lemma {:induction false} InsertWithKey<T>(x: T, s: seq<T>, key: T -> nat, k: nat)
    requires SortedDesc(s, key)
    ensures WithKey(Insert(x, s, key), key, k) ==
      (if key(x) == k then [x] + WithKey(s, key, k) else WithKey(s, key, k))
  {
    if |s| == 0 || key(x) >= key(s[0]) {
      assert Insert(x, s, key)[1..] == s;
    } else {
      InsertWithKey(x, s[1..], key, k);
      assert Insert(x, s, key)[1..] == Insert(x, s[1..], key);
    }
  }

  /** Stable insertion sort, largest key first: a sorted permutation of the
      input that keeps equal keys in input order. */
  function SortDesc<T>(items: seq<T>, key: T -> nat): (r: seq<T>)
    ensures |r| == |items|
    ensures multiset(r) == multiset(items)
    ensures SortedDesc(r, key)
    ensures SameKeyOrder(r, items, key)
  {
    if |items| == 0 then []
    else
      var rest := SortDesc(items[1..], key);
      assert items == [items[0]] + items[1..];
      InsertSorted(items[0], rest, key);
      forall k ensures WithKey(Insert(items[0], rest, key), key, k) == WithKey(items, key, k) {
        InsertWithKey(items[0], rest, key, k);
      }
      Insert(items[0], rest, key)
  }

  /** Every element shows up among the elements of its own key. */
  lemma {:induction false} InWithKey<T>(s: seq<T>, key: T -> nat, i: nat)
    requires i < |s|
    ensures s[i] in WithKey(s, key, key(s[i]))
  {
    if i > 0 {
      InWithKey(s[1..], key, i - 1);
    }
  }

  /** A sequence is empty exactly when no key has any elements in it. */
  lemma EmptyIffNoKeys<T>(s: seq<T>, key: T -> nat)
    ensures |s| == 0 <==> forall k :: WithKey(s, key, k) == []
  {
    if |s| > 0 {
      assert WithKey(s, key, key(s[0]))[0] == s[0];
    }
  }

  /** Two sequences that are both sorted and hold each key's elements in the
      same order are equal. */
  lemma {:induction false} SortedSameKeyOrderEqual<T>(a: seq<T>, b: seq<T>, key: T -> nat)
    requires SortedDesc(a, key) && SortedDesc(b, key)
    requires SameKeyOrder(a, b, key)
    ensures a == b
    decreases |a|
  {
    EmptyIffNoKeys(a, key);
    EmptyIffNoKeys(b, key);
    if |a| > 0 && |b| > 0 {
      SameHead(a, b, key);
      SameTailKeyOrder(a, b, key);
      SortedSameKeyOrderEqual(a[1..], b[1..], key);
      assert a == [a[0]] + a[1..] && b == [b[0]] + b[1..];
    }
  }

  /** Sorted sequences with the same per-key order start alike: both heads
      carry the largest key, and each is the first element of that key. */
  lemma SameHead<T>(a: seq<T>, b: seq<T>, key: T -> nat)
    requires SortedDesc(a, key) && SortedDesc(b, key)
    requires SameKeyOrder(a, b, key)
    requires |a| > 0 && |b| > 0
    ensures a[0] == b[0]
  {
    var ka, kb := key(a[0]), key(b[0]);
    InWithKey(a, key, 0);
    InWithKey(b, key, 0);
    assert WithKey(a, key, ka) == WithKey(b, key, ka);
    assert WithKey(a, key, kb) == WithKey(b, key, kb);
    assert a[0] in WithKey(b, key, ka);
    assert ka <= kb by {
      var i :| 0 <= i < |b| && b[i] == a[0];
    }
    assert b[0] in WithKey(a, key, kb);
    assert kb <= ka by {
      var i :| 0 <= i < |a| && a[i] == b[0];
    }
    assert WithKey(a, key, ka)[0] == a[0];
    assert WithKey(b, key, ka)[0] == b[0];
  }

  /** Dropping a common head keeps the per-key order equal. */
  lemma SameTailKeyOrder<T>(a: seq<T>, b: seq<T>, key: T -> nat)
    requires SameKeyOrder(a, b, key)
    requires |a| > 0 && |b| > 0 && a[0] == b[0]
    ensures SameKeyOrder(a[1..], b[1..], key)
  {
    forall k ensures WithKey(a[1..], key, k) == WithKey(b[1..], key, k) {
      assert WithKey(a, key, k) == WithKey(b, key, k);
      if k == key(a[0]) {
        assert WithKey(a[1..], key, k) == WithKey(a, key, k)[1..];
        assert WithKey(b[1..], key, k) == WithKey(b, key, k)[1..];
      }
    }
  }

  /** The sort key of a work-experience entry: its start-date value. */
  function Key(e: WorkExperience): nat {
    StartDateValue(e.date)
  }

  /** `sortWorkExperiencesByDate`: a permutation of the input of the same
      length, most recent start first, equal keys in input order. The input
      is a value and is left as it was, as the source's copy-then-sort does. */
  function SortByDate(items: seq<WorkExperience>): (r: seq<WorkExperience>)
    ensures |r| == |items|
    ensures multiset(r) == multiset(items)
    ensures forall i, j :: 0 <= i < j < |r| ==> Key(r[i]) >= Key(r[j])
    ensures SameKeyOrder(r, items, Key)
  {
    SortDesc(items, Key)
  }

  /** Any sorted sequence that keeps every key's entries in input order is
      exactly `SortByDate(items)`: a stable engine sort can produce nothing else. */
  lemma SortUnique(items: seq<WorkExperience>, r: seq<WorkExperience>)
    requires SortedDesc(r, Key)
    requires SameKeyOrder(r, items, Key)
    ensures r == SortByDate(items)
  {
    var s := SortByDate(items);
    assert SortedDesc(s, Key);
    forall k ensures WithKey(r, Key, k) == WithKey(s, Key, k) {
      assert WithKey(r, Key, k) == WithKey(items, Key, k);
    }
    SortedSameKeyOrderEqual(r, s, Key);
  }

  /** Sorting a sorted list changes nothing. */
  lemma SortIdempotent(items: seq<WorkExperience>)
    ensures SortByDate(SortByDate(items)) == SortByDate(items)
  {
    var s := SortByDate(items);
    assert SortedDesc(s, Key);
    SortUnique(s, s);
  }
}
