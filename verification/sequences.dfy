/** Sequence utilities shared by the matchers and the document builder:
    filtering, first-occurrence de-duplication (the order a Python dict keeps its
    keys in) and the stable sort behind `list.sort(key=...)`. */
module Sequences {

  // ---------------------------------------------------------------------------
  // Filtering
  // ---------------------------------------------------------------------------

  function Filter<T>(s: seq<T>, p: T -> bool): seq<T> {
    if |s| == 0 then [] else (if p(s[0]) then [s[0]] else []) + Filter(s[1..], p)
  }

  lemma {:induction false} FilterAppend<T>(a: seq<T>, b: seq<T>, p: T -> bool)
    ensures Filter(a + b, p) == Filter(a, p) + Filter(b, p)
  {
    if |a| > 0 {
      assert (a + b)[0] == a[0];
      assert (a + b)[1..] == a[1..] + b;
      FilterAppend(a[1..], b, p);
    } else {
      assert a + b == b;
    }
  }

  lemma {:induction false} FilterMembership<T>(s: seq<T>, p: T -> bool, x: T)
    ensures x in Filter(s, p) <==> x in s && p(x)
  {
    if |s| > 0 {
      FilterMembership(s[1..], p, x);
      assert s == [s[0]] + s[1..];
    }
  }

  lemma {:induction false} FilterNone<T>(s: seq<T>, p: T -> bool)
    requires forall i :: 0 <= i < |s| ==> !p(s[i])
    ensures Filter(s, p) == []
  {
    if |s| > 0 {
      FilterNone(s[1..], p);
    }
  }

  // ---------------------------------------------------------------------------
  // First-occurrence de-duplication
  // ---------------------------------------------------------------------------

  predicate NoDuplicates<T(==)>(s: seq<T>) {
    forall i, j :: 0 <= i < j < |s| ==> s[i] != s[j]
  }

  /** The elements of `s` in order of first appearance, each once. */
  function Distinct<T(==)>(s: seq<T>): (r: seq<T>)
    ensures NoDuplicates(r)
    ensures forall i :: 0 <= i < |r| ==> r[i] in s
    ensures forall i :: 0 <= i < |s| ==> s[i] in r
  {
    if |s| == 0 then []
    else
      var prefix := s[..|s| - 1];
      var d := Distinct(prefix);
      assert s == prefix + [s[|s| - 1]];
      if s[|s| - 1] in prefix then d else d + [s[|s| - 1]]
  }

  /** Appending never disturbs the positions already handed out. */
  lemma DistinctSnoc<T>(s: seq<T>, x: T)
    ensures Distinct(s + [x]) == if x in s then Distinct(s) else Distinct(s) + [x]
  {
    assert (s + [x])[..|s + [x]| - 1] == s;
  }

  lemma {:induction false} DistinctPrefix<T>(a: seq<T>, b: seq<T>)
    ensures Distinct(a) <= Distinct(a + b)
    decreases |b|
  {
    if |b| > 0 {
      var b' := b[..|b| - 1];
      var x := b[|b| - 1];
      assert a + b == (a + b') + [x];
      DistinctPrefix(a, b');
      DistinctSnoc(a + b', x);
    } else {
      assert a + b == a;
    }
  }

  lemma {:induction false} DistinctOfDistinct<T>(s: seq<T>)
    requires NoDuplicates(s)
    ensures Distinct(s) == s
    decreases |s|
  {
    if |s| > 0 {
      var prefix := s[..|s| - 1];
      assert s == prefix + [s[|s| - 1]];
      assert NoDuplicates(prefix);
      DistinctOfDistinct(prefix);
      assert s[|s| - 1] !in prefix;
    }
  }

  lemma {:induction false} FilterAll<T>(s: seq<T>, p: T -> bool)
    requires forall i :: 0 <= i < |s| ==> p(s[i])
    ensures Filter(s, p) == s
  {
    if |s| > 0 {
      FilterAll(s[1..], p);
      assert s == [s[0]] + s[1..];
    }
  }

  /** An element of a duplicate-free sequence occurs in it at most once. */
  lemma {:induction false} NoDuplicatesCount<T>(s: seq<T>, x: T)
    requires NoDuplicates(s)
    ensures multiset(s)[x] <= 1
  {
    if |s| > 0 {
      assert s == [s[0]] + s[1..];
      assert NoDuplicates(s[1..]);
      NoDuplicatesCount(s[1..], x);
      if x == s[0] {
        assert x !in s[1..];
      }
    }
  }

  lemma RepeatCount<T>(s: seq<T>, i: int, j: int)
    requires 0 <= i < j < |s| && s[i] == s[j]
    ensures multiset(s)[s[i]] >= 2
  {
    assert s == s[..i] + [s[i]] + s[i + 1..j] + [s[j]] + s[j + 1..];
  }

  /** The position of the first occurrence of `x`: a dict's insertion index
      of a key. */
  function Position<T(==)>(s: seq<T>, x: T): (i: nat)
    requires x in s
    ensures i < |s| && s[i] == x && x !in s[..i]
  {
    if s[0] == x then 0
    else
      assert s == [s[0]] + s[1..];
      var i := Position(s[1..], x);
      assert s[..i + 1] == [s[0]] + s[1..][..i];
      i + 1
  }

  /** A prefix of a prefix is a prefix. */
  lemma PrefixOfPrefix<T>(a: seq<T>, b: seq<T>, c: seq<T>)
    requires |a| <= |b| <= |c| && b[..|a|] == a && c[..|b|] == b
    ensures c[..|a|] == a
  {
    assert forall i :: 0 <= i < |a| ==> c[i] == c[..|b|][i];
  }

  /** An element other than the last lies in the prefix without it. */
  lemma InPrefix<T>(s: seq<T>, x: T)
    requires |s| > 0 && x in s && x != s[|s| - 1]
    ensures x in s[..|s| - 1]
  {
    assert s == s[..|s| - 1] + [s[|s| - 1]];
  }

  /** In a sequence without duplicates an element's position is its index. */
  lemma PositionOfIndex<T>(s: seq<T>, i: int)
    requires NoDuplicates(s) && 0 <= i < |s|
    ensures Position(s, s[i]) == i
  {
    var j := Position(s, s[i]);
    assert forall k :: 0 <= k < j ==> s[..j][k] == s[k];
  }

  /** Reordering a sequence whose elements have pairwise different keys keeps
      the keys pairwise different. */
  lemma PermutationKeepsKeysDistinct<T, K>(s: seq<T>, r: seq<T>, key: T -> K)
    requires multiset(r) == multiset(s)
    requires forall a, b :: 0 <= a < b < |s| ==> key(s[a]) != key(s[b])
    ensures forall i, j :: 0 <= i < j < |r| ==> key(r[i]) != key(r[j])
  {
    assert NoDuplicates(s);
    forall i, j | 0 <= i < j < |r|
      ensures key(r[i]) != key(r[j])
    {
      assert r[i] in multiset(s) && r[j] in multiset(s);
      var a :| 0 <= a < |s| && s[a] == r[i];
      var b :| 0 <= b < |s| && s[b] == r[j];
      if a == b {
        RepeatCount(r, i, j);
        NoDuplicatesCount(s, r[i]);
      }
    }
  }

  // ---------------------------------------------------------------------------
  // Stable sort by key
  // ---------------------------------------------------------------------------

  ghost predicate StrictOrder<K(!new)>(lt: (K, K) -> bool) {
    && (forall a :: !lt(a, a))
    && (forall a, b, c :: lt(a, b) && lt(b, c) ==> lt(a, c))
  }

  /** No element is strictly less (by key) than one before it. */
  ghost predicate SortedBy<T, K>(s: seq<T>, key: T -> K, lt: (K, K) -> bool) {
    forall i, j :: 0 <= i < j < |s| ==> !lt(key(s[j]), key(s[i]))
  }

  /** The elements of `s` whose key is `k`, in their order in `s`. */
  function KeyClass<T, K(==)>(s: seq<T>, key: T -> K, k: K): seq<T> {
    if |s| == 0 then [] else (if key(s[0]) == k then [s[0]] else []) + KeyClass(s[1..], key, k)
  }

  lemma {:induction false} KeyClassAppend<T, K>(a: seq<T>, b: seq<T>, key: T -> K, k: K)
    ensures KeyClass(a + b, key, k) == KeyClass(a, key, k) + KeyClass(b, key, k)
  {
    if |a| > 0 {
      assert (a + b)[0] == a[0];
      assert (a + b)[1..] == a[1..] + b;
      KeyClassAppend(a[1..], b, key, k);
    } else {
      assert a + b == b;
    }
  }

  lemma {:induction false} KeyClassNone<T, K>(s: seq<T>, key: T -> K, k: K)
    requires forall i :: 0 <= i < |s| ==> key(s[i]) != k
    ensures KeyClass(s, key, k) == []
  {
    if |s| > 0 {
      KeyClassNone(s[1..], key, k);
    }
  }

  /** Inserts `x` after every element whose key is not greater than its own. */
  function Insert<T, K>(x: T, s: seq<T>, key: T -> K, lt: (K, K) -> bool): seq<T> {
    if |s| == 0 then [x]
    else if lt(key(x), key(s[0])) then [x] + s
    else [s[0]] + Insert(x, s[1..], key, lt)
  }

  lemma {:induction false} InsertPermutes<T, K>(x: T, s: seq<T>, key: T -> K, lt: (K, K) -> bool)
    ensures multiset(Insert(x, s, key, lt)) == multiset(s) + multiset{x}
  {
    if |s| > 0 && !lt(key(x), key(s[0])) {
      InsertPermutes(x, s[1..], key, lt);
      assert s == [s[0]] + s[1..];
    }
  }

  lemma {:induction false} InsertSorted<T, K(!new)>(x: T, s: seq<T>, key: T -> K, lt: (K, K) -> bool)
    requires StrictOrder(lt) && SortedBy(s, key, lt)
    ensures SortedBy(Insert(x, s, key, lt), key, lt)
    ensures multiset(Insert(x, s, key, lt)) == multiset(s) + multiset{x}
  {
    InsertPermutes(x, s, key, lt);
    if |s| > 0 {
      if lt(key(x), key(s[0])) {
        InsertBeforeHead(x, s, key, lt);
      } else {
        SortedTail(s, key, lt);
        InsertSorted(x, s[1..], key, lt);
        InsertAfterHead(x, s, key, lt);
        SortedCons(s[0], Insert(x, s[1..], key, lt), key, lt);
      }
    }
  }

  lemma InsertBeforeHead<T, K(!new)>(x: T, s: seq<T>, key: T -> K, lt: (K, K) -> bool)
    requires StrictOrder(lt) && SortedBy(s, key, lt)
    requires |s| > 0 && lt(key(x), key(s[0]))
    ensures SortedBy([x] + s, key, lt)
  {
    forall y | y in s
      ensures !lt(key(y), key(x))
    {
      var n :| 0 <= n < |s| && s[n] == y;
      if n > 0 {
        assert !lt(key(s[n]), key(s[0]));
      }
    }
    SortedCons(x, s, key, lt);
  }

  /** Inserting into the tail keeps every element at or above the head. */
  lemma InsertAfterHead<T, K>(x: T, s: seq<T>, key: T -> K, lt: (K, K) -> bool)
    requires SortedBy(s, key, lt)
    requires |s| > 0 && !lt(key(x), key(s[0]))
    ensures forall y | y in Insert(x, s[1..], key, lt) :: !lt(key(y), key(s[0]))
  {
    var tail := Insert(x, s[1..], key, lt);
    InsertPermutes(x, s[1..], key, lt);
    forall y | y in tail
      ensures !lt(key(y), key(s[0]))
    {
      assert y in multiset(tail);
      if y != x {
        var n :| 0 <= n < |s[1..]| && s[1..][n] == y;
        assert s[n + 1] == y;
      }
    }
  }

  /** A key below the first key of a sorted sequence occurs nowhere in it. */
  lemma BelowHeadAbsent<T, K(!new)>(x: T, s: seq<T>, key: T -> K, lt: (K, K) -> bool, i: int)
    requires StrictOrder(lt) && SortedBy(s, key, lt)
    requires 0 <= i < |s| && lt(key(x), key(s[0]))
    ensures key(s[i]) != key(x)
  {
    if i == 0 {
      assert !lt(key(s[0]), key(s[0]));
    } else {
      assert !lt(key(s[i]), key(s[0]));
    }
  }

  lemma {:induction false} InsertKeyClass<T, K(!new)>(x: T, s: seq<T>, key: T -> K, lt: (K, K) -> bool, k: K)
    requires StrictOrder(lt) && SortedBy(s, key, lt)
    ensures KeyClass(Insert(x, s, key, lt), key, k)
         == KeyClass(s, key, k) + (if key(x) == k then [x] else [])
  {
    if |s| == 0 {
      assert Insert(x, s, key, lt) == [x] && [x][1..] == [];
    } else if lt(key(x), key(s[0])) {
      if key(x) == k {
        forall i | 0 <= i < |s|
          ensures key(s[i]) != k
        {
          BelowHeadAbsent(x, s, key, lt, i);
        }
        KeyClassNone(s, key, k);
      }
      assert ([x] + s)[1..] == s;
    } else {
      var tail := Insert(x, s[1..], key, lt);
      SortedTail(s, key, lt);
      InsertKeyClass(x, s[1..], key, lt, k);
      assert Insert(x, s, key, lt) == [s[0]] + tail;
      assert ([s[0]] + tail)[1..] == tail;
      assert KeyClass(s, key, k) == (if key(s[0]) == k then [s[0]] else []) + KeyClass(s[1..], key, k);
    }
  }

  lemma SortedTail<T, K>(s: seq<T>, key: T -> K, lt: (K, K) -> bool)
    requires |s| > 0 && SortedBy(s, key, lt)
    ensures SortedBy(s[1..], key, lt)
  {
    forall i, j | 0 <= i < j < |s[1..]|
      ensures !lt(key(s[1..][j]), key(s[1..][i]))
    {
      assert s[1..][i] == s[i + 1] && s[1..][j] == s[j + 1];
    }
  }

  lemma SortedCons<T, K>(x: T, s: seq<T>, key: T -> K, lt: (K, K) -> bool)
    requires SortedBy(s, key, lt)
    requires forall y | y in s :: !lt(key(y), key(x))
    ensures SortedBy([x] + s, key, lt)
  {
    var r := [x] + s;
    forall i, j | 0 <= i < j < |r|
      ensures !lt(key(r[j]), key(r[i]))
    {
      assert r[j] == s[j - 1];
      if i > 0 {
        assert r[i] == s[i - 1];
      }
    }
  }

  /** `list.sort(key=key)`: a stable sort, ascending for `lt`. */
  function SortBy<T, K(!new)>(s: seq<T>, key: T -> K, lt: (K, K) -> bool): (r: seq<T>)
    requires StrictOrder(lt)
    ensures SortedBy(r, key, lt)
    ensures multiset(r) == multiset(s)
  {
    if |s| == 0 then []
    else
      var prefix := s[..|s| - 1];
      var sorted := SortBy(prefix, key, lt);
      InsertSorted(s[|s| - 1], sorted, key, lt);
      assert s == prefix + [s[|s| - 1]];
      Insert(s[|s| - 1], sorted, key, lt)
  }

  /** Stability: within each key, the sorted order is the input order. */
  lemma {:induction false} SortStable<T, K(!new)>(s: seq<T>, key: T -> K, lt: (K, K) -> bool, k: K)
    requires StrictOrder(lt)
    ensures KeyClass(SortBy(s, key, lt), key, k) == KeyClass(s, key, k)
  {
    if |s| > 0 {
      var prefix := s[..|s| - 1];
      var x := s[|s| - 1];
      var sorted := SortBy(prefix, key, lt);
      assert SortBy(s, key, lt) == Insert(x, sorted, key, lt);
      SortStable(prefix, key, lt, k);
      InsertKeyClass(x, sorted, key, lt, k);
      assert s == prefix + [x];
      KeyClassAppend(prefix, [x], key, k);
      assert KeyClass([x], key, k) == (if key(x) == k then [x] else []) by {
        assert [x][1..] == [];
      }
    }
  }

  // ---------------------------------------------------------------------------
  // Chains: sequences ordered pairwise by a relation
  // ---------------------------------------------------------------------------

  ghost predicate Chain<T>(s: seq<T>, lt: (T, T) -> bool) {
    forall i, j :: 0 <= i < j < |s| ==> lt(s[i], s[j])
  }

  lemma {:induction false} KeyClassMembership<T, K>(s: seq<T>, key: T -> K, k: K, x: T)
    ensures x in KeyClass(s, key, k) <==> x in s && key(x) == k
  {
    if |s| > 0 {
      KeyClassMembership(s[1..], key, k, x);
      assert s == [s[0]] + s[1..];
    }
  }

  /** Keeping one key class of a chain leaves a chain. */
  lemma {:induction false} KeyClassChain<T, K>(s: seq<T>, key: T -> K, k: K, lt: (T, T) -> bool)
    requires Chain(s, lt)
    ensures Chain(KeyClass(s, key, k), lt)
  {
    if |s| > 0 {
      var rest := KeyClass(s[1..], key, k);
      KeyClassChain(s[1..], key, k, lt);
      if key(s[0]) == k {
        var c := [s[0]] + rest;
        forall i, j | 0 <= i < j < |c|
          ensures lt(c[i], c[j])
        {
          if i == 0 {
            KeyClassMembership(s[1..], key, k, c[j]);
          }
        }
      }
    }
  }

  /** Two elements of one key class that the class keeps as a chain are in
      chain order wherever they sit in `s`. */
  lemma {:induction false} ChainWithinClass<T, K>(s: seq<T>, key: T -> K, lt: (T, T) -> bool, i: int, j: int)
    requires 0 <= i < j < |s| && key(s[j]) == key(s[i])
    requires Chain(KeyClass(s, key, key(s[i])), lt)
    ensures lt(s[i], s[j])
    decreases i
  {
    var k := key(s[i]);
    var rest := KeyClass(s[1..], key, k);
    if i == 0 {
      assert s[1..][j - 1] == s[j];
      KeyClassMembership(s[1..], key, k, s[j]);
      var m :| 0 <= m < |rest| && rest[m] == s[j];
      var c := KeyClass(s, key, k);
      assert c == [s[0]] + rest;
      assert c[0] == s[0] && c[m + 1] == s[j];
    } else {
      var head := if key(s[0]) == k then [s[0]] else [];
      assert KeyClass(s, key, k) == head + rest;
      ChainDrop(head, rest, lt);
      assert s[1..][i - 1] == s[i] && s[1..][j - 1] == s[j];
      ChainWithinClass(s[1..], key, lt, i - 1, j - 1);
    }
  }

  lemma ChainDrop<T>(head: seq<T>, rest: seq<T>, lt: (T, T) -> bool)
    requires Chain(head + rest, lt)
    ensures Chain(rest, lt)
  {
    var c := head + rest;
    forall a, b | 0 <= a < b < |rest|
      ensures lt(rest[a], rest[b])
    {
      assert rest[a] == c[a + |head|] && rest[b] == c[b + |head|];
    }
  }
}
