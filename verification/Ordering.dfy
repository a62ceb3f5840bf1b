/** Python's sorted() over strings, tuples of strings and path parts. */
module Ordering {

  ghost predicate StrictTotal<T(!new)>(less: (T, T) -> bool) {
    && (forall a :: !less(a, a))
    && (forall a, b, c {:trigger less(a, b), less(b, c)} :: less(a, b) && less(b, c) ==> less(a, c))
    && (forall a, b :: a != b ==> less(a, b) || less(b, a))
  }

  predicate CharLess(a: char, b: char) {
    a < b
  }

  /** Lexicographic order on sequences over an order on their elements. */
  predicate SeqLess<T(==)>(less: (T, T) -> bool, a: seq<T>, b: seq<T>) {
    b != [] && (a == [] || less(a[0], b[0]) || (a[0] == b[0] && SeqLess(less, a[1..], b[1..])))
  }

  predicate StringLess(a: string, b: string) {
    SeqLess(CharLess, a, b)
  }

  lemma {:induction false} SeqLessConnected<T(!new)>(less: (T, T) -> bool, a: seq<T>, b: seq<T>)
    requires StrictTotal(less)
    ensures a != b ==> SeqLess(less, a, b) || SeqLess(less, b, a)
    ensures !SeqLess(less, a, a)
  {
    if a != [] {
      SeqLessConnected(less, a[1..], if b == [] then [] else b[1..]);
      if b != [] && a[0] == b[0] && a != b {
        assert a == [a[0]] + a[1..] && b == [b[0]] + b[1..];
      }
    }
  }

  lemma {:induction false} SeqLessTransitive<T(!new)>(less: (T, T) -> bool, a: seq<T>, b: seq<T>, c: seq<T>)
    requires StrictTotal(less) && SeqLess(less, a, b) && SeqLess(less, b, c)
    ensures SeqLess(less, a, c)
  {
    if a != [] && a[0] == b[0] && b[0] == c[0] {
      SeqLessTransitive(less, a[1..], b[1..], c[1..]);
    }
  }

  lemma StringLessStrictTotal()
    ensures StrictTotal(StringLess)
  {
    assert StrictTotal(CharLess);
    forall a: string, b: string ensures !StringLess(a, a) && (a != b ==> StringLess(a, b) || StringLess(b, a)) {
      SeqLessConnected(CharLess, a, b);
    }
    forall a: string, b: string, c: string | StringLess(a, b) && StringLess(b, c) ensures StringLess(a, c) {
      SeqLessTransitive(CharLess, a, b, c);
    }
  }

  // ---------------------------------------------------------------- sorting

  ghost predicate Sorted<T>(less: (T, T) -> bool, s: seq<T>) {
    forall i, j | 0 <= i < j < |s| :: !less(s[j], s[i])
  }

  ghost predicate StrictlySorted<T>(less: (T, T) -> bool, s: seq<T>) {
    forall i, j | 0 <= i < j < |s| :: less(s[i], s[j])
  }

  function Insert<T>(less: (T, T) -> bool, x: T, s: seq<T>): seq<T> {
    if s == [] || less(x, s[0]) then [x] + s else [s[0]] + Insert(less, x, s[1..])
  }

  function Sort<T>(less: (T, T) -> bool, s: seq<T>): seq<T> {
    if s == [] then [] else Insert(less, s[0], Sort(less, s[1..]))
  }

  lemma {:induction false} InsertContents<T>(less: (T, T) -> bool, x: T, s: seq<T>)
    ensures multiset(Insert(less, x, s)) == multiset(s) + multiset{x}
  {
    if s != [] && !less(x, s[0]) {
      InsertContents(less, x, s[1..]);
      assert s == [s[0]] + s[1..];
    }
  }

  lemma SortedCons<T>(less: (T, T) -> bool, x: T, s: seq<T>)
    requires Sorted(less, s) && forall k | 0 <= k < |s| :: !less(s[k], x)
    ensures Sorted(less, [x] + s)
  {
  }

  lemma {:induction false} InsertSorted<T(!new)>(less: (T, T) -> bool, x: T, s: seq<T>)
    requires StrictTotal(less) && Sorted(less, s)
    ensures Sorted(less, Insert(less, x, s))
  {
    if s == [] {
    } else if less(x, s[0]) {
      forall k | 0 <= k < |s| ensures !less(s[k], x) {
      }
      SortedCons(less, x, s);
    } else {
      var rest := Insert(less, x, s[1..]);
      InsertSorted(less, x, s[1..]);
      InsertContents(less, x, s[1..]);
      forall k | 0 <= k < |rest| ensures !less(rest[k], s[0]) {
        assert rest[k] in multiset(rest);
        if rest[k] != x {
          assert rest[k] in s[1..];
        }
      }
      SortedCons(less, s[0], rest);
    }
  }

  lemma {:induction false} SortSorts<T(!new)>(less: (T, T) -> bool, s: seq<T>)
    requires StrictTotal(less)
    ensures Sorted(less, Sort(less, s)) && multiset(Sort(less, s)) == multiset(s)
  {
    if s != [] {
      SortSorts(less, s[1..]);
      InsertSorted(less, s[0], Sort(less, s[1..]));
      InsertContents(less, s[0], Sort(less, s[1..]));
      assert s == [s[0]] + s[1..];
    }
  }

  lemma TailContents<T>(s: seq<T>)
    requires s != []
    ensures multiset(s[1..]) == multiset(s) - multiset{s[0]}
  {
    assert s == [s[0]] + s[1..];
  }

  lemma SortedLeast<T(!new)>(less: (T, T) -> bool, s: seq<T>, x: T)
    requires StrictTotal(less) && Sorted(less, s) && x in multiset(s)
    ensures s != [] && !less(x, s[0])
  {
    var i :| 0 <= i < |s| && s[i] == x;
  }

  /** A sorted list is determined by its contents. */
  lemma {:induction false} SortedUnique<T(!new)>(less: (T, T) -> bool, a: seq<T>, b: seq<T>)
    requires StrictTotal(less) && Sorted(less, a) && Sorted(less, b) && multiset(a) == multiset(b)
    ensures a == b
    decreases |a|
  {
    assert |multiset(a)| == |a| && |multiset(b)| == |b|;
    if a != [] {
      SortedLeast(less, a, b[0]);
      SortedLeast(less, b, a[0]);
      TailContents(a);
      TailContents(b);
      SortedUnique(less, a[1..], b[1..]);
      assert a == [a[0]] + a[1..] && b == [b[0]] + b[1..];
    }
  }

  /** Comparing sorted copies is comparing multisets. */
  lemma SortedCopiesAgree<T(!new)>(less: (T, T) -> bool, a: seq<T>, b: seq<T>)
    requires StrictTotal(less)
    ensures Sort(less, a) == Sort(less, b) <==> multiset(a) == multiset(b)
  {
    SortSorts(less, a);
    SortSorts(less, b);
    if multiset(a) == multiset(b) {
      SortedUnique(less, Sort(less, a), Sort(less, b));
    }
  }

  ghost predicate Distinct<T>(s: seq<T>) {
    forall i, j | 0 <= i < j < |s| :: s[i] != s[j]
  }

  lemma {:induction false} DistinctCounts<T>(s: seq<T>)
    ensures Distinct(s) <==> forall x :: multiset(s)[x] <= 1
  {
    if s != [] {
      var init, last := s[..|s| - 1], s[|s| - 1];
      DistinctCounts(init);
      assert s == init + [last];
      assert last in init <==> last in multiset(init);
      if Distinct(init) && last in init {
        assert multiset(s)[last] == 2;
      } else if !Distinct(init) {
        var x :| multiset(init)[x] > 1;
        assert multiset(s)[x] > 1;
      }
    }
  }

  lemma SortDistinct<T(!new)>(less: (T, T) -> bool, s: seq<T>)
    requires StrictTotal(less) && Distinct(s)
    ensures StrictlySorted(less, Sort(less, s))
    ensures forall x :: x in Sort(less, s) <==> x in s
  {
    SortSorts(less, s);
    DistinctCounts(s);
    DistinctCounts(Sort(less, s));
    forall x ensures x in Sort(less, s) <==> x in s {
      assert x in s <==> x in multiset(s);
      assert x in Sort(less, s) <==> x in multiset(Sort(less, s));
    }
  }

  method ListSet<T(==)>(keys: set<T>) returns (listed: seq<T>)
    ensures Distinct(listed)
    ensures forall k :: k in listed <==> k in keys
  {
    listed := [];
    var rest := keys;
    while rest != {}
      invariant rest <= keys && Distinct(listed)
      invariant forall k :: k in listed <==> k in keys && k !in rest
      decreases |rest|
    {
      var k :| k in rest;
      listed := listed + [k];
      rest := rest - {k};
    }
  }

  /** sorted() over the keys of a dictionary. */
  method SortSet<T(==, !new)>(less: (T, T) -> bool, keys: set<T>) returns (sorted: seq<T>)
    requires StrictTotal(less)
    ensures StrictlySorted(less, sorted)
    ensures forall k :: k in sorted <==> k in keys
  {
    var listed := ListSet(keys);
    SortDistinct(less, listed);
    sorted := Sort(less, listed);
  }
}
