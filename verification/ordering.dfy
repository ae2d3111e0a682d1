/** Orderings used by `ORDER BY` and a sort that realises them.

    SQLite compares TEXT under the default BINARY collation with `memcmp` over
    the UTF-8 encoding, and UTF-8 byte order coincides with code point order,
    so the order on `string` is the lexicographic order on `char`s with a
    proper prefix first. */
module Ordering {

  /** `a` sorts at or before `b` under the BINARY collation. */
  predicate StrLe(a: string, b: string)
    decreases |a|
  {
    if |a| == 0 then true
    else if |b| == 0 then false
    else if a[0] != b[0] then a[0] < b[0]
    else StrLe(a[1..], b[1..])
  }

  /** Strictly before. */
  predicate StrLt(a: string, b: string) {
    StrLe(a, b) && a != b
  }

  lemma {:induction false} StrLeTotal(a: string, b: string)
    ensures StrLe(a, b) || StrLe(b, a)
    decreases |a|
  {
    if |a| > 0 && |b| > 0 && a[0] == b[0] {
      StrLeTotal(a[1..], b[1..]);
    }
  }

  lemma {:induction false} StrLeAntisymmetric(a: string, b: string)
    requires StrLe(a, b) && StrLe(b, a)
    ensures a == b
    decreases |a|
  {
    if |a| > 0 {
      StrLeAntisymmetric(a[1..], b[1..]);
      assert a == [a[0]] + a[1..];
      assert b == [b[0]] + b[1..];
    }
  }

  lemma {:induction false} StrLeTransitive(a: string, b: string, c: string)
    requires StrLe(a, b) && StrLe(b, c)
    ensures StrLe(a, c)
    decreases |a|
  {
    if |a| > 0 && a[0] == b[0] && b[0] == c[0] {
      StrLeTransitive(a[1..], b[1..], c[1..]);
    }
  }

  lemma StrLtTransitive(a: string, b: string, c: string)
    requires StrLe(a, b) && StrLt(b, c)
    ensures StrLt(a, c)
  {
    StrLeTransitive(a, b, c);
    if a == c {
      StrLeAntisymmetric(b, c);
    }
  }

  /** Every pair is comparable and the relation is transitive: what a sort
      needs of its comparison. Ties are allowed, as `ORDER BY` allows them. */
  ghost predicate TotalPreorder<T(!new)>(le: (T, T) -> bool) {
    && (forall a, b :: le(a, b) || le(b, a))
    && (forall a, b, c :: le(a, b) && le(b, c) ==> le(a, c))
  }

  ghost predicate SortedBy<T>(le: (T, T) -> bool, s: seq<T>) {
    forall i, j :: 0 <= i < j < |s| ==> le(s[i], s[j])
  }

  lemma StrLeIsTotalPreorder()
    ensures TotalPreorder(StrLe)
  {
    forall a, b ensures StrLe(a, b) || StrLe(b, a) {
      StrLeTotal(a, b);
    }
    forall a, b, c | StrLe(a, b) && StrLe(b, c) ensures StrLe(a, c) {
      StrLeTransitive(a, b, c);
    }
  }

  /** Prepending an element that sorts at or before every element keeps a
      sequence sorted. */
  lemma PrependSorted<T>(le: (T, T) -> bool, y: T, t: seq<T>)
    requires SortedBy(le, t)
    requires forall k :: 0 <= k < |t| ==> le(y, t[k])
    ensures SortedBy(le, [y] + t)
  {
    forall i, j | 0 <= i < j < |[y] + t| ensures le(([y] + t)[i], ([y] + t)[j]) {
      if i > 0 {
        assert ([y] + t)[i] == t[i - 1];
      }
    }
  }

  /** Every element of a sequence with a known multiset comes from it. */
  lemma ElementsFrom<T>(t: seq<T>, s: seq<T>, x: T)
    requires multiset(t) == multiset(s) + multiset{x}
    ensures forall k :: 0 <= k < |t| ==> t[k] == x || t[k] in s
  {
    forall k | 0 <= k < |t| ensures t[k] == x || t[k] in s {
      assert t[k] in multiset(t);
    }
  }

  /** Inserts `x` into the sorted `s` before the first element it sorts at or
      before. */
  function Insert<T(!new)>(le: (T, T) -> bool, x: T, s: seq<T>): (r: seq<T>)
    requires TotalPreorder(le)
    requires SortedBy(le, s)
    ensures SortedBy(le, r)
    ensures multiset(r) == multiset(s) + multiset{x}
  {
    if |s| == 0 then [x]
    else if le(x, s[0]) then
      PrependSorted(le, x, s);
      [x] + s
    else
      assert s == [s[0]] + s[1..];
      var t := Insert(le, x, s[1..]);
      ElementsFrom(t, s[1..], x);
      PrependSorted(le, s[0], t);
      [s[0]] + t
  }

  /** Insertion sort: the rows an `ORDER BY` returns, for one resolution of
      ties. */
  function SortBy<T(!new)>(le: (T, T) -> bool, s: seq<T>): (r: seq<T>)
    requires TotalPreorder(le)
    ensures SortedBy(le, r)
    ensures multiset(r) == multiset(s)
    ensures |r| == |s|
  {
    if |s| == 0 then []
    else
      assert s == [s[0]] + s[1..];
      Insert(le, s[0], SortBy(le, s[1..]))
  }

  /** `f` applied to every element, in order (a SQL column projection). */
  function Map<T, U>(f: T -> U, s: seq<T>): (r: seq<U>)
    ensures |r| == |s|
    ensures forall k :: 0 <= k < |s| ==> r[k] == f(s[k])
  {
    if |s| == 0 then [] else [f(s[0])] + Map(f, s[1..])
  }

  /** Keeps the elements satisfying `p`, in order (a SQL `WHERE`). */
  function Filter<T(!new)>(p: T -> bool, s: seq<T>): (r: seq<T>)
    ensures forall x :: multiset(r)[x] == if p(x) then multiset(s)[x] else 0
    ensures multiset(r) <= multiset(s)
  {
    if |s| == 0 then []
    else
      assert s == [s[0]] + s[1..];
      (if p(s[0]) then [s[0]] else []) + Filter(p, s[1..])
  }
}
