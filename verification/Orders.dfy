/**
  Orders shared by the models: the order of Rust's `String`, the ascending key order in
  which a `BTreeMap` is walked, and the stable sort of `[T]::sort_by`.
 */
module Orders {

  datatype Option<+T> = None | Some(value: T)

  // ---- strings ----

  /** Lexicographic order by code point, which is also UTF-8 byte order. */
  predicate StrLe(a: string, b: string) {
    a == [] || (b != [] && (a[0] < b[0] || (a[0] == b[0] && StrLe(a[1..], b[1..]))))
  }

  lemma StrLeTotal(a: string, b: string)
    ensures StrLe(a, b) || StrLe(b, a)
  {}

  lemma StrLeAntisymmetric(a: string, b: string)
    requires StrLe(a, b) && StrLe(b, a)
    ensures a == b
  {
    if a != [] {
      StrLeAntisymmetric(a[1..], b[1..]);
      assert a == [a[0]] + a[1..] && b == [b[0]] + b[1..];
    }
  }

  lemma StrLeTransitive(a: string, b: string, c: string)
    requires StrLe(a, b) && StrLe(b, c)
    ensures StrLe(a, c)
  {}

  lemma StrLeIsOrder()
    ensures TotalPreorder(StrLe)
    ensures forall a: string, b: string :: StrLe(a, b) && StrLe(b, a) ==> a == b
  {
    forall a: string, b: string ensures StrLe(a, b) || StrLe(b, a) { StrLeTotal(a, b); }
    forall a: string, b: string, c: string | StrLe(a, b) && StrLe(b, c) ensures StrLe(a, c) {
      StrLeTransitive(a, b, c);
    }
    forall a: string, b: string | StrLe(a, b) && StrLe(b, a) ensures a == b {
      StrLeAntisymmetric(a, b);
    }
  }

  lemma ConsSlice(s: string, i: nat)
    requires i < |s|
    ensures s[..i + 1] == [s[0]] + s[1..][..i]
  {}

  /** One string comes before another if it is a prefix of it, or smaller where they first differ. */
  lemma {:induction false} StrLeMeans(a: string, b: string)
    ensures StrLe(a, b) <==>
      a <= b || exists i :: 0 <= i < |a| && i < |b| && a[..i] == b[..i] && a[i] < b[i]
  {
    if a != [] && b != [] && a[0] == b[0] {
      var c, d := a[1..], b[1..];
      StrLeMeans(c, d);
      assert a == [a[0]] + c && b == [b[0]] + d;
      if i :| 0 <= i < |c| && i < |d| && c[..i] == d[..i] && c[i] < d[i] {
        ConsSlice(a, i);
        ConsSlice(b, i);
        assert a[i + 1] < b[i + 1];
      }
      if i :| 0 <= i < |a| && i < |b| && a[..i] == b[..i] && a[i] < b[i] {
        ConsSlice(a, i - 1);
        ConsSlice(b, i - 1);
        assert c[..i - 1] == a[..i][1..] && d[..i - 1] == b[..i][1..];
        assert c[i - 1] < d[i - 1];
      }
    } else if a != [] && b != [] && a[0] < b[0] {
      assert a[..0] == b[..0];
    }
  }

  // ---- walking a set of keys in ascending order ----

  predicate IsLeast<T(==)>(m: T, s: set<T>, le: (T, T) -> bool) {
    m in s && forall y :: y in s ==> le(m, y)
  }

  lemma {:induction false} LeastExists<T(!new)>(s: set<T>, le: (T, T) -> bool)
    requires s != {} && TotalPreorder(le)
    ensures exists m :: IsLeast(m, s, le)
  {
    var x :| x in s;
    assert le(x, x);
    if s == {x} {
      assert IsLeast(x, s, le);
    } else {
      LeastExists(s - {x}, le);
      var m :| IsLeast(m, s - {x}, le);
      if le(x, m) {
        forall y | y in s ensures le(x, y) { assert y == x || le(m, y); }
        assert IsLeast(x, s, le);
      } else {
        forall y | y in s ensures le(m, y) { assert y == x || y in s - {x}; }
        assert IsLeast(m, s, le);
      }
    }
  }

  ghost predicate StrictlyAscending(q: seq<string>) {
    forall i, j :: 0 <= i < j < |q| ==> StrLe(q[i], q[j]) && q[i] != q[j]
  }

  lemma {:induction false} AscendingExists(s: set<string>)
    ensures exists q :: StrictlyAscending(q) && forall x :: x in q <==> x in s
  {
    if s == {} {
      var none: seq<string> := [];
      assert StrictlyAscending(none) && forall x :: x in none <==> x in s;
    } else {
      StrLeIsOrder();
      LeastExists(s, StrLe);
      var m :| IsLeast(m, s, StrLe);
      AscendingExists(s - {m});
      var rest :| StrictlyAscending(rest) && forall x :: x in rest <==> x in s - {m};
      assert StrictlyAscending([m] + rest);
      forall x ensures x in [m] + rest <==> x in s {}
    }
  }

  lemma HeadApart(q: seq<string>)
    requires StrictlyAscending(q) && q != []
    ensures q[0] !in q[1..]
    ensures forall x :: x in q <==> x == q[0] || x in q[1..]
  {
    assert q == [q[0]] + q[1..];
  }

  lemma AscendingHead(q: seq<string>, r: seq<string>)
    requires StrictlyAscending(q) && StrictlyAscending(r) && q != []
    requires forall x :: x in q <==> x in r
    ensures r != [] && q[0] == r[0]
    ensures forall x :: x in q[1..] <==> x in r[1..]
  {
    assert q[0] in q && q[0] in r && r[0] in r && r[0] in q;
    var i :| 0 <= i < |r| && r[i] == q[0];
    var j :| 0 <= j < |q| && q[j] == r[0];
    if i != 0 && j != 0 { StrLeAntisymmetric(q[0], r[0]); }
    HeadApart(q);
    HeadApart(r);
  }

  /** A strictly ascending sequence is determined by its elements. */
  lemma {:induction false} AscendingUnique(q: seq<string>, r: seq<string>)
    requires StrictlyAscending(q) && StrictlyAscending(r)
    requires forall x :: x in q <==> x in r
    ensures q == r
  {
    if q == [] {
      if r != [] { AscendingHead(r, q); }
    } else {
      AscendingHead(q, r);
      AscendingUnique(q[1..], r[1..]);
      assert q == [q[0]] + q[1..] && r == [r[0]] + r[1..];
    }
  }

  /** The keys of a `BTreeMap` (or members of a `BTreeSet`) in iteration order. */
  ghost function Ascending(s: set<string>): (q: seq<string>)
    ensures StrictlyAscending(q)
    ensures forall x :: x in q <==> x in s
  {
    AscendingExists(s);
    var q :| StrictlyAscending(q) && forall x :: x in q <==> x in s;
    q
  }

  /** Walking the keys of a `BTreeMap`. */
  method WalkKeys(s: set<string>) returns (q: seq<string>)
    ensures q == Ascending(s)
  {
    q := [];
    var left := s;
    while left != {}
      invariant left <= s && StrictlyAscending(q)
      invariant forall x :: x in q <==> x in s && x !in left
      invariant forall x, y :: x in q && y in left ==> StrLe(x, y)
      decreases |left|
    {
      StrLeIsOrder();
      LeastExists(left, StrLe);
      var m :| m in left && IsLeast(m, left, StrLe);
      q, left := q + [m], left - {m};
    }
    AscendingUnique(q, Ascending(s));
  }

  lemma {:induction false} AscendingSize(q: seq<string>, s: set<string>)
    requires StrictlyAscending(q) && forall x :: x in q <==> x in s
    ensures |q| == |s|
  {
    if q == [] {
      assert s == {};
    } else {
      HeadApart(q);
      AscendingSize(q[1..], s - {q[0]});
    }
  }

  // ---- stable sort ----

  ghost predicate TotalPreorder<T(!new)>(le: (T, T) -> bool) {
    && (forall x, y :: le(x, y) || le(y, x))
    && (forall x, y, z :: le(x, y) && le(y, z) ==> le(x, z))
  }

  ghost predicate Sorted<T>(s: seq<T>, le: (T, T) -> bool) {
    forall i, j :: 0 <= i < j < |s| ==> le(s[i], s[j])
  }

  function Insert<T>(x: T, s: seq<T>, le: (T, T) -> bool): (r: seq<T>)
    ensures multiset(r) == multiset{x} + multiset(s)
    ensures |r| == |s| + 1
  {
    if s == [] then [x]
    else if le(x, s[0]) then [x] + s
    else
      assert s == [s[0]] + s[1..];
      [s[0]] + Insert(x, s[1..], le)
  }

  /** `sort_by` with comparison `le`: elements that compare equal keep their order. */
  function SortBy<T>(s: seq<T>, le: (T, T) -> bool): (r: seq<T>)
    ensures multiset(r) == multiset(s)
    ensures |r| == |s|
  {
    if s == [] then [] else
      assert s == [s[0]] + s[1..];
      Insert(s[0], SortBy(s[1..], le), le)
  }

  lemma SameElements<T>(a: seq<T>, b: seq<T>)
    requires multiset(a) == multiset(b)
    ensures forall x :: x in a <==> x in b
    ensures |a| == |b|
  {
    forall x ensures x in a <==> x in b {
      assert x in a <==> x in multiset(a);
      assert x in b <==> x in multiset(b);
    }
    assert |a| == |multiset(a)| && |b| == |multiset(b)|;
  }

  lemma {:induction false} InsertSorted<T(!new)>(x: T, s: seq<T>, le: (T, T) -> bool)
    requires TotalPreorder(le) && Sorted(s, le)
    ensures Sorted(Insert(x, s, le), le)
  {
    if s != [] && !le(x, s[0]) {
      var rest := Insert(x, s[1..], le);
      InsertSorted(x, s[1..], le);
      forall j | 0 <= j < |rest| ensures le(s[0], rest[j]) {
        assert rest[j] in multiset(rest);
        assert multiset(rest) == multiset{x} + multiset(s[1..]);
        if rest[j] != x {
          assert rest[j] in s[1..];
        }
      }
    }
  }

  lemma {:induction false} SortBySorted<T(!new)>(s: seq<T>, le: (T, T) -> bool)
    requires TotalPreorder(le)
    ensures Sorted(SortBy(s, le), le)
  {
    if s != [] {
      SortBySorted(s[1..], le);
      InsertSorted(s[0], SortBy(s[1..], le), le);
    }
  }

  lemma SortedHeadsAgree<T(!new)>(a: seq<T>, b: seq<T>, le: (T, T) -> bool)
    requires a != [] && Sorted(a, le) && Sorted(b, le)
    requires multiset(a) == multiset(b)
    requires forall x, y :: x in a && y in a && le(x, y) && le(y, x) ==> x == y
    ensures b != [] && a[0] == b[0]
    ensures multiset(a[1..]) == multiset(b[1..])
  {
    SameElements(a, b);
    assert a[0] in b && b[0] in a;
    var i :| 0 <= i < |b| && b[i] == a[0];
    var j :| 0 <= j < |a| && a[j] == b[0];
    if i != 0 && j != 0 { assert le(b[0], b[i]) && le(a[0], a[j]); }
    TailCounts(a);
    TailCounts(b);
  }

  lemma TailCounts<T>(s: seq<T>)
    requires s != []
    ensures multiset(s[1..]) == multiset(s) - multiset{s[0]}
  {
    assert s == [s[0]] + s[1..];
  }

  /** Two sorted arrangements of the same elements agree when `le` tells those elements apart. */
  lemma {:induction false} SortedUnique<T(!new)>(a: seq<T>, b: seq<T>, le: (T, T) -> bool)
    requires Sorted(a, le) && Sorted(b, le)
    requires multiset(a) == multiset(b)
    requires forall x, y :: x in a && y in a && le(x, y) && le(y, x) ==> x == y
    ensures a == b
  {
    SameElements(a, b);
    if a != [] {
      SortedHeadsAgree(a, b, le);
      SortedUnique(a[1..], b[1..], le);
      assert a == [a[0]] + a[1..] && b == [b[0]] + b[1..];
    }
  }

  /** Sorting forgets the order of its input when `le` tells the elements apart. */
  lemma SortByForgetsOrder<T(!new)>(a: seq<T>, b: seq<T>, le: (T, T) -> bool)
    requires TotalPreorder(le)
    requires multiset(a) == multiset(b)
    requires forall x, y :: x in a && y in a && le(x, y) && le(y, x) ==> x == y
    ensures SortBy(a, le) == SortBy(b, le)
  {
    SortBySorted(a, le);
    SortBySorted(b, le);
    SameElements(a, SortBy(a, le));
    SortedUnique(SortBy(a, le), SortBy(b, le), le);
  }

  /** The elements of `s` that compare equal to `x`, in their order. */
  ghost function Alike<T>(s: seq<T>, x: T, le: (T, T) -> bool): seq<T> {
    if s == [] then [] else (if le(s[0], x) && le(x, s[0]) then [s[0]] else []) + Alike(s[1..], x, le)
  }

  lemma {:induction false} InsertStable<T(!new)>(y: T, s: seq<T>, x: T, le: (T, T) -> bool)
    requires TotalPreorder(le)
    ensures Alike(Insert(y, s, le), x, le) == Alike([y] + s, x, le)
  {
    assert ([y] + s)[1..] == s;
    if s != [] && !le(y, s[0]) {
      var rest := Insert(y, s[1..], le);
      InsertStable(y, s[1..], x, le);
      assert ([s[0]] + rest)[1..] == rest && ([y] + s[1..])[1..] == s[1..];
    }
  }

  /** The sort is stable: elements that compare equal keep their order. */
  lemma {:induction false} SortByStable<T(!new)>(s: seq<T>, x: T, le: (T, T) -> bool)
    requires TotalPreorder(le)
    ensures Alike(SortBy(s, le), x, le) == Alike(s, x, le)
  {
    if s != [] {
      var rest := SortBy(s[1..], le);
      SortByStable(s[1..], x, le);
      InsertStable(s[0], rest, x, le);
      assert ([s[0]] + rest)[1..] == rest;
    }
  }

  // ---- sequences without repeats ----

  ghost predicate NoRepeats<T>(s: seq<T>) {
    forall i, j :: 0 <= i < j < |s| ==> s[i] != s[j]
  }

  lemma RepeatCounts<T>(s: seq<T>, i: nat, j: nat)
    requires i < j < |s| && s[i] == s[j]
    ensures multiset(s)[s[i]] >= 2
  {
    assert s == s[..j] + [s[j]] + s[j + 1..];
    assert s[i] in s[..j];
  }

  lemma NoRepeatCounts<T>(s: seq<T>, x: T)
    requires NoRepeats(s)
    ensures multiset(s)[x] <= 1
  {
    if x in s {
      var k :| 0 <= k < |s| && s[k] == x;
      assert s == s[..k] + [s[k]] + s[k + 1..];
      assert x !in s[..k] && x !in s[k + 1..];
    }
  }

  lemma PermutationNoRepeats<T>(a: seq<T>, b: seq<T>)
    requires multiset(a) == multiset(b) && NoRepeats(a)
    ensures NoRepeats(b)
  {
    forall i, j | 0 <= i < j < |b| ensures b[i] != b[j] {
      NoRepeatCounts(a, b[i]);
      if b[i] == b[j] { RepeatCounts(b, i, j); }
    }
  }

  // ---- sorting by a key ----

  function Project<T, K>(s: seq<T>, key: T -> K): (r: seq<K>)
    ensures |r| == |s| && forall i :: 0 <= i < |s| ==> r[i] == key(s[i])
  {
    seq(|s|, i requires 0 <= i < |s| => key(s[i]))
  }

  lemma ProjectCons<T, K>(x: T, s: seq<T>, key: T -> K)
    ensures Project([x] + s, key) == [key(x)] + Project(s, key)
  {}

  lemma {:induction false} ProjectInsert<T, K>(x: T, s: seq<T>, le: (T, T) -> bool, key: T -> K, keyLe: (K, K) -> bool)
    requires forall b :: b in s ==> le(x, b) == keyLe(key(x), key(b))
    ensures Project(Insert(x, s, le), key) == Insert(key(x), Project(s, key), keyLe)
  {
    if s == [] {
      ProjectCons(x, [], key);
    } else {
      var head, tail := s[0], s[1..];
      assert s == [head] + tail && head in s;
      ProjectCons(head, tail, key);
      assert Project(s, key)[1..] == Project(tail, key);
      if le(x, head) {
        ProjectCons(x, s, key);
      } else {
        ProjectInsert(x, tail, le, key, keyLe);
        ProjectCons(head, Insert(x, tail, le), key);
      }
    }
  }

  /** Sorting commutes with taking keys. */
  lemma {:induction false} ProjectSort<T(!new), K>(s: seq<T>, le: (T, T) -> bool, key: T -> K, keyLe: (K, K) -> bool)
    requires forall a, b :: le(a, b) == keyLe(key(a), key(b))
    ensures Project(SortBy(s, le), key) == SortBy(Project(s, key), keyLe)
  {
    if s != [] {
      ProjectSort(s[1..], le, key, keyLe);
      assert Project(s, key)[1..] == Project(s[1..], key);
      ProjectInsert(s[0], SortBy(s[1..], le), le, key, keyLe);
    }
  }

  // ---- walking any set in a total order ----

  ghost predicate TotalOrder<T(!new)>(le: (T, T) -> bool) {
    TotalPreorder(le) && forall x, y :: le(x, y) && le(y, x) ==> x == y
  }

  ghost predicate Lists<T(!new)>(q: seq<T>, s: set<T>) {
    NoRepeats(q) && forall x :: x in q <==> x in s
  }

  lemma {:induction false} ListsExist<T(!new)>(s: set<T>)
    ensures exists q :: Lists(q, s)
  {
    if s == {} {
      var none: seq<T> := [];
      assert Lists(none, s);
    } else {
      var x :| x in s;
      ListsExist(s - {x});
      var q :| Lists(q, s - {x});
      assert Lists(q + [x], s);
    }
  }

  lemma {:induction false} ListsPermute<T(!new)>(a: seq<T>, b: seq<T>, s: set<T>)
    requires Lists(a, s) && Lists(b, s)
    ensures multiset(a) == multiset(b)
  {
    forall x ensures multiset(a)[x] == multiset(b)[x] {
      NoRepeatCounts(a, x);
      NoRepeatCounts(b, x);
      assert x in multiset(a) <==> x in a;
      assert x in multiset(b) <==> x in b;
    }
  }

  /** The keys of a `BTreeMap` whose key order is `le`. */
  ghost function InOrder<T(!new)>(s: set<T>, le: (T, T) -> bool): (q: seq<T>)
    requires TotalOrder(le)
    ensures Lists(q, s) && Sorted(q, le)
  {
    ListsExist(s);
    var q :| Lists(q, s);
    SortBySorted(q, le);
    SameElements(q, SortBy(q, le));
    PermutationNoRepeats(q, SortBy(q, le));
    SortBy(q, le)
  }

  method WalkInOrder<T(!new, ==)>(s: set<T>, le: (T, T) -> bool) returns (q: seq<T>)
    requires TotalOrder(le)
    ensures q == InOrder(s, le)
  {
    q := [];
    var left := s;
    while left != {}
      invariant left <= s && Lists(q, s - left)
      decreases |left|
    {
      var x :| x in left;
      q, left := q + [x], left - {x};
    }
    ghost var any := q;
    q := SortBy(q, le);
    SortBySorted(any, le);
    SameElements(any, q);
    PermutationNoRepeats(any, q);
    ListsPermute(q, InOrder(s, le), s);
    SortedUnique(q, InOrder(s, le), le);
  }

  lemma {:induction false} ListsSize<T(!new)>(q: seq<T>, s: set<T>)
    requires Lists(q, s)
    ensures |q| == |s|
  {
    if q == [] {
      assert s == {};
    } else {
      var last := q[|q| - 1];
      assert last in q && q == q[..|q| - 1] + [last];
      assert Lists(q[..|q| - 1], s - {last});
      ListsSize(q[..|q| - 1], s - {last});
    }
  }

  lemma ProjectConcat<T, K>(a: seq<T>, b: seq<T>, key: T -> K)
    ensures Project(a + b, key) == Project(a, key) + Project(b, key)
  {}

  function Without<T>(s: seq<T>, i: nat): seq<T>
    requires i < |s|
  {
    s[..i] + s[i + 1..]
  }

  lemma WithoutCounts<T>(s: seq<T>, i: nat)
    requires i < |s|
    ensures multiset(s) == multiset(Without(s, i)) + multiset{s[i]}
  {
    assert s == s[..i] + [s[i]] + s[i + 1..];
  }

  lemma ProjectWithout<T, K>(s: seq<T>, i: nat, key: T -> K)
    requires i < |s|
    ensures Project(Without(s, i), key) == Without(Project(s, key), i)
  {}

  lemma {:induction false} ProjectPermutes<T, K>(a: seq<T>, b: seq<T>, key: T -> K)
    requires multiset(a) == multiset(b)
    ensures multiset(Project(a, key)) == multiset(Project(b, key))
  {
    SameElements(a, b);
    if a != [] {
      assert a[0] in a && a[0] in b;
      var i :| 0 <= i < |b| && b[i] == a[0];
      WithoutCounts(a, 0);
      WithoutCounts(b, i);
      assert multiset(Without(a, 0)) == multiset(a) - multiset{a[0]};
      assert multiset(Without(b, i)) == multiset(b) - multiset{a[0]};
      ProjectPermutes(Without(a, 0), Without(b, i), key);
      ProjectWithout(a, 0, key);
      ProjectWithout(b, i, key);
      WithoutCounts(Project(a, key), 0);
      WithoutCounts(Project(b, key), i);
    }
  }

  lemma {:induction false} SubsetSize<T>(a: set<T>, b: set<T>)
    requires a <= b
    ensures |a| <= |b|
  {
    if a != {} {
      var x :| x in a;
      SubsetSize(a - {x}, b - {x});
    }
  }
}
