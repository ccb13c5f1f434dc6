// The LINQ operators the repositories chain over a table: Where, Any,
// FirstOrDefault, Count, OrderBy, Skip and Take, plus removing one row.

module Seqs {
  import opened Common

  /** `xs.Where(p)`: the rows satisfying `p`, in their original order. */
  function Filter<T(!new)>(xs: seq<T>, p: T -> bool): (r: seq<T>)
    ensures |r| <= |xs|
    ensures forall x :: x in r <==> x in xs && p(x)
    ensures forall i :: 0 <= i < |r| ==> p(r[i])
  {
    if xs == [] then []
    else
      assert xs == [xs[0]] + xs[1..];
      (if p(xs[0]) then [xs[0]] else []) + Filter(xs[1..], p)
  }

  lemma {:induction false} FilterConcat<T(!new)>(a: seq<T>, b: seq<T>, p: T -> bool)
    ensures Filter(a + b, p) == Filter(a, p) + Filter(b, p)
  {
    if a == [] {
      assert a + b == b;
    } else {
      assert (a + b)[1..] == a[1..] + b;
      FilterConcat(a[1..], b, p);
    }
  }

  /** A filter that every row passes leaves the table as it is. */
  lemma {:induction false} FilterAll<T(!new)>(xs: seq<T>, p: T -> bool)
    requires forall i :: 0 <= i < |xs| ==> p(xs[i])
    ensures Filter(xs, p) == xs
  {
    if xs != [] {
      FilterAll(xs[1..], p);
    }
  }

  /** A filter that no row passes leaves nothing. */
  lemma {:induction false} FilterNone<T(!new)>(xs: seq<T>, p: T -> bool)
    requires forall i :: 0 <= i < |xs| ==> !p(xs[i])
    ensures Filter(xs, p) == []
  {
    if xs != [] {
      FilterNone(xs[1..], p);
    }
  }

  /** Two predicates that agree on every row select the same rows. */
  lemma {:induction false} FilterSame<T(!new)>(xs: seq<T>, p: T -> bool, q: T -> bool)
    requires forall i :: 0 <= i < |xs| ==> p(xs[i]) == q(xs[i])
    ensures Filter(xs, p) == Filter(xs, q)
  {
    if xs != [] {
      FilterSame(xs[1..], p, q);
    }
  }

  /** Filtering by `p` first changes nothing when `q` already implies `p`. */
  lemma {:induction false} FilterNarrow<T(!new)>(xs: seq<T>, p: T -> bool, q: T -> bool)
    requires forall i :: 0 <= i < |xs| ==> q(xs[i]) ==> p(xs[i])
    ensures Filter(Filter(xs, p), q) == Filter(xs, q)
  {
    if xs != [] {
      var head := if p(xs[0]) then [xs[0]] else [];
      FilterNarrow(xs[1..], p, q);
      FilterConcat(head, Filter(xs[1..], p), q);
      if p(xs[0]) {
        assert head == [xs[0]] + [];
        FilterConcat([xs[0]], [], q);
      }
    }
  }

  /** Two `Where`s in a row select the rows satisfying both. */
  lemma {:induction false} FilterFilter<T(!new)>(xs: seq<T>, p: T -> bool, q: T -> bool, r: T -> bool)
    requires forall i :: 0 <= i < |xs| ==> r(xs[i]) == (p(xs[i]) && q(xs[i]))
    ensures Filter(Filter(xs, p), q) == Filter(xs, r)
  {
    if xs != [] {
      var head := if p(xs[0]) then [xs[0]] else [];
      FilterFilter(xs[1..], p, q, r);
      FilterConcat(head, Filter(xs[1..], p), q);
      if p(xs[0]) {
        assert head == [xs[0]] + [];
        FilterConcat([xs[0]], [], q);
      }
    }
  }

  /** The rows satisfying every one of `ps`. */
  function AllOf<T>(ps: seq<T -> bool>): T -> bool {
    (x: T) => forall i :: 0 <= i < |ps| ==> ps[i](x)
  }

  /** `query = query.Where(p)` for each `p` of `ps` in turn. */
  function WhereAll<T(!new)>(xs: seq<T>, ps: seq<T -> bool>): seq<T>
    decreases |ps|
  {
    if |ps| == 0 then xs else WhereAll(Filter(xs, ps[0]), ps[1..])
  }

  /** A chain of `Where`s is one `Where` on the conjunction. */
  lemma {:induction false} WhereAllIsConjunction<T(!new)>(xs: seq<T>, ps: seq<T -> bool>)
    ensures WhereAll(xs, ps) == Filter(xs, AllOf(ps))
    decreases |ps|
  {
    if |ps| == 0 {
      FilterAll(xs, AllOf(ps));
    } else {
      WhereAllIsConjunction(Filter(xs, ps[0]), ps[1..]);
      forall i | 0 <= i < |xs|
        ensures AllOf(ps)(xs[i]) == (ps[0](xs[i]) && AllOf(ps[1..])(xs[i]))
      {
        if ps[0](xs[i]) && AllOf(ps[1..])(xs[i]) {
          forall k | 0 <= k < |ps| ensures ps[k](xs[i]) {
            if k > 0 { assert ps[1..][k - 1] == ps[k]; }
          }
        }
      }
      FilterFilter(xs, ps[0], AllOf(ps[1..]), AllOf(ps));
    }
  }

  /** Joining two lists of clauses conjoins what they ask. */
  lemma AllOfConcat<T>(ps: seq<T -> bool>, qs: seq<T -> bool>, x: T)
    ensures AllOf(ps + qs)(x) == (AllOf(ps)(x) && AllOf(qs)(x))
  {
    if AllOf(ps)(x) && AllOf(qs)(x) {
      forall i | 0 <= i < |ps + qs| ensures (ps + qs)[i](x) {
        if i >= |ps| { assert (ps + qs)[i] == qs[i - |ps|]; }
      }
    }
    if AllOf(ps + qs)(x) {
      forall i | 0 <= i < |ps| ensures ps[i](x) {
        assert (ps + qs)[i] == ps[i];
      }
      forall i | 0 <= i < |qs| ensures qs[i](x) {
        assert (ps + qs)[i + |ps|] == qs[i];
      }
    }
  }

  lemma AllOfSeven<T>(p1: seq<T -> bool>, p2: seq<T -> bool>, p3: seq<T -> bool>, p4: seq<T -> bool>,
                      p5: seq<T -> bool>, p6: seq<T -> bool>, p7: seq<T -> bool>, x: T)
    ensures AllOf(p1 + p2 + p3 + p4 + p5 + p6 + p7)(x) ==
      (AllOf(p1)(x) && AllOf(p2)(x) && AllOf(p3)(x) && AllOf(p4)(x) && AllOf(p5)(x) && AllOf(p6)(x) && AllOf(p7)(x))
  {
    AllOfConcat(p1, p2, x);
    AllOfConcat(p1 + p2, p3, x);
    AllOfConcat(p1 + p2 + p3, p4, x);
    AllOfConcat(p1 + p2 + p3 + p4, p5, x);
    AllOfConcat(p1 + p2 + p3 + p4 + p5, p6, x);
    AllOfConcat(p1 + p2 + p3 + p4 + p5 + p6, p7, x);
  }

  /** An optional clause: none, or the one clause `p`. */
  lemma AllOfOptional<T>(cond: bool, p: T -> bool, x: T)
    ensures AllOf(if cond then [p] else [])(x) == (cond ==> p(x))
  {
    if cond {
      assert [p][0] == p;
    }
  }

  /** `xs.Count(p)` */
  function Count<T(!new)>(xs: seq<T>, p: T -> bool): nat {
    |Filter(xs, p)|
  }

  lemma CountConcat<T(!new)>(a: seq<T>, b: seq<T>, p: T -> bool)
    ensures Count(a + b, p) == Count(a, p) + Count(b, p)
  {
    FilterConcat(a, b, p);
  }

  /** The position of the first row satisfying `p` (what `FirstOrDefault` returns). */
  function FirstIndex<T>(xs: seq<T>, p: T -> bool): (r: Option<nat>)
    ensures r.Some? ==> r.value < |xs| && p(xs[r.value])
    ensures r.Some? ==> forall j :: 0 <= j < r.value ==> !p(xs[j])
    ensures r.None? <==> forall j :: 0 <= j < |xs| ==> !p(xs[j])
  {
    if xs == [] then None
    else if p(xs[0]) then Some(0)
    else
      match FirstIndex(xs[1..], p)
      case None => None
      case Some(k) => Some(k + 1)
  }

  /** `xs.FirstOrDefault(p)` */
  function FirstOrNone<T>(xs: seq<T>, p: T -> bool): (r: Option<T>)
    ensures r.Some? <==> exists i :: 0 <= i < |xs| && p(xs[i])
    ensures r.Some? ==> r.value in xs && p(r.value)
  {
    match FirstIndex(xs, p)
    case None => None
    case Some(i) => Some(xs[i])
  }

  /** `xs.Any(p)` */
  function Any<T>(xs: seq<T>, p: T -> bool): (r: bool)
    ensures r <==> exists i :: 0 <= i < |xs| && p(xs[i])
  {
    FirstIndex(xs, p).Some?
  }

  /** The table without its row at `i` (`Remove` of a tracked entity). */
  function RemoveAt<T>(xs: seq<T>, i: nat): (r: seq<T>)
    requires i < |xs|
    ensures |r| == |xs| - 1
    ensures forall j :: 0 <= j < i ==> r[j] == xs[j]
    ensures forall j :: i <= j < |r| ==> r[j] == xs[j + 1]
  {
    xs[..i] + xs[i + 1..]
  }

  lemma CountRemoveAt<T(!new)>(xs: seq<T>, i: nat, p: T -> bool)
    requires i < |xs|
    ensures Count(RemoveAt(xs, i), p) == Count(xs, p) - (if p(xs[i]) then 1 else 0)
  {
    assert xs == xs[..i] + ([xs[i]] + xs[i + 1..]);
    CountConcat(xs[..i], [xs[i]] + xs[i + 1..], p);
    CountConcat([xs[i]], xs[i + 1..], p);
    CountConcat(xs[..i], xs[i + 1..], p);
  }

  lemma CountUpdate<T(!new)>(xs: seq<T>, i: nat, y: T, p: T -> bool)
    requires i < |xs|
    requires p(y) == p(xs[i])
    ensures Count(xs[i := y], p) == Count(xs, p)
  {
    assert xs == xs[..i] + ([xs[i]] + xs[i + 1..]);
    assert xs[i := y] == xs[..i] + ([y] + xs[i + 1..]);
    CountConcat(xs[..i], [xs[i]] + xs[i + 1..], p);
    CountConcat([xs[i]], xs[i + 1..], p);
    CountConcat(xs[..i], [y] + xs[i + 1..], p);
    CountConcat([y], xs[i + 1..], p);
  }

  /** `xs.Skip(n)`: a negative count skips nothing. */
  function Skip<T>(xs: seq<T>, n: int): (r: seq<T>)
    ensures |r| == if n <= 0 then |xs| else if n >= |xs| then 0 else |xs| - n
    ensures forall i :: 0 <= i < |r| ==> r[i] == xs[i + (if n <= 0 then 0 else n)]
    ensures forall x :: x in r ==> x in xs
  {
    if n <= 0 then xs else if n >= |xs| then [] else xs[n..]
  }

  /** `xs.Take(n)`: a negative count takes nothing. */
  function Take<T>(xs: seq<T>, n: int): (r: seq<T>)
    ensures |r| == if n <= 0 then 0 else if n >= |xs| then |xs| else n
    ensures forall i :: 0 <= i < |r| ==> r[i] == xs[i]
    ensures forall x :: x in r ==> x in xs
  {
    if n <= 0 then [] else if n >= |xs| then xs else xs[..n]
  }

  /** How many rows precede page `page`: `(page - 1) * pageSize`. */
  function Offset(page: int, pageSize: int): (r: int)
    ensures page >= 1 && pageSize >= 0 ==> r >= 0
  {
    MulNonNegative(page - 1, pageSize);
    (page - 1) * pageSize
  }

  lemma MulNonNegative(a: int, b: int)
    ensures a >= 0 && b >= 0 ==> a * b >= 0
  {
  }

  /** `.Skip((page - 1) * pageSize).Take(pageSize)` */
  function PageOf<T(!new)>(xs: seq<T>, page: int, pageSize: int): (r: seq<T>)
    ensures |r| <= if pageSize <= 0 then 0 else pageSize
    ensures page >= 1 && pageSize >= 1 ==>
      |r| == Min(pageSize, Max(|xs| - Offset(page, pageSize), 0)) &&
      forall i :: 0 <= i < |r| ==> r[i] == xs[Offset(page, pageSize) + i]
    ensures forall x :: x in r ==> x in xs
  {
    Take(Skip(xs, Offset(page, pageSize)), pageSize)
  }

  /** A run of consecutive rows of an ordered sequence is ordered. */
  lemma ShiftSorted<T>(xs: seq<T>, r: seq<T>, n: nat, le: (T, T) -> bool)
    requires Sorted(xs, le)
    requires |r| == 0 || |r| - 1 + n < |xs|
    requires forall i :: 0 <= i < |r| ==> i + n < |xs| && r[i] == xs[i + n]
    ensures Sorted(r, le)
  {
    forall i, j | 0 <= i < j < |r| ensures le(r[i], r[j]) {
      assert r[i] == xs[i + n] && r[j] == xs[j + n];
    }
  }

  /** A page of an ordered sequence is ordered. */
  lemma PageOfSorted<T(!new)>(xs: seq<T>, page: int, pageSize: int, le: (T, T) -> bool)
    requires Sorted(xs, le)
    ensures Sorted(PageOf(xs, page, pageSize), le)
  {
    var o := Offset(page, pageSize);
    var skipped := Skip(xs, o);
    ShiftSorted(xs, skipped, if o <= 0 then 0 else o, le);
    ShiftSorted(skipped, Take(skipped, pageSize), 0, le);
  }

  function Min(a: int, b: int): int { if a <= b then a else b }
  function Max(a: int, b: int): int { if a >= b then a else b }

  // ---- OrderBy ----

  /** `le` is a total preorder: the ordering `OrderBy`/`ThenBy` keys induce. */
  ghost predicate TotalPreorder<T(!new)>(le: (T, T) -> bool) {
    (forall a, b :: le(a, b) || le(b, a)) &&
    (forall a, b, c :: le(a, b) && le(b, c) ==> le(a, c))
  }

  ghost predicate Sorted<T>(xs: seq<T>, le: (T, T) -> bool) {
    forall i, j :: 0 <= i < j < |xs| ==> le(xs[i], xs[j])
  }

  /** `x` inserted into the ordered `xs` before the first row it is not after. */
  function Insert<T(!new)>(x: T, xs: seq<T>, le: (T, T) -> bool): (r: seq<T>)
    requires TotalPreorder(le)
    requires Sorted(xs, le)
    ensures Sorted(r, le)
    ensures multiset(r) == multiset(xs) + multiset{x}
  {
    if xs == [] then [x]
    else if le(x, xs[0]) then
      SortedCons(x, xs, le);
      [x] + xs
    else
      var rest := Insert(x, xs[1..], le);
      assert xs == [xs[0]] + xs[1..];
      InsertLowerBound(xs[0], x, xs[1..], rest, le);
      SortedCons(xs[0], rest, le);
      [xs[0]] + rest
  }

  lemma SortedCons<T(!new)>(y: T, xs: seq<T>, le: (T, T) -> bool)
    requires TotalPreorder(le)
    requires Sorted(xs, le)
    requires xs != [] ==> le(y, xs[0])
    ensures Sorted([y] + xs, le)
  {
    forall i, j | 0 <= i < j < |[y] + xs| ensures le(([y] + xs)[i], ([y] + xs)[j]) {
      if i == 0 && j > 1 {
        assert le(xs[0], xs[j - 1]);
      }
    }
  }

  lemma InsertLowerBound<T(!new)>(y: T, x: T, tail: seq<T>, rest: seq<T>, le: (T, T) -> bool)
    requires TotalPreorder(le)
    requires !le(x, y)
    requires Sorted([y] + tail, le)
    requires multiset(rest) == multiset(tail) + multiset{x}
    ensures rest != [] ==> le(y, rest[0])
  {
    if rest != [] {
      assert rest[0] in multiset(rest);
      if rest[0] != x {
        assert rest[0] in multiset(tail);
        var j :| 0 <= j < |tail| && tail[j] == rest[0];
        assert ([y] + tail)[0] == y;
        assert ([y] + tail)[j + 1] == tail[j];
      } else {
        assert le(x, y) || le(y, x);
      }
    }
  }

  /** `xs.OrderBy(...)`: ordered by `le` and holding exactly the rows of `xs`. */
  function SortBy<T(!new)>(xs: seq<T>, le: (T, T) -> bool): (r: seq<T>)
    requires TotalPreorder(le)
    ensures Sorted(r, le)
    ensures multiset(r) == multiset(xs)
    ensures |r| == |xs|
    ensures forall x :: x in r <==> x in xs
  {
    if xs == [] then []
    else
      assert xs == [xs[0]] + xs[1..];
      var r := Insert(xs[0], SortBy(xs[1..], le), le);
      assert |r| == |multiset(r)|;
      assert forall x :: x in r <==> x in multiset(r);
      assert forall x :: x in xs <==> x in multiset(xs);
      r
  }

  // ---- ordinal string order ----

  /** Ordinal (code-point) lexicographic order on strings. */
  predicate StrLe(a: string, b: string) {
    |a| == 0 || (|b| > 0 && (a[0] < b[0] || (a[0] == b[0] && StrLe(a[1..], b[1..]))))
  }

  lemma {:induction false} StrLeTotal(a: string, b: string)
    ensures StrLe(a, b) || StrLe(b, a)
  {
    if |a| > 0 && |b| > 0 && a[0] == b[0] {
      StrLeTotal(a[1..], b[1..]);
    }
  }

  lemma {:induction false} StrLeRefl(a: string)
    ensures StrLe(a, a)
  {
    if |a| > 0 {
      StrLeRefl(a[1..]);
    }
  }

  lemma {:induction false} StrLeTrans(a: string, b: string, c: string)
    requires StrLe(a, b) && StrLe(b, c)
    ensures StrLe(a, c)
  {
    if |a| > 0 && |b| > 0 && |c| > 0 && a[0] == b[0] && b[0] == c[0] {
      StrLeTrans(a[1..], b[1..], c[1..]);
    }
  }

  lemma {:induction false} StrLeAntisym(a: string, b: string)
    requires StrLe(a, b) && StrLe(b, a)
    ensures a == b
  {
    if |a| > 0 && |b| > 0 {
      StrLeAntisym(a[1..], b[1..]);
      assert a == [a[0]] + a[1..];
      assert b == [b[0]] + b[1..];
    }
  }

  /** `OrderBy(key)` on a string key, ordinal comparison. */
  function ByString<T>(key: T -> string): (T, T) -> bool {
    (x: T, y: T) => StrLe(key(x), key(y))
  }

  /** `OrderBy(key)` on an integer key. */
  function Ascending<T>(key: T -> int): (T, T) -> bool {
    (x: T, y: T) => key(x) <= key(y)
  }

  /** `OrderByDescending(key)` on an integer key. */
  function Descending<T>(key: T -> int): (T, T) -> bool {
    (x: T, y: T) => key(x) >= key(y)
  }

  /** Ordering by a primary string key, then (`ThenBy`) by a secondary one. */
  predicate StrPairLe(a1: string, a2: string, b1: string, b2: string) {
    (StrLe(a1, b1) && a1 != b1) || (a1 == b1 && StrLe(a2, b2))
  }

  /** `OrderBy(k1).ThenBy(k2)` on two string keys. */
  function ByStringThen<T>(k1: T -> string, k2: T -> string): (T, T) -> bool {
    (x: T, y: T) => StrPairLe(k1(x), k2(x), k1(y), k2(y))
  }

  /** Ordering rows by one string key is a total preorder. */
  lemma StringKeyPreorder<T(!new)>(key: T -> string)
    ensures TotalPreorder(ByString(key))
  {
    forall a: T, b: T ensures StrLe(key(a), key(b)) || StrLe(key(b), key(a)) {
      StrLeTotal(key(a), key(b));
    }
    forall a: T, b: T, c: T | StrLe(key(a), key(b)) && StrLe(key(b), key(c))
      ensures StrLe(key(a), key(c)) {
      StrLeTrans(key(a), key(b), key(c));
    }
  }

  /** Ordering rows by one integer key, ascending or descending, is a total preorder. */
  lemma IntKeyPreorder<T(!new)>(key: T -> int)
    ensures TotalPreorder(Ascending(key))
    ensures TotalPreorder(Descending(key))
  {
  }

  lemma StringPairKeyPreorder<T(!new)>(k1: T -> string, k2: T -> string)
    ensures TotalPreorder(ByStringThen(k1, k2))
  {
    forall a: T, b: T ensures StrPairLe(k1(a), k2(a), k1(b), k2(b)) || StrPairLe(k1(b), k2(b), k1(a), k2(a)) {
      StrLeTotal(k1(a), k1(b));
      StrLeTotal(k2(a), k2(b));
    }
    forall a: T, b: T, c: T | StrPairLe(k1(a), k2(a), k1(b), k2(b)) && StrPairLe(k1(b), k2(b), k1(c), k2(c))
      ensures StrPairLe(k1(a), k2(a), k1(c), k2(c)) {
      if k1(a) == k1(b) && k1(b) == k1(c) {
        StrLeTrans(k2(a), k2(b), k2(c));
      } else {
        StrLeRefl(k1(a));
        StrLeRefl(k1(b));
        StrLeTrans(k1(a), k1(b), k1(c));
        if k1(a) == k1(c) {
          StrLeAntisym(k1(a), k1(b));
        }
      }
    }
  }

  // ---- keys ----

  /** `key` tells the rows apart: a primary key or a unique index. */
  predicate UniqueBy<T, K(==)>(xs: seq<T>, key: T -> K) {
    forall i, j :: 0 <= i < j < |xs| ==> key(xs[i]) != key(xs[j])
  }

  /** The rows whose key is `k`. */
  function KeyIs<T, K(==)>(key: T -> K, k: K): T -> bool {
    (x: T) => key(x) == k
  }

  /** The position of the first row whose key is `k`. */
  function IndexOfKey<T, K(==)>(xs: seq<T>, key: T -> K, k: K): (r: Option<nat>)
    ensures r.Some? ==> r.value < |xs| && key(xs[r.value]) == k
    ensures r.Some? ==> forall j :: 0 <= j < r.value ==> key(xs[j]) != k
    ensures r.None? <==> forall j :: 0 <= j < |xs| ==> key(xs[j]) != k
  {
    FirstIndex(xs, KeyIs(key, k))
  }

  /** Under a unique key, a row is found exactly where it is. */
  lemma IndexOfUniqueKey<T, K>(xs: seq<T>, key: T -> K, i: nat)
    requires UniqueBy(xs, key) && i < |xs|
    ensures IndexOfKey(xs, key, key(xs[i])) == Some(i)
  {
  }

  lemma {:induction false} UniqueFilter<T(!new), K>(xs: seq<T>, p: T -> bool, key: T -> K)
    requires UniqueBy(xs, key)
    ensures UniqueBy(Filter(xs, p), key)
  {
    if xs != [] {
      var rest := Filter(xs[1..], p);
      UniqueFilter(xs[1..], p, key);
      if p(xs[0]) {
        var r := [xs[0]] + rest;
        assert Filter(xs, p) == r;
        forall j | 0 < j < |r| ensures key(r[0]) != key(r[j]) {
          assert r[j] in xs[1..];
          var k :| 0 <= k < |xs[1..]| && xs[1..][k] == r[j];
          assert xs[k + 1] == r[j];
        }
      }
    }
  }

  lemma UniqueRemoveAt<T, K>(xs: seq<T>, i: nat, key: T -> K)
    requires UniqueBy(xs, key) && i < |xs|
    ensures UniqueBy(RemoveAt(xs, i), key)
  {
    var r := RemoveAt(xs, i);
    forall a, b | 0 <= a < b < |r| ensures key(r[a]) != key(r[b]) {
      var a' := if a < i then a else a + 1;
      var b' := if b < i then b else b + 1;
      assert r[a] == xs[a'] && r[b] == xs[b'];
    }
  }

  lemma UniqueAppend<T, K>(xs: seq<T>, x: T, key: T -> K)
    requires UniqueBy(xs, key)
    requires forall j :: 0 <= j < |xs| ==> key(xs[j]) != key(x)
    ensures UniqueBy(xs + [x], key)
  {
  }

  lemma UniqueUpdate<T, K>(xs: seq<T>, i: nat, y: T, key: T -> K)
    requires UniqueBy(xs, key) && i < |xs| && key(y) == key(xs[i])
    ensures UniqueBy(xs[i := y], key)
  {
  }
}
