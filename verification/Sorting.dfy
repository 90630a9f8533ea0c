// Stable sorting, lookups and filters on sequences, and the byte order of strings.
//
// The program sorts with the library's stable `sort_by_key`.  It appears here as the
// function `Sort`, together with the facts that pin it down.

module Sorting {

  ghost predicate TotalPreorder<T(!new)>(le: (T, T) -> bool) {
    && (forall a, b :: le(a, b) || le(b, a))
    && (forall a, b, c :: le(a, b) && le(b, c) ==> le(a, c))
  }

  ghost predicate SortedBy<T>(s: seq<T>, le: (T, T) -> bool) {
    forall i, j | 0 <= i < j < |s| :: le(s[i], s[j])
  }

  /** Puts x in front of the first element that does not have to precede it. */
  function Insert<T>(x: T, s: seq<T>, le: (T, T) -> bool): seq<T> {
    if s == [] then [x]
    else if le(x, s[0]) then [x] + s
    else [s[0]] + Insert(x, s[1..], le)
  }

  function Sort<T>(s: seq<T>, le: (T, T) -> bool): seq<T> {
    if s == [] then [] else Insert(s[0], Sort(s[1..], le), le)
  }

  lemma {:induction false} InsertMultiset<T>(x: T, s: seq<T>, le: (T, T) -> bool)
    ensures multiset(Insert(x, s, le)) == multiset([x]) + multiset(s)
  {
    if s != [] && !le(x, s[0]) {
      InsertMultiset(x, s[1..], le);
      assert s == [s[0]] + s[1..];
    }
  }

  /** Sorting permutes. */
  lemma {:induction false} SortMultiset<T>(s: seq<T>, le: (T, T) -> bool)
    ensures multiset(Sort(s, le)) == multiset(s)
    ensures |Sort(s, le)| == |s|
  {
    if s != [] {
      SortMultiset(s[1..], le);
      InsertMultiset(s[0], Sort(s[1..], le), le);
      assert s == [s[0]] + s[1..];
    }
    assert |multiset(Sort(s, le))| == |multiset(s)|;
  }

  lemma {:induction false} SortMembers<T>(s: seq<T>, le: (T, T) -> bool)
    ensures forall x :: x in Sort(s, le) <==> x in s
  {
    SortMultiset(s, le);
    forall x ensures x in Sort(s, le) <==> x in s {
      assert x in Sort(s, le) <==> x in multiset(Sort(s, le));
    }
  }

  lemma {:induction false} InsertSorted<T(!new)>(x: T, s: seq<T>, le: (T, T) -> bool)
    requires TotalPreorder(le) && SortedBy(s, le)
    ensures SortedBy(Insert(x, s, le), le)
  {
    if s != [] && !le(x, s[0]) {
      InsertSorted(x, s[1..], le);
      var rest := Insert(x, s[1..], le);
      InsertMultiset(x, s[1..], le);
      forall j | 0 <= j < |rest| ensures le(s[0], rest[j]) {
        assert rest[j] in multiset(rest);
        assert rest[j] == x || rest[j] in s[1..];
      }
    }
  }

  /** Sorting sorts. */
  lemma {:induction false} SortSorted<T(!new)>(s: seq<T>, le: (T, T) -> bool)
    requires TotalPreorder(le)
    ensures SortedBy(Sort(s, le), le)
  {
    if s == [] {
    } else {
      SortSorted(s[1..], le);
      InsertSorted(s[0], Sort(s[1..], le), le);
    }
  }

  /** Stability in its simplest form: a list already in order is not touched. */
  lemma {:induction false} SortOfSorted<T>(s: seq<T>, le: (T, T) -> bool)
    requires SortedBy(s, le)
    ensures Sort(s, le) == s
  {
    if s == [] {
    } else {
      SortOfSorted(s[1..], le);
      assert s == [s[0]] + s[1..];
    }
  }

  /** Elements that tie are equal. */
  ghost predicate TiesEqual<T>(s: seq<T>, le: (T, T) -> bool) {
    forall i, j | 0 <= i < |s| && 0 <= j < |s| && le(s[i], s[j]) && le(s[j], s[i]) :: s[i] == s[j]
  }

  lemma SortedHead<T(!new)>(a: seq<T>, b: seq<T>, le: (T, T) -> bool)
    requires SortedBy(a, le) && SortedBy(b, le) && TiesEqual(a, le)
    requires a != [] && b != [] && a[0] in b && b[0] in a
    ensures a[0] == b[0]
  {
    var i :| 0 <= i < |b| && b[i] == a[0];
    var j :| 0 <= j < |a| && a[j] == b[0];
    if i != 0 && j != 0 {
      assert le(a[0], a[j]) && le(b[0], b[i]);
    }
  }

  lemma MultisetTail<T>(s: seq<T>)
    requires s != []
    ensures multiset(s[1..]) == multiset(s) - multiset([s[0]])
  {
    assert s == [s[0]] + s[1..];
  }

  /** Two sorted arrangements of the same elements agree when ties are equal elements. */
  lemma {:induction false} SortedUnique<T(!new)>(a: seq<T>, b: seq<T>, le: (T, T) -> bool)
    requires SortedBy(a, le) && SortedBy(b, le) && TiesEqual(a, le)
    requires multiset(a) == multiset(b)
    ensures a == b
  {
    assert |multiset(a)| == |a| && |multiset(b)| == |b|;
    if a == [] {
    } else {
      assert a[0] in multiset(b) && b[0] in multiset(a);
      SortedHead(a, b, le);
      MultisetTail(a);
      MultisetTail(b);
      SortedUnique(a[1..], b[1..], le);
      assert a == [a[0]] + a[1..] && b == [b[0]] + b[1..];
    }
  }

  /** The head of the sorted list is the first element that nothing precedes. */
  lemma {:induction false} SortHead<T(!new)>(s: seq<T>, le: (T, T) -> bool) returns (i: nat)
    requires TotalPreorder(le) && s != []
    ensures Sort(s, le) != [] && i < |s| && s[i] == Sort(s, le)[0]
    ensures forall j | 0 <= j < |s| :: le(s[i], s[j])
    ensures forall j | 0 <= j < i :: !le(s[j], s[i])
  {
    SortMultiset(s, le);
    i := 0;
    if |s| > 1 {
      var k := SortHead(s[1..], le);
      if le(s[0], s[1..][k]) {
        forall j | 0 <= j < |s| ensures le(s[0], s[j]) {
          if j > 0 { assert le(s[1..][k], s[1..][j - 1]); }
        }
      } else {
        i := k + 1;
        forall j | 0 <= j < |s| ensures le(s[i], s[j]) {
          if j > 0 { assert le(s[1..][k], s[1..][j - 1]); }
        }
        forall j | 0 <= j < i ensures !le(s[j], s[i]) {
          if j > 0 { assert !le(s[1..][j - 1], s[1..][k]); }
        }
      }
    }
  }

  // ----- lists whose elements differ in a key -----

  ghost predicate DistinctBy<T, K>(s: seq<T>, f: T -> K) {
    forall i, j | 0 <= i < j < |s| :: f(s[i]) != f(s[j])
  }

  function Itself<T>(x: T): T {
    x
  }

  lemma DistinctAt<T, K>(s: seq<T>, f: T -> K, i: nat, j: nat)
    requires DistinctBy(s, f) && i < |s| && j < |s| && f(s[i]) == f(s[j])
    ensures i == j
  {
  }

  /** No element of s has the key of x. */
  ghost predicate NewKey<T, K>(x: T, s: seq<T>, f: T -> K) {
    forall y {:trigger y in s} | y in s :: f(x) != f(y)
  }

  lemma DistinctCons<T, K>(x: T, s: seq<T>, f: T -> K)
    ensures DistinctBy([x] + s, f) <==> DistinctBy(s, f) && NewKey(x, s, f)
  {
    var t := [x] + s;
    if DistinctBy(t, f) {
      forall i, j | 0 <= i < j < |s| ensures f(s[i]) != f(s[j]) {
        assert t[i + 1] == s[i] && t[j + 1] == s[j];
      }
      forall y | y in s ensures f(x) != f(y) {
        var j :| 0 <= j < |s| && s[j] == y;
        assert t[0] == x && t[j + 1] == y;
      }
    } else if DistinctBy(s, f) {
      assert forall j | 0 < j < |t| :: t[j] == s[j - 1] && s[j - 1] in s;
    }
  }

  lemma DistinctPush<T, K>(s: seq<T>, x: T, f: T -> K)
    ensures DistinctBy(s + [x], f) <==> DistinctBy(s, f) && NewKey(x, s, f)
  {
    var t := s + [x];
    if DistinctBy(t, f) {
      forall i, j | 0 <= i < j < |s| ensures f(s[i]) != f(s[j]) {
        assert t[i] == s[i] && t[j] == s[j];
      }
      forall y | y in s ensures f(x) != f(y) {
        var i :| 0 <= i < |s| && s[i] == y;
        assert t[i] == y && t[|s|] == x;
      }
    } else if DistinctBy(s, f) {
      assert forall i | 0 <= i < |s| :: t[i] == s[i] && s[i] in s;
    }
  }

  lemma {:induction false} InsertMembers<T>(x: T, s: seq<T>, le: (T, T) -> bool)
    ensures forall y :: y in Insert(x, s, le) <==> y == x || y in s
  {
    if s != [] && !le(x, s[0]) {
      InsertMembers(x, s[1..], le);
      assert s == [s[0]] + s[1..];
    }
  }

  lemma {:induction false} InsertDistinct<T, K>(x: T, s: seq<T>, le: (T, T) -> bool, f: T -> K)
    requires DistinctBy(s, f) && NewKey(x, s, f)
    ensures DistinctBy(Insert(x, s, le), f)
  {
    if s != [] && !le(x, s[0]) {
      assert s == [s[0]] + s[1..];
      DistinctCons(s[0], s[1..], f);
      assert NewKey(x, s[1..], f) by { assert forall y | y in s[1..] :: y in s; }
      InsertDistinct(x, s[1..], le, f);
      InsertMembers(x, s[1..], le);
      assert s[0] in s;
      assert NewKey(s[0], Insert(x, s[1..], le), f);
      DistinctCons(s[0], Insert(x, s[1..], le), f);
    } else {
      assert Insert(x, s, le) == [x] + s;
      DistinctCons(x, s, f);
    }
  }

  lemma {:induction false} SortDistinct<T, K>(s: seq<T>, le: (T, T) -> bool, f: T -> K)
    requires DistinctBy(s, f)
    ensures DistinctBy(Sort(s, le), f)
  {
    if s == [] {
    } else {
      assert s == [s[0]] + s[1..];
      DistinctCons(s[0], s[1..], f);
      SortDistinct(s[1..], le, f);
      SortMembers(s[1..], le);
      assert NewKey(s[0], Sort(s[1..], le), f);
      InsertDistinct(s[0], Sort(s[1..], le), le, f);
    }
  }

  /** Two sorted lists with the same elements, none of them twice, agree. */
  lemma {:induction false} SortedSameElements<T(!new)>(a: seq<T>, b: seq<T>, le: (T, T) -> bool)
    requires SortedBy(a, le) && SortedBy(b, le) && TiesEqual(a, le)
    requires DistinctBy(a, Itself) && DistinctBy(b, Itself)
    requires |a| == |b| && forall x :: x in a <==> x in b
    ensures a == b
  {
    if a == [] {
    } else {
      assert a[0] in b;
      assert b[0] in a;
      SortedHead(a, b, le);
      forall x ensures x in a[1..] <==> x in b[1..] {
        assert x in a <==> x == a[0] || x in a[1..];
        assert x in b <==> x == b[0] || x in b[1..];
      }
      SortedSameElements(a[1..], b[1..], le);
      assert a == [a[0]] + a[1..] && b == [b[0]] + b[1..];
    }
  }

  // ----- lookups and filters -----

  /** The position of the first element with that key, or |s|. */
  function Position<T, K(==)>(s: seq<T>, key: T -> K, wanted: K): (i: nat)
    ensures i <= |s| && (i < |s| ==> key(s[i]) == wanted)
    ensures forall j | 0 <= j < i :: key(s[j]) != wanted
  {
    if s == [] || key(s[0]) == wanted then 0 else 1 + Position(s[1..], key, wanted)
  }

  /** `retain` and `filter`. */
  function Filter<T>(s: seq<T>, p: T -> bool): seq<T> {
    if s == [] then []
    else Filter(s[..|s| - 1], p) + (if p(s[|s| - 1]) then [s[|s| - 1]] else [])
  }

  lemma {:induction false} FilterMembers<T>(s: seq<T>, p: T -> bool)
    ensures forall x :: x in Filter(s, p) <==> x in s && p(x)
    ensures |Filter(s, p)| <= |s|
  {
    if s == [] {
    } else {
      FilterMembers(s[..|s| - 1], p);
      assert s == s[..|s| - 1] + [s[|s| - 1]];
    }
  }

  /** part is s at the positions listed in `at`, which increase. */
  ghost predicate IsSubsequence<T>(part: seq<T>, s: seq<T>, at: seq<nat>) {
    && |part| == |at|
    && (forall k | 0 <= k < |at| :: at[k] < |s| && part[k] == s[at[k]])
    && (forall j, k | 0 <= j < k < |at| :: at[j] < at[k])
  }

  lemma SubsequencePush<T>(part: seq<T>, front: seq<T>, last: T, at: seq<nat>)
    requires IsSubsequence(part, front, at)
    ensures IsSubsequence(part, front + [last], at)
    ensures IsSubsequence(part + [last], front + [last], at + [|front|])
  {
  }

  /** at lists exactly the positions in s where p holds. */
  ghost predicate ListsExactly<T>(at: seq<nat>, s: seq<T>, p: T -> bool) {
    forall i: nat :: i in at <==> i < |s| && p(s[i])
  }

  lemma ListsPush<T>(at: seq<nat>, front: seq<T>, last: T, p: T -> bool)
    requires ListsExactly(at, front, p)
    ensures ListsExactly(if p(last) then at + [|front|] else at, front + [last], p)
  {
  }

  lemma {:induction false} FilterIsSubsequence<T>(s: seq<T>, p: T -> bool) returns (at: seq<nat>)
    ensures IsSubsequence(Filter(s, p), s, at) && ListsExactly(at, s, p)
  {
    at := [];
    if s == [] {
    } else {
      var front, last := s[..|s| - 1], s[|s| - 1];
      at := FilterIsSubsequence(front, p);
      assert s == front + [last];
      SubsequencePush(Filter(front, p), front, last, at);
      ListsPush(at, front, last, p);
      if p(last) {
        at := at + [|front|];
      }
    }
  }

  lemma {:induction false} FilterDistinct<T, K>(s: seq<T>, p: T -> bool, f: T -> K)
    requires DistinctBy(s, f)
    ensures DistinctBy(Filter(s, p), f)
  {
    if s == [] {
    } else {
      var front, last := s[..|s| - 1], s[|s| - 1];
      assert s == front + [last];
      DistinctPush(front, last, f);
      FilterDistinct(front, p, f);
      FilterMembers(front, p);
      assert NewKey(last, Filter(front, p), f);
      DistinctPush(Filter(front, p), last, f);
      assert Filter(s, p) == if p(last) then Filter(front, p) + [last] else Filter(front, p);
    }
  }

  lemma {:induction false} FilterSame<T>(s: seq<T>, p: T -> bool, q: T -> bool)
    requires forall x | x in s :: p(x) == q(x)
    ensures Filter(s, p) == Filter(s, q)
  {
    if s == [] {
    } else {
      var front, last := s[..|s| - 1], s[|s| - 1];
      assert s == front + [last] && last in s;
      FilterSame(front, p, q);
    }
  }

  /** Filtering twice keeps what passes both tests. */
  lemma {:induction false} FilterFilter<T>(s: seq<T>, p: T -> bool, q: T -> bool, both: T -> bool)
    requires forall x :: both(x) <==> p(x) && q(x)
    ensures Filter(Filter(s, p), q) == Filter(s, both)
  {
    if s == [] {
    } else {
      var front, last := s[..|s| - 1], s[|s| - 1];
      FilterFilter(front, p, q, both);
      var kept := Filter(front, p);
      assert (kept + [last])[..|kept|] == kept;
      assert Filter(s, p) == if p(last) then kept + [last] else kept;
      assert both(last) <==> p(last) && q(last);
    }
  }

  lemma {:induction false} FilterNone<T>(s: seq<T>, p: T -> bool)
    requires forall x | x in s :: !p(x)
    ensures Filter(s, p) == []
  {
    if s == [] {
    } else {
      var front, last := s[..|s| - 1], s[|s| - 1];
      assert s == front + [last] && last in s;
      FilterNone(front, p);
    }
  }

  lemma FirstTwoDiffer<T, K>(s: seq<T>, f: T -> K)
    requires DistinctBy(s, f)
    ensures |s| >= 2 ==> f(s[0]) != f(s[1])
  {
  }

  lemma {:induction false} FilterAll<T>(s: seq<T>, p: T -> bool)
    requires forall x | x in s :: p(x)
    ensures Filter(s, p) == s
  {
    if s == [] {
    } else {
      var front, last := s[..|s| - 1], s[|s| - 1];
      assert s == front + [last] && last in s;
      FilterAll(front, p);
    }
  }

  lemma {:induction false} FilterKeepsFewer<T>(s: seq<T>, p: T -> bool)
    ensures |Filter(s, p)| == |s| <==> forall x | x in s :: p(x)
    ensures |Filter(s, p)| == |s| ==> Filter(s, p) == s
  {
    if s == [] {
    } else {
      var front, last := s[..|s| - 1], s[|s| - 1];
      assert s == front + [last] && last in s;
      FilterKeepsFewer(front, p);
      FilterMembers(front, p);
    }
  }

  lemma {:induction false} FilterAppend<T>(a: seq<T>, b: seq<T>, p: T -> bool)
    ensures Filter(a + b, p) == Filter(a, p) + Filter(b, p)
    decreases |b|
  {
    if b == [] {
      assert a + b == a;
    } else {
      FilterAppend(a, b[..|b| - 1], p);
      assert (a + b)[..|a + b| - 1] == a + b[..|b| - 1];
    }
  }

  lemma FilterCons<T>(x: T, s: seq<T>, p: T -> bool)
    ensures Filter([x] + s, p) == if p(x) then [x] + Filter(s, p) else Filter(s, p)
  {
    assert [x][..0] == [];
    assert Filter([x], p) == if p(x) then [x] else [];
    FilterAppend([x], s, p);
  }

  lemma {:induction false} FilterInsert<T(!new)>(x: T, s: seq<T>, le: (T, T) -> bool, p: T -> bool)
    requires TotalPreorder(le) && SortedBy(s, le)
    ensures Filter(Insert(x, s, le), p) == if p(x) then Insert(x, Filter(s, p), le) else Filter(s, p)
  {
    if s == [] {
      FilterCons(x, s, p);
      assert [x] + s == [x];
    } else if le(x, s[0]) {
      FilterCons(x, s, p);
      FilterMembers(s, p);
      var kept := Filter(s, p);
      if kept != [] {
        assert kept[0] in s;
        var j :| 0 <= j < |s| && s[j] == kept[0];
        assert le(s[0], s[j]) by { assert le(s[0], s[0]); }
      }
    } else {
      FilterCons(s[0], Insert(x, s[1..], le), p);
      FilterInsert(x, s[1..], le, p);
      assert s == [s[0]] + s[1..];
      FilterCons(s[0], s[1..], p);
      assert ([s[0]] + Filter(s[1..], p))[1..] == Filter(s[1..], p);
    }
  }

  lemma SortCons<T>(x: T, s: seq<T>, le: (T, T) -> bool)
    ensures Sort([x] + s, le) == Insert(x, Sort(s, le), le)
  {
    assert ([x] + s)[1..] == s;
  }

  /** Stable sorting and filtering commute. */
  lemma {:induction false} FilterSort<T(!new)>(s: seq<T>, le: (T, T) -> bool, p: T -> bool)
    requires TotalPreorder(le)
    ensures Filter(Sort(s, le), p) == Sort(Filter(s, p), le)
  {
    if s == [] {
    } else {
      var x, t := s[0], s[1..];
      assert s == [x] + t;
      FilterSort(t, le, p);
      SortSorted(t, le);
      FilterInsert(x, Sort(t, le), le, p);
      FilterCons(x, t, p);
      SortCons(x, Filter(t, p), le);
    }
  }

  // ----- stability -----

  /** Elements that all tie keep their order. */
  lemma FilterTied<T(!new)>(s: seq<T>, le: (T, T) -> bool, p: T -> bool)
    requires TotalPreorder(le) && forall x, y :: p(x) && p(y) ==> le(x, y)
    ensures Filter(Sort(s, le), p) == Filter(s, p)
  {
    var part := Filter(s, p);
    FilterSort(s, le, p);
    FilterMembers(s, p);
    forall i, j | 0 <= i < j < |part| ensures le(part[i], part[j]) {
      assert part[i] in part && part[j] in part;
    }
    SortOfSorted(part, le);
  }

  /** The elements that tie with x. */
  function Ties<T>(x: T, le: (T, T) -> bool): T -> bool {
    y => le(x, y) && le(y, x)
  }

  /** out is s sorted, with ties in the order of s. */
  ghost predicate IsStableSort<T(!new)>(out: seq<T>, s: seq<T>, le: (T, T) -> bool) {
    && SortedBy(out, le)
    && multiset(out) == multiset(s)
    && forall x :: Filter(out, Ties(x, le)) == Filter(s, Ties(x, le))
  }

  lemma SortIsStable<T(!new)>(s: seq<T>, le: (T, T) -> bool)
    requires TotalPreorder(le)
    ensures IsStableSort(Sort(s, le), s, le)
  {
    SortSorted(s, le);
    SortMultiset(s, le);
    forall x ensures Filter(Sort(s, le), Ties(x, le)) == Filter(s, Ties(x, le)) {
      FilterSort(s, le, Ties(x, le));
      FilterMembers(s, Ties(x, le));
      TiedIsSorted(Filter(s, Ties(x, le)), x, le);
      SortOfSorted(Filter(s, Ties(x, le)), le);
    }
  }

  lemma TiedIsSorted<T(!new)>(s: seq<T>, x: T, le: (T, T) -> bool)
    requires TotalPreorder(le) && forall y | y in s :: Ties(x, le)(y)
    ensures SortedBy(s, le)
  {
    forall i, j | 0 <= i < j < |s| ensures le(s[i], s[j]) {
      assert Ties(x, le)(s[i]) && Ties(x, le)(s[j]);
    }
  }

  // ----- counting keys -----

  ghost function KeysOf<T, K>(s: seq<T>, f: T -> K): set<K> {
    set x | x in s :: f(x)
  }

  lemma {:induction false} KeysCount<T, K>(s: seq<T>, f: T -> K)
    ensures |KeysOf(s, f)| <= |s|
    ensures |KeysOf(s, f)| == |s| <==> DistinctBy(s, f)
  {
    if s == [] {
    } else {
      var front, last := s[..|s| - 1], s[|s| - 1];
      KeysCount(front, f);
      assert s == front + [last];
      assert KeysOf(s, f) == KeysOf(front, f) + {f(last)};
      DistinctPush(front, last, f);
      assert NewKey(last, front, f) <==> f(last) !in KeysOf(front, f);
    }
  }

  /** Sorting neither adds nor removes repeated keys. */
  lemma SortDistinctExactly<T, K>(s: seq<T>, le: (T, T) -> bool, f: T -> K)
    ensures DistinctBy(Sort(s, le), f) <==> DistinctBy(s, f)
  {
    SortMembers(s, le);
    SortMultiset(s, le);
    assert KeysOf(Sort(s, le), f) == KeysOf(s, f);
    KeysCount(s, f);
    KeysCount(Sort(s, le), f);
  }

  // ----- strings in byte order -----

  predicate StringLe(a: string, b: string) {
    a == [] || (b != [] && (a[0] < b[0] || (a[0] == b[0] && StringLe(a[1..], b[1..]))))
  }

  lemma {:induction false} StringLeTotal(a: string, b: string)
    ensures StringLe(a, b) || StringLe(b, a)
    ensures StringLe(a, b) && StringLe(b, a) ==> a == b
  {
    if a != [] && b != [] && a[0] == b[0] {
      StringLeTotal(a[1..], b[1..]);
      assert a == [a[0]] + a[1..] && b == [b[0]] + b[1..];
    }
  }

  lemma {:induction false} StringLeTransitive(a: string, b: string, c: string)
    requires StringLe(a, b) && StringLe(b, c)
    ensures StringLe(a, c)
  {
    if a != [] && a[0] == b[0] && b[0] == c[0] {
      StringLeTransitive(a[1..], b[1..], c[1..]);
    }
  }

  /** The order of the first differing character; a prefix comes before its extensions. */
  lemma {:induction false} StringLeExactly(a: string, b: string)
    ensures StringLe(a, b)
            <==> a <= b || exists k :: 0 <= k < |a| && k < |b| && a[..k] == b[..k] && a[k] < b[k]
  {
    if a == [] || b == [] {
    } else if a[0] != b[0] {
      assert a[..0] == b[..0];
    } else {
      var x, y := a[1..], b[1..];
      StringLeExactly(x, y);
      assert a == [a[0]] + x && b == [a[0]] + y;
      assert a <= b <==> x <= y;
      if k :| 0 <= k < |x| && k < |y| && x[..k] == y[..k] && x[k] < y[k] {
        assert a[..k + 1] == [a[0]] + x[..k] && b[..k + 1] == [a[0]] + y[..k];
        assert a[k + 1] < b[k + 1];
      }
      if k :| 0 <= k < |a| && k < |b| && a[..k] == b[..k] && a[k] < b[k] {
        assert x[..k - 1] == a[..k][1..] && y[..k - 1] == b[..k][1..];
        assert x[k - 1] < y[k - 1];
      }
    }
  }

  lemma StringLePreorder()
    ensures TotalPreorder(StringLe)
  {
    forall a, b ensures StringLe(a, b) || StringLe(b, a) { StringLeTotal(a, b); }
    forall a, b, c | StringLe(a, b) && StringLe(b, c) ensures StringLe(a, c) {
      StringLeTransitive(a, b, c);
    }
  }
}
