/** Sequence vocabulary shared by the document model: filtering, sorting by a
    lexicographic key, and indexing a list by the identifiers of its elements. */
module Lists {

  datatype Option<+T> = None | Some(value: T)

  /** The elements of `s` that satisfy `keep`, in order. */
  function Filter<T>(s: seq<T>, keep: T -> bool): (r: seq<T>)
    ensures forall x :: x in r ==> x in s && keep(x)
    ensures forall x :: x in s && keep(x) ==> x in r
    ensures |r| <= |s|
  {
    if s == [] then [] else (if keep(s[0]) then [s[0]] else []) + Filter(s[1..], keep)
  }

  function Map<T, U>(s: seq<T>, f: T -> U): (r: seq<U>)
    ensures |r| == |s|
    ensures forall i :: 0 <= i < |s| ==> r[i] == f(s[i])
  {
    if s == [] then [] else [f(s[0])] + Map(s[1..], f)
  }

  lemma Associative<T>(a: seq<T>, b: seq<T>, c: seq<T>)
    ensures (a + b) + c == a + (b + c)
  {
  }

  lemma {:induction false} FilterConcat<T>(a: seq<T>, b: seq<T>, keep: T -> bool)
    ensures Filter(a + b, keep) == Filter(a, keep) + Filter(b, keep)
  {
    if a == [] {
      assert a + b == b;
    } else {
      assert (a + b)[1..] == a[1..] + b;
      FilterConcat(a[1..], b, keep);
    }
  }

  lemma FilterStep<T>(s: seq<T>, k: nat, keep: T -> bool)
    requires k < |s|
    ensures Filter(s[..k + 1], keep) == Filter(s[..k], keep) + (if keep(s[k]) then [s[k]] else [])
  {
    assert s[..k + 1] == s[..k] + [s[k]];
    FilterConcat(s[..k], [s[k]], keep);
  }

  // ----- choosing by position -----

  /** The positions below `n` with the property, in order. */
  ghost predicate Chosen(at: seq<nat>, n: nat, p: nat -> bool) {
    && (forall i, j :: 0 <= i < j < |at| ==> at[i] < at[j])
    && (forall j :: 0 <= j < |at| ==> at[j] < n && p(at[j]))
    && (forall i :: 0 <= i < n && p(i) ==> i in at)
  }

  lemma {:induction false} ChosenStep(at: seq<nat>, n: nat, p: nat -> bool)
    requires Chosen(at, n, p)
    ensures Chosen(if p(n) then at + [n] else at, n + 1, p)
  {
    if p(n) {
      var more := at + [n];
      assert more[|at|] == n;
      forall i | 0 <= i < n + 1 && p(i) ensures i in more {
        assert i in at || i == n;
      }
    }
  }

  /** The elements of `s` at those positions. */
  function Picked<T>(s: seq<T>, at: seq<nat>): (r: seq<T>)
    requires forall j :: 0 <= j < |at| ==> at[j] < |s|
    ensures |r| == |at| && forall j :: 0 <= j < |at| ==> r[j] == s[at[j]]
  {
    seq(|at|, j requires 0 <= j < |at| => s[at[j]])
  }

  function Keeps<T>(s: seq<T>, keep: T -> bool): nat -> bool {
    (i: nat) => i < |s| && keep(s[i])
  }

  lemma ChosenBelow<T>(at: seq<nat>, n: nat, p: nat -> bool, s: seq<T>)
    requires Chosen(at, n, p) && n <= |s|
    ensures forall j :: 0 <= j < |at| ==> at[j] < |s|
  {
  }

  lemma PickedStep<T>(s: seq<T>, p: nat -> bool, n: nat, at: seq<nat>, before: seq<T>, after: seq<T>) returns (more: seq<nat>)
    requires n < |s| && Chosen(at, n, p)
    requires (forall j :: 0 <= j < |at| ==> at[j] < |s|) && before == Picked(s, at)
    requires after == before + (if p(n) then [s[n]] else [])
    ensures Chosen(more, n + 1, p)
    ensures (forall j :: 0 <= j < |more| ==> more[j] < |s|) && after == Picked(s, more)
  {
    more := if p(n) then at + [n] else at;
    ChosenStep(at, n, p);
    ChosenBelow(more, n + 1, p, s);
  }

  /** A filter takes its elements in order, from exactly the positions that hold one to keep. */
  lemma {:induction false} FilterPicks<T>(s: seq<T>, keep: T -> bool, n: nat) returns (at: seq<nat>)
    requires n <= |s|
    ensures Chosen(at, n, Keeps(s, keep))
    ensures forall j :: 0 <= j < |at| ==> at[j] < |s|
    ensures Filter(s[..n], keep) == Picked(s, at)
  {
    if n == 0 {
      at := [];
    } else {
      at := FilterPicks(s, keep, n - 1);
      FilterStep(s, n - 1, keep);
      at := PickedStep(s, Keeps(s, keep), n - 1, at, Filter(s[..n - 1], keep), Filter(s[..n], keep));
    }
  }

  /** No two positions of `s` carry the same identifier. */
  ghost predicate Unique<T>(s: seq<T>, id: T -> nat) {
    forall i, j :: 0 <= i < j < |s| ==> id(s[i]) != id(s[j])
  }

  lemma {:induction false} FilterUnique<T>(s: seq<T>, id: T -> nat, keep: T -> bool)
    requires Unique(s, id)
    ensures Unique(Filter(s, keep), id)
  {
    if s != [] {
      FilterUnique(s[1..], id, keep);
      var r := Filter(s[1..], keep);
      forall x | x in r ensures id(x) != id(s[0]) {
        assert x in s[1..];
      }
    }
  }

  /** Unique identifiers are a property of the elements, not of their order. */
  lemma UniquePermutation<T>(a: seq<T>, b: seq<T>, id: T -> nat)
    requires Unique(a, id) && multiset(a) == multiset(b)
    ensures Unique(b, id)
  {
    forall i, j | 0 <= i < j < |b| ensures id(b[i]) != id(b[j]) {
      if id(b[i]) == id(b[j]) {
        assert b[i] in multiset(a) && b[j] in multiset(a);
        var p :| 0 <= p < |a| && a[p] == b[i];
        var q :| 0 <= q < |a| && a[q] == b[j];
        assert p == q;
        MultiplicityOfPair(b, i, j);
        UniqueMultiplicity(a, id, a[p]);
      }
    }
  }

  lemma MultiplicityOfPair<T>(s: seq<T>, i: nat, j: nat)
    requires i < j < |s| && s[i] == s[j]
    ensures multiset(s)[s[i]] >= 2
  {
    assert s == s[..j] + s[j..];
    assert s[..j][i] in s[..j] && s[j..][0] in s[j..];
    assert multiset(s) == multiset(s[..j]) + multiset(s[j..]);
  }

  lemma {:induction false} UniqueMultiplicity<T>(s: seq<T>, id: T -> nat, x: T)
    requires Unique(s, id)
    ensures multiset(s)[x] <= 1
  {
    if s != [] {
      UniqueMultiplicity(s[1..], id, x);
      assert s == [s[0]] + s[1..];
      if s[0] == x {
        assert x !in s[1..];
      }
    }
  }

  lemma {:induction false} FilterMultiplicity<T>(s: seq<T>, keep: T -> bool, x: T)
    ensures multiset(Filter(s, keep))[x] == if keep(x) then multiset(s)[x] else 0
  {
    if s != [] {
      FilterMultiplicity(s[1..], keep, x);
      assert s == [s[0]] + s[1..];
    }
  }

  lemma SameCounts<T>(f: multiset<T>, g: multiset<T>)
    requires forall x: T :: f[x] == g[x]
    ensures f == g
  {
  }

  lemma FilterPermutation<T>(a: seq<T>, b: seq<T>, keep: T -> bool)
    requires multiset(a) == multiset(b)
    ensures multiset(Filter(a, keep)) == multiset(Filter(b, keep))
  {
    forall x: T ensures multiset(Filter(a, keep))[x] == multiset(Filter(b, keep))[x] {
      FilterMultiplicity(a, keep, x);
      FilterMultiplicity(b, keep, x);
    }
    SameCounts(multiset(Filter(a, keep)), multiset(Filter(b, keep)));
  }

  lemma SameMultisetMembers<T>(a: seq<T>, b: seq<T>)
    requires multiset(a) == multiset(b)
    ensures forall x :: x in a ==> x in b
    ensures forall x :: x in b ==> x in a
  {
    forall x | x in a ensures x in b {
      assert x in multiset(b);
    }
    forall x | x in b ensures x in a {
      assert x in multiset(a);
    }
  }

  lemma SameMembersPermutation<T>(a: seq<T>, b: seq<T>, id: T -> nat)
    requires Unique(a, id) && Unique(b, id)
    requires (forall x :: x in a ==> x in b) && (forall x :: x in b ==> x in a)
    ensures multiset(a) == multiset(b)
  {
    forall x: T | x in multiset(a) || x in multiset(b) ensures multiset(a)[x] == multiset(b)[x] {
      UniqueMultiplicity(a, id, x);
      UniqueMultiplicity(b, id, x);
      assert x in a && x in b;
    }
  }

  lemma {:induction false} MapIdentity<T>(s: seq<T>, f: T -> T)
    requires forall i :: 0 <= i < |s| ==> f(s[i]) == s[i]
    ensures Map(s, f) == s
  {
  }

  // ----- sorting -----

  /** The sort keys of the document engine: compared left to right. */
  datatype Key = Key(first: int, second: int, third: int)

  predicate Less(a: Key, b: Key) {
    a.first < b.first ||
    (a.first == b.first && (a.second < b.second || (a.second == b.second && a.third < b.third)))
  }

  ghost predicate Sorted<T>(s: seq<T>, key: T -> Key) {
    forall i, j :: 0 <= i < j < |s| ==> !Less(key(s[j]), key(s[i]))
  }

  /** Strictly sorted: no two elements share a key. */
  ghost predicate Increasing<T>(s: seq<T>, key: T -> Key) {
    forall i, j :: 0 <= i < j < |s| ==> Less(key(s[i]), key(s[j]))
  }

  function Insert<T>(x: T, s: seq<T>, key: T -> Key): (r: seq<T>)
    ensures multiset(r) == multiset{x} + multiset(s)
  {
    if s == [] || !Less(key(s[0]), key(x)) then [x] + s
    else
      assert s == [s[0]] + s[1..];
      [s[0]] + Insert(x, s[1..], key)
  }

  lemma SortedCons<T>(x: T, s: seq<T>, key: T -> Key)
    requires Sorted(s, key)
    requires forall y :: y in s ==> !Less(key(y), key(x))
    ensures Sorted([x] + s, key)
  {
  }

  lemma {:induction false} InsertSorted<T>(x: T, s: seq<T>, key: T -> Key)
    requires Sorted(s, key)
    ensures Sorted(Insert(x, s, key), key)
  {
    if s == [] || !Less(key(s[0]), key(x)) {
      forall y | y in s ensures !Less(key(y), key(x)) {
        var i :| 0 <= i < |s| && s[i] == y;
      }
      SortedCons(x, s, key);
    } else {
      InsertSorted(x, s[1..], key);
      var r := Insert(x, s[1..], key);
      forall y | y in r ensures !Less(key(y), key(s[0])) {
        assert y in multiset(r);
        if y != x {
          assert y in s[1..];
        }
      }
      SortedCons(s[0], r, key);
    }
  }

  /** A stable sort: equal keys keep their order. */
  function SortBy<T>(s: seq<T>, key: T -> Key): (r: seq<T>)
    ensures multiset(r) == multiset(s)
    ensures Sorted(r, key)
  {
    if s == [] then [] else
      assert s == [s[0]] + s[1..];
      InsertSorted(s[0], SortBy(s[1..], key), key);
      Insert(s[0], SortBy(s[1..], key), key)
  }

  lemma SortElements<T>(s: seq<T>, key: T -> Key, x: T)
    ensures x in SortBy(s, key) <==> x in s
  {
    assert x in SortBy(s, key) <==> x in multiset(SortBy(s, key));
    assert x in s <==> x in multiset(s);
  }

  lemma {:induction false} SortOfSorted<T>(s: seq<T>, key: T -> Key)
    requires Sorted(s, key)
    ensures SortBy(s, key) == s
  {
    if s != [] {
      SortOfSorted(s[1..], key);
      assert SortBy(s, key) == Insert(s[0], s[1..], key);
      assert |s| > 1 ==> !Less(key(s[1]), key(s[0]));
    }
  }

  /** Two sorted listings of the same elements are equal when keys are distinct. */
  lemma {:induction false} SortedIsUnique<T>(a: seq<T>, b: seq<T>, key: T -> Key)
    requires multiset(a) == multiset(b)
    requires Increasing(a, key) && Sorted(b, key)
    ensures a == b
  {
    assert |multiset(a)| == |a| && |multiset(b)| == |b|;
    if a != [] {
      SmallestFirst(a, b, key);
      assert a == [a[0]] + a[1..] && b == [b[0]] + b[1..];
      assert multiset(a[1..]) == multiset(a) - multiset{a[0]} == multiset(b[1..]);
      SortedIsUnique(a[1..], b[1..], key);
    }
  }

  lemma SmallestFirst<T>(a: seq<T>, b: seq<T>, key: T -> Key)
    requires multiset(a) == multiset(b) && a != [] && b != []
    requires Increasing(a, key) && Sorted(b, key)
    ensures a[0] == b[0]
  {
    assert a[0] in multiset(b) && b[0] in multiset(a);
    var p :| 0 <= p < |a| && a[p] == b[0];
    var q :| 0 <= q < |b| && b[q] == a[0];
  }

  lemma SortedDistinctIncreasing<T>(s: seq<T>, key: T -> Key, id: T -> nat)
    requires Sorted(s, key) && Unique(s, id)
    requires forall x :: key(x).third == id(x)
    ensures Increasing(s, key)
  {
  }

  // ----- indexing -----

  /** The map from identifier to value that a loop over `s` leaves behind. */
  function Index<T, V>(s: seq<T>, id: T -> nat, val: T -> V): map<nat, V> {
    if s == [] then map[] else Index(s[..|s| - 1], id, val)[id(s[|s| - 1]) := val(s[|s| - 1])]
  }

  lemma {:induction false} IndexHas<T, V>(s: seq<T>, id: T -> nat, val: T -> V, i: nat)
    requires i < |s|
    ensures id(s[i]) in Index(s, id, val)
    ensures Unique(s, id) ==> Index(s, id, val)[id(s[i])] == val(s[i])
  {
    if i < |s| - 1 {
      IndexHas(s[..|s| - 1], id, val, i);
    }
  }

  lemma {:induction false} IndexKey<T, V>(s: seq<T>, id: T -> nat, val: T -> V, k: nat)
    requires k in Index(s, id, val)
    ensures exists i :: 0 <= i < |s| && id(s[i]) == k
  {
    var last := |s| - 1;
    if id(s[last]) != k {
      IndexKey(s[..last], id, val, k);
      var i :| 0 <= i < last && id(s[..last][i]) == k;
      assert id(s[i]) == k;
    }
  }

  /** `m` maps exactly the identifiers of `s`, each to its element's value. */
  ghost predicate Indexes<T, V>(s: seq<T>, id: T -> nat, val: T -> V, m: map<nat, V>) {
    && (forall i :: 0 <= i < |s| ==> id(s[i]) in m && m[id(s[i])] == val(s[i]))
    && (forall k :: k in m ==> exists i :: 0 <= i < |s| && id(s[i]) == k)
  }

  lemma IndexIndexes<T, V>(s: seq<T>, id: T -> nat, val: T -> V)
    requires Unique(s, id)
    ensures Indexes(s, id, val, Index(s, id, val))
  {
    forall i | 0 <= i < |s| ensures id(s[i]) in Index(s, id, val) && Index(s, id, val)[id(s[i])] == val(s[i]) {
      IndexHas(s, id, val, i);
    }
    forall k | k in Index(s, id, val) ensures exists i :: 0 <= i < |s| && id(s[i]) == k {
      IndexKey(s, id, val, k);
    }
  }

  lemma IndexIsUnique<T, V>(s: seq<T>, id: T -> nat, val: T -> V, m: map<nat, V>)
    requires Unique(s, id) && Indexes(s, id, val, m)
    ensures Index(s, id, val) == m
  {
    IndexIndexes(s, id, val);
    var n := Index(s, id, val);
    assert n.Keys == m.Keys;
    forall k | k in m ensures n[k] == m[k] {
      var i :| 0 <= i < |s| && id(s[i]) == k;
    }
  }

  lemma IndexUpdate<T, V>(s: seq<T>, id: T -> nat, val: T -> V, i: nat, x: T)
    requires Unique(s, id) && i < |s| && id(x) == id(s[i])
    ensures Unique(s[i := x], id)
    ensures Index(s[i := x], id, val) == Index(s, id, val)[id(x) := val(x)]
  {
    IndexIndexes(s, id, val);
    var t := s[i := x];
    var m := Index(s, id, val)[id(x) := val(x)];
    forall k | k in m ensures exists j :: 0 <= j < |t| && id(t[j]) == k {
      var j :| 0 <= j < |s| && id(s[j]) == k;
      assert id(t[j]) == k;
    }
    IndexIsUnique(t, id, val, m);
  }

  lemma IndexOne<T, V>(x: T, id: T -> nat, val: T -> V)
    ensures Index([x], id, val) == map[id(x) := val(x)]
  {
    assert [x][..0] == [];
    assert Index([x], id, val) == Index([], id, val)[id(x) := val(x)];
  }

  lemma IndexAppend<T, V>(s: seq<T>, id: T -> nat, val: T -> V, x: T)
    requires Unique(s, id) && forall i :: 0 <= i < |s| ==> id(s[i]) != id(x)
    ensures Unique(s + [x], id)
    ensures Index(s + [x], id, val) == Index(s, id, val)[id(x) := val(x)]
  {
    assert (s + [x])[..|s|] == s;
  }

  lemma {:induction false} IndexPointwise<T, V>(a: seq<T>, b: seq<T>, id: T -> nat, val: T -> V)
    requires |a| == |b| && forall i :: 0 <= i < |a| ==> id(a[i]) == id(b[i]) && val(a[i]) == val(b[i])
    ensures Index(a, id, val) == Index(b, id, val)
  {
    if a != [] {
      IndexPointwise(a[..|a| - 1], b[..|b| - 1], id, val);
    }
  }

  /** The index of a listing depends only on its elements. */
  lemma IndexSameElements<T, V>(a: seq<T>, b: seq<T>, id: T -> nat, val: T -> V)
    requires Unique(a, id) && Unique(b, id)
    requires forall x :: x in a <==> x in b
    ensures Index(a, id, val) == Index(b, id, val)
  {
    IndexIndexes(b, id, val);
    var m := Index(b, id, val);
    forall i | 0 <= i < |a| ensures id(a[i]) in m && m[id(a[i])] == val(a[i]) {
      assert a[i] in b;
    }
    forall k | k in m ensures exists i :: 0 <= i < |a| && id(a[i]) == k {
      var j :| 0 <= j < |b| && id(b[j]) == k;
      assert b[j] in a;
    }
    IndexIsUnique(a, id, val, m);
  }

  /** Dropping elements drops exactly their identifiers. */
  lemma IndexFilter<T, V>(s: seq<T>, id: T -> nat, val: T -> V, gone: set<nat>, keep: T -> bool)
    requires Unique(s, id)
    requires forall x :: keep(x) <==> id(x) !in gone
    ensures Unique(Filter(s, keep), id)
    ensures Index(Filter(s, keep), id, val) == Index(s, id, val) - gone
  {
    FilterUnique(s, id, keep);
    IndexIndexes(s, id, val);
    var t := Filter(s, keep);
    var m := Index(s, id, val) - gone;
    forall i | 0 <= i < |t| ensures id(t[i]) in m && m[id(t[i])] == val(t[i]) {
      assert t[i] in t;
      assert t[i] in s;
    }
    forall k | k in m ensures exists i :: 0 <= i < |t| && id(t[i]) == k {
      var j :| 0 <= j < |s| && id(s[j]) == k;
      assert s[j] in t;
    }
    IndexIsUnique(t, id, val, m);
  }

  // ----- searching -----

  /** The first position whose identifier is `k`, or |s| when there is none. */
  function Find<T>(s: seq<T>, id: T -> nat, k: nat): (i: nat)
    ensures i <= |s|
    ensures i < |s| ==> id(s[i]) == k
    ensures forall j :: 0 <= j < i ==> id(s[j]) != k
  {
    if s == [] then 0
    else if id(s[0]) == k then 0
    else
      var i := Find(s[1..], id, k);
      assert forall j :: 1 <= j < i + 1 ==> s[j] == s[1..][j - 1];
      i + 1
  }

  lemma {:induction false} FindSameIds<T>(a: seq<T>, b: seq<T>, id: T -> nat, k: nat)
    requires |a| == |b| && forall i :: 0 <= i < |a| ==> id(a[i]) == id(b[i])
    ensures Find(a, id, k) == Find(b, id, k)
  {
    var f, g := Find(a, id, k), Find(b, id, k);
    assert f < |a| ==> id(b[f]) == k;
    assert g < |b| ==> id(a[g]) == k;
  }

  lemma FindIndexed<T, V>(s: seq<T>, id: T -> nat, val: T -> V, k: nat)
    requires Unique(s, id)
    ensures k in Index(s, id, val) <==> Find(s, id, k) < |s|
    ensures Find(s, id, k) < |s| ==> Index(s, id, val)[k] == val(s[Find(s, id, k)])
  {
    IndexIndexes(s, id, val);
  }
}
