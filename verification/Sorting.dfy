/** Sorting as the library calls provide it (`sorted`, `list.sort`, `numpy.lexsort`, a stable `argsort`), and the fact
    every order argument rests on: a strictly sorted arrangement is determined by its members alone. */
module Sorting {

  ghost predicate Order<T(!new)>(less: (T, T) -> bool) {
    && (forall x :: !less(x, x))
    && (forall x, y, z :: less(x, y) && less(y, z) ==> less(x, z))
  }

  ghost predicate Sorted<T>(less: (T, T) -> bool, s: seq<T>) {
    forall i, j :: 0 <= i < j < |s| ==> less(s[i], s[j])
  }

  /** Any two entries of `s` are comparable, so a sort of `s` has no ties. */
  ghost predicate Separates<T>(less: (T, T) -> bool, s: seq<T>) {
    forall i, j :: 0 <= i < j < |s| ==> less(s[i], s[j]) || less(s[j], s[i])
  }

  function Insert<T>(less: (T, T) -> bool, x: T, s: seq<T>): (r: seq<T>)
    ensures multiset(r) == multiset{x} + multiset(s)
  {
    if s == [] then [x]
    else if less(x, s[0]) then assert s == [s[0]] + s[1..]; [x] + s
    else assert s == [s[0]] + s[1..]; [s[0]] + Insert(less, x, s[1..])
  }

  function Sort<T>(less: (T, T) -> bool, s: seq<T>): (r: seq<T>)
    ensures multiset(r) == multiset(s)
  {
    if s == [] then []
    else assert s == [s[0]] + s[1..]; Insert(less, s[0], Sort(less, s[1..]))
  }

  lemma SameMembers<T>(a: seq<T>, b: seq<T>)
    requires multiset(a) == multiset(b)
    ensures |a| == |b|
    ensures forall x :: x in a <==> x in b
  {
    assert |multiset(a)| == |multiset(b)|;
    forall x ensures x in a <==> x in b {
      assert x in a <==> x in multiset(a);
      assert x in b <==> x in multiset(b);
    }
  }

  lemma {:induction false} InsertSorted<T(!new)>(less: (T, T) -> bool, x: T, s: seq<T>)
    requires Order(less) && Sorted(less, s)
    requires forall y :: y in s ==> less(x, y) || less(y, x)
    ensures Sorted(less, Insert(less, x, s))
  {
    if s == [] {
    } else if less(x, s[0]) {
      var r := [x] + s;
      forall i, j | 0 <= i < j < |r| ensures less(r[i], r[j]) {
        if i == 0 && j > 1 { assert less(s[0], s[j - 1]); }
      }
    } else {
      InsertSorted(less, x, s[1..]);
      var t := Insert(less, x, s[1..]);
      SameMembers(t, [x] + s[1..]);
      var r := [s[0]] + t;
      assert forall y :: y in t ==> less(s[0], y);
    }
  }

  lemma {:induction false} SortSorted<T(!new)>(less: (T, T) -> bool, s: seq<T>)
    requires Order(less) && Separates(less, s)
    ensures Sorted(less, Sort(less, s))
  {
    if s != [] {
      SortSorted(less, s[1..]);
      SameMembers(Sort(less, s[1..]), s[1..]);
      InsertSorted(less, s[0], Sort(less, s[1..]));
    }
  }

  /** A strictly sorted sequence is determined by its members. */
  lemma {:induction false} SortedUnique<T(!new)>(less: (T, T) -> bool, a: seq<T>, b: seq<T>)
    requires Order(less) && Sorted(less, a) && Sorted(less, b)
    requires forall x :: x in a <==> x in b
    ensures a == b
  {
    assert |a| > 0 ==> a[0] in b;
    assert |b| > 0 ==> b[0] in a;
    if |a| > 0 {
      assert a[0] == b[0];
      forall x ensures x in a[1..] <==> x in b[1..] {
        assert x in a <==> x == a[0] || x in a[1..];
        assert x in b <==> x == b[0] || x in b[1..];
      }
      SortedUnique(less, a[1..], b[1..]);
    }
  }

  /** Whatever a correct sort returns for `s`, it is `Sort(less, s)`. */
  lemma SortCanonical<T(!new)>(less: (T, T) -> bool, s: seq<T>, r: seq<T>)
    requires Order(less) && Separates(less, s)
    requires Sorted(less, r) && multiset(r) == multiset(s)
    ensures r == Sort(less, s)
  {
    SortSorted(less, s);
    SameMembers(r, Sort(less, s));
    SortedUnique(less, r, Sort(less, s));
  }

  function Smaller(a: int, b: int): (r: int)
    ensures r <= a && r <= b && (r == a || r == b)
  {
    if a < b then a else b
  }

  function Larger(a: int, b: int): (r: int)
    ensures r >= a && r >= b && (r == a || r == b)
  {
    if a < b then b else a
  }

  // ---- ascending integers ---------------------------------------------

  ghost predicate Ascending(s: seq<int>) {
    forall i, j :: 0 <= i < j < |s| ==> s[i] < s[j]
  }

  lemma {:induction false} AscendingUnique(a: seq<int>, b: seq<int>)
    requires Ascending(a) && Ascending(b)
    requires forall x :: x in a <==> x in b
    ensures a == b
  {
    assert |a| > 0 ==> a[0] in a && a[0] in b;
    assert |b| > 0 ==> b[0] in b && b[0] in a;
    if |a| > 0 {
      assert a[0] == b[0];
      forall x ensures x in a[1..] <==> x in b[1..] {
        assert x in a <==> x == a[0] || x in a[1..];
        assert x in b <==> x == b[0] || x in b[1..];
      }
      AscendingUnique(a[1..], b[1..]);
    }
  }

  ghost predicate IsMin(m: nat, s: set<nat>) {
    m in s && forall x :: x in s ==> m <= x
  }

  lemma {:induction false} MinExists(s: set<nat>)
    requires s != {}
    ensures exists m :: IsMin(m, s)
  {
    var a :| a in s;
    var t := s - {a};
    assert s == t + {a};
    if t == {} {
      assert IsMin(a, s);
    } else {
      MinExists(t);
      var m :| IsMin(m, t);
      assert IsMin(if a < m then a else m, s);
    }
  }

  function Min(s: set<nat>): (m: nat)
    requires s != {}
    ensures IsMin(m, s)
  {
    MinExists(s);
    var m: nat :| m in s && forall x :: x in s ==> m <= x;
    m
  }

  /** `sorted(s)` for a set of node or event numbers. */
  function Asc(s: set<nat>): (r: seq<nat>)
    ensures Ascending(r)
    ensures |r| == |s|
    ensures forall x :: x in r <==> x in s
  {
    if s == {} then []
    else
      var m := Min(s);
      var rest := Asc(s - {m});
      assert forall k :: 0 <= k < |rest| ==> rest[k] in rest;
      [m] + rest
  }

  ghost predicate Distinct<T>(s: seq<T>) {
    forall i, j :: 0 <= i < j < |s| ==> s[i] != s[j]
  }

  function SetOf(s: seq<nat>): (r: set<nat>)
    ensures forall x :: x in r <==> x in s
  {
    set x | x in s
  }

  predicate Below(x: nat, y: nat) { x < y }

  /** `list.sort` on distinct numbers gives their set in ascending order. */
  lemma {:induction false} SortDistinct(s: seq<nat>)
    requires Distinct(s)
    ensures Sort(Below, s) == Asc(SetOf(s))
    ensures |s| == |SetOf(s)|
  {
    SortSorted(Below, s);
    SameMembers(Sort(Below, s), s);
    hide Sort, Asc, SetOf;
    var r := Sort(Below, s);
    assert Ascending(r) by {
      forall i, j | 0 <= i < j < |r| ensures r[i] < r[j] { assert Below(r[i], r[j]); }
    }
    AscendingUnique(r, Asc(SetOf(s)));
  }

  lemma EmptyEnds<T>(s: seq<T>)
    ensures s + [] == s && [] + s == s
  {
  }

  /** The position of `x` in `s`. */
  function IndexOf<T(==)>(s: seq<T>, x: T): (k: nat)
    requires x in s
    ensures k < |s| && s[k] == x
  {
    if s[|s| - 1] == x then |s| - 1 else IndexOf(s[..|s| - 1], x)
  }

  /** `{v: k for k, v in enumerate(s)}` for distinct entries. */
  function Local(s: seq<nat>): (m: map<nat, nat>)
    ensures forall u :: u in m <==> u in s
    ensures forall u :: u in m ==> m[u] < |s| && s[m[u]] == u
  {
    map u | u in s :: IndexOf(s, u)
  }

  /** `s` without the entry at `root`. */
  function Without(s: seq<nat>, root: nat): (r: seq<nat>)
    requires root < |s|
    ensures |r| == |s| - 1
    ensures forall k {:trigger r[k]} :: 0 <= k < |r| ==> r[k] == s[if k < root then k else k + 1]
  {
    s[..root] + s[root + 1..]
  }

  lemma {:induction false} WithoutAscending(s: seq<nat>, root: nat)
    requires Ascending(s) && root < |s|
    ensures Ascending(Without(s, root))
    ensures forall w :: w in Without(s, root) <==> w in s && w != s[root]
  {
    var r := Without(s, root);
    hide Without;
    forall k | 0 <= k < |r| ensures r[k] in s && r[k] != s[root] {
      assert k < root ==> s[k] < s[root];
      assert k >= root ==> s[root] < s[k + 1];
    }
    forall w | w in s && w != s[root] ensures w in r {
      var k :| 0 <= k < |s| && s[k] == w;
      assert w == r[if k < root then k else k - 1];
    }
  }

  lemma AscendingInjective(s: seq<nat>, i: nat, j: nat)
    requires Ascending(s) && i < |s| && j < |s| && s[i] == s[j]
    ensures i == j
  {
  }

  lemma LocalIndex(s: seq<nat>, k: nat)
    requires Ascending(s) && k < |s|
    ensures s[k] in Local(s) && Local(s)[s[k]] == k
  {
    assert s[k] in s;
    var j := Local(s)[s[k]];
    assert s[j] == s[k];
  }

  /** `s[from..n]`, stated entry by entry. */
  function Range<T>(s: seq<T>, from: nat, n: nat): (r: seq<T>)
    requires from <= n <= |s|
    ensures |r| == n - from
    ensures forall k {:trigger r[k]} :: 0 <= k < n - from ==> r[k] == s[from + k]
  {
    if from == n then [] else Range(s, from, n - 1) + [s[n - 1]]
  }

  /** The last `limit` entries of `s`; the program writes `s[-limit:] if limit else s`. */
  function Last<T>(s: seq<T>, limit: nat): (r: seq<T>)
    ensures |r| == if limit == 0 || |s| <= limit then |s| else limit
  {
    if limit == 0 || |s| <= limit then s else Range(s, |s| - limit, |s|)
  }

  lemma LastEntry<T>(s: seq<T>, limit: nat, j: nat)
    requires j < |Last(s, limit)|
    ensures Last(s, limit)[j] == s[|s| - |Last(s, limit)| + j]
  {
  }

  /** The last `limit` entries of an ascending list are those not below the first of them. */
  lemma InLast(b: seq<nat>, limit: nat, e: nat)
    requires Ascending(b) && e in b && Last(b, limit) != []
    ensures e in Last(b, limit) <==> e >= b[|b| - |Last(b, limit)|]
  {
    hide Last;
    var n := |Last(b, limit)|;
    var k :| 0 <= k < |b| && b[k] == e;
    if k >= |b| - n {
      LastEntry(b, limit, k - (|b| - n));
    }
    if e in Last(b, limit) {
      var j :| 0 <= j < n && Last(b, limit)[j] == e;
      LastEntry(b, limit, j);
    }
  }

  /** `arange(n)`. */
  function UpTo(n: nat): (r: seq<nat>)
    ensures forall j {:trigger r[j]} :: 0 <= j < |r| ==> r[j] < n
  {
    if n == 0 then [] else UpTo(n - 1) + [n - 1]
  }

  lemma {:induction false} UpToSpec(n: nat)
    ensures |UpTo(n)| == n && Ascending(UpTo(n)) && forall i: nat :: i in UpTo(n) <==> i < n
  {
    if n > 0 { UpToSpec(n - 1); }
  }

  lemma {:induction false} DistinctSize(s: seq<nat>)
    requires Distinct(s)
    ensures |SetOf(s)| == |s|
  {
    if s != [] {
      DistinctSize(s[1..]);
      assert s == [s[0]] + s[1..];
      assert SetOf(s) == {s[0]} + SetOf(s[1..]);
    }
  }

  lemma {:induction false} SetSize(s: seq<nat>)
    ensures |SetOf(s)| <= |s|
  {
    if s != [] {
      SetSize(s[1..]);
      assert s == [s[0]] + s[1..];
      assert SetOf(s) == {s[0]} + SetOf(s[1..]);
    } else {
      assert SetOf(s) == {};
    }
  }

  lemma {:induction false} NotMore(a: seq<nat>, b: seq<nat>)
    requires Distinct(a) && forall x :: x in a ==> x in b
    ensures |a| <= |b|
  {
    DistinctSize(a);
    SetSize(b);
    var x, y := SetOf(a), SetOf(b);
    assert y == x + (y - x);
  }

  /** How many entries of an ascending list are above, and below, its k-th. */
  lemma {:induction false} PlaceCounts(s: seq<nat>, k: nat)
    requires Ascending(s) && k < |s|
    ensures |set x | x in s && x > s[k]| == |s| - 1 - k
    ensures |set x | x in s && x < s[k]| == k
  {
    var above, below := s[k + 1..], s[..k];
    forall x ensures x in above <==> x in s && x > s[k] {
      if x in s && x > s[k] {
        var j :| 0 <= j < |s| && s[j] == x;
        assert above[j - k - 1] == x;
      }
    }
    forall x ensures x in below <==> x in s && x < s[k] {
      if x in s && x < s[k] {
        var j :| 0 <= j < |s| && s[j] == x;
        assert below[j] == x;
      }
    }
    assert (set x | x in s && x > s[k]) == SetOf(above);
    assert (set x | x in s && x < s[k]) == SetOf(below);
    DistinctSize(above);
    DistinctSize(below);
  }

  lemma SubsetSize<T>(a: set<T>, b: set<T>)
    requires a <= b
    ensures |a| <= |b|
  {
    assert b == a + (b - a);
  }
}
