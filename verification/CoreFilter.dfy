/** The iterative core filter of `InteractionData.from_csv` in `dgsr/data.py`. */
module CoreFilter {
  import opened Sorting

  datatype Name = Name(text: string)

  /** `row` is the record's line number, so no record occurs twice. */
  datatype Record = Record(user: Name, item: Name, time: int, row: nat)

  datatype Filtering = NothingRemains | Remaining(records: seq<Record>, iterations: nat)

  // ---- sub-collections that meet the thresholds ---------------------------------

  function Members(s: seq<Record>): (m: set<Record>)
    ensures forall r :: r in m <==> r in s
  {
    set r | r in s
  }

  function OfUser(s: set<Record>, u: Name): set<Record> { set r | r in s && r.user == u }

  function OfItem(s: set<Record>, i: Name): set<Record> { set r | r in s && r.item == i }

  ghost predicate Meets(s: set<Record>, r: Record, minUser: nat, minItem: nat) {
    |OfUser(s, r.user)| >= minUser && |OfItem(s, r.item)| >= minItem
  }

  /** Every record's user and item meet their thresholds within `s` itself. */
  ghost predicate Core(s: set<Record>, minUser: nat, minItem: nat) {
    forall r :: r in s ==> Meets(s, r, minUser, minItem)
  }

  /** The entries of `s` that are in `m`, in their original order. */
  ghost function Select(s: seq<Record>, m: set<Record>, n: nat): (r: seq<Record>)
    requires n <= |s|
  {
    if n == 0 then [] else Select(s, m, n - 1) + if s[n - 1] in m then [s[n - 1]] else []
  }

  /** `core` is the greatest sub-collection of `records` that meets the thresholds,
      in input order. */
  ghost predicate GreatestCore(records: seq<Record>, core: seq<Record>, minUser: nat, minItem: nat) {
    && Core(Members(core), minUser, minItem)
    && core == Select(records, Members(core), |records|)
    && Largest(records, core, minUser, minItem)
  }

  ghost predicate Largest(records: seq<Record>, core: seq<Record>, minUser: nat, minItem: nat) {
    forall s: set<Record> :: s <= Members(records) && Core(s, minUser, minItem) ==> s <= Members(core)
  }

  /** A core, in full: every record's user occurs in at least `minUser` of its records,
      and every record's item in at least `minItem`. */
  lemma CoreMeans(s: set<Record>, minUser: nat, minItem: nat)
    ensures Core(s, minUser, minItem) <==>
      && (forall r :: r in s ==> |set q | q in s && q.user == r.user| >= minUser)
      && (forall r :: r in s ==> |set q | q in s && q.item == r.item| >= minItem)
  {
    forall r | r in s
      ensures Meets(s, r, minUser, minItem) <==>
        |set q | q in s && q.user == r.user| >= minUser && |set q | q in s && q.item == r.item| >= minItem
    {
      assert OfUser(s, r.user) == set q | q in s && q.user == r.user;
      assert OfItem(s, r.item) == set q | q in s && q.item == r.item;
    }
  }

  /** Selecting keeps exactly the members, in their original order. */
  lemma {:induction false} SelectPair(s: seq<Record>, m: set<Record>, n: nat, i: nat, j: nat) returns (i': nat, j': nat)
    requires n <= |s| && i < j < |Select(s, m, n)|
    ensures i' < j' < n && s[i'] == Select(s, m, n)[i] && s[j'] == Select(s, m, n)[j]
  {
    if j < |Select(s, m, n - 1)| {
      i', j' := SelectPair(s, m, n - 1, i, j);
    } else {
      j' := n - 1;
      i' := SelectPlace(s, m, n - 1, i);
    }
  }

  lemma {:induction false} SelectPlace(s: seq<Record>, m: set<Record>, n: nat, i: nat) returns (i': nat)
    requires n <= |s| && i < |Select(s, m, n)|
    ensures i' < n && s[i'] == Select(s, m, n)[i]
  {
    if i < |Select(s, m, n - 1)| { i' := SelectPlace(s, m, n - 1, i); } else { i' := n - 1; }
  }

  // ---- counting ----------------------------------------------------------------

  function UserCount(s: seq<Record>, u: Name, n: nat): nat
    requires n <= |s|
  {
    if n == 0 then 0 else UserCount(s, u, n - 1) + if s[n - 1].user == u then 1 else 0
  }

  function ItemCount(s: seq<Record>, i: Name, n: nat): nat
    requires n <= |s|
  {
    if n == 0 then 0 else ItemCount(s, i, n - 1) + if s[n - 1].item == i then 1 else 0
  }

  lemma OfUserGrows(s: set<Record>, x: Record, u: Name)
    requires x !in s
    ensures |OfUser(s + {x}, u)| == |OfUser(s, u)| + if x.user == u then 1 else 0
  {
    assert OfUser(s + {x}, u) == OfUser(s, u) + if x.user == u then {x} else {};
  }

  lemma OfItemGrows(s: set<Record>, x: Record, i: Name)
    requires x !in s
    ensures |OfItem(s + {x}, i)| == |OfItem(s, i)| + if x.item == i then 1 else 0
  {
    assert OfItem(s + {x}, i) == OfItem(s, i) + if x.item == i then {x} else {};
  }

  lemma NextMember(s: seq<Record>, n: nat)
    requires Distinct(s) && 0 < n <= |s|
    ensures Members(s[..n]) == Members(s[..n - 1]) + {s[n - 1]} && s[n - 1] !in Members(s[..n - 1])
  {
    assert s[..n] == s[..n - 1] + [s[n - 1]];
  }

  /** The counters count members: records are distinct. */
  lemma {:induction false} CountsAreSizes(s: seq<Record>, r: Record, n: nat)
    requires Distinct(s) && n <= |s|
    ensures UserCount(s, r.user, n) == |OfUser(Members(s[..n]), r.user)|
    ensures ItemCount(s, r.item, n) == |OfItem(Members(s[..n]), r.item)|
  {
    if n > 0 {
      CountsAreSizes(s, r, n - 1);
      NextMember(s, n);
      hide OfUser, OfItem, Members, Distinct;
      OfUserGrows(Members(s[..n - 1]), s[n - 1], r.user);
      OfItemGrows(Members(s[..n - 1]), s[n - 1], r.item);
    } else {
      assert Members(s[..0]) == {};
      assert OfUser({}, r.user) == {} && OfItem({}, r.item) == {};
    }
  }

  /** `[r for r in records if uc[r.user] >= minUser and ic[r.item] >= minItem]`. */
  function Pass(s: seq<Record>, minUser: nat, minItem: nat, n: nat): (r: seq<Record>)
    requires n <= |s|
    ensures |r| <= n
  {
    if n == 0 then []
    else Pass(s, minUser, minItem, n - 1)
           + if UserCount(s, s[n - 1].user, |s|) >= minUser && ItemCount(s, s[n - 1].item, |s|) >= minItem
             then [s[n - 1]] else []
  }

  lemma PassKeeps(s: seq<Record>, minUser: nat, minItem: nat, k: nat)
    requires Distinct(s) && k < |s|
    ensures UserCount(s, s[k].user, |s|) >= minUser && ItemCount(s, s[k].item, |s|) >= minItem <==>
      Meets(Members(s), s[k], minUser, minItem)
  {
    CountsAreSizes(s, s[k], |s|);
    assert s[..|s|] == s;
  }

  lemma {:induction false} PassSpec(s: seq<Record>, minUser: nat, minItem: nat, n: nat)
    requires Distinct(s) && n <= |s|
    ensures var p := Pass(s, minUser, minItem, n);
      && Distinct(p) && (|p| == n ==> p == s[..n])
      && forall r :: r in p <==> r in s[..n] && Meets(Members(s), r, minUser, minItem)
  {
    if n > 0 {
      hide Meets, Pass, Members;
      PassSpec(s, minUser, minItem, n - 1);
      PassNext(s, minUser, minItem, n);
      assert s[..n] == s[..n - 1] + [s[n - 1]];
    } else {
      hide Meets, Members;
    }
  }

  lemma PassNext(s: seq<Record>, minUser: nat, minItem: nat, n: nat)
    requires Distinct(s) && 0 < n <= |s|
    ensures Pass(s, minUser, minItem, n) ==
      Pass(s, minUser, minItem, n - 1) + if Meets(Members(s), s[n - 1], minUser, minItem) then [s[n - 1]] else []
  {
    PassKeeps(s, minUser, minItem, n - 1);
    hide Meets, UserCount, ItemCount, Members;
  }

  /** A core inside the records survives a pass. */
  lemma PassKeepsCores(s: seq<Record>, minUser: nat, minItem: nat, core: set<Record>)
    requires Distinct(s) && core <= Members(s) && Core(core, minUser, minItem)
    ensures core <= Members(Pass(s, minUser, minItem, |s|))
  {
    PassSpec(s, minUser, minItem, |s|);
    assert s[..|s|] == s;
    forall r | r in core ensures Meets(Members(s), r, minUser, minItem) {
      assert Meets(core, r, minUser, minItem);
      SubsetSize(OfUser(core, r.user), OfUser(Members(s), r.user));
      SubsetSize(OfItem(core, r.item), OfItem(Members(s), r.item));
    }
  }

  lemma PassFixed(s: seq<Record>, minUser: nat, minItem: nat)
    requires Distinct(s)
    ensures |Pass(s, minUser, minItem, |s|)| == |s| <==> Core(Members(s), minUser, minItem)
    ensures |Pass(s, minUser, minItem, |s|)| == |s| ==> Pass(s, minUser, minItem, |s|) == s
  {
    PassSpec(s, minUser, minItem, |s|);
    assert s[..|s|] == s;
    if Core(Members(s), minUser, minItem) { PassAll(s, minUser, minItem, |s|); }
  }

  lemma {:induction false} PassAll(s: seq<Record>, minUser: nat, minItem: nat, n: nat)
    requires Distinct(s) && n <= |s| && Core(Members(s), minUser, minItem)
    ensures |Pass(s, minUser, minItem, n)| == n
  {
    if n > 0 {
      PassAll(s, minUser, minItem, n - 1);
      PassKeeps(s, minUser, minItem, n - 1);
      assert s[n - 1] in s;
    }
  }

  // ---- input order ---------------------------------------------------------------

  lemma {:induction false} SelectAll(s: seq<Record>, m: set<Record>, n: nat)
    requires n <= |s| && forall k :: 0 <= k < |s| ==> s[k] in m
    ensures Select(s, m, n) == s[..n]
  {
    if n > 0 { SelectAll(s, m, n - 1); }
  }

  lemma {:induction false} SelectAppend(a: seq<Record>, b: seq<Record>, m: set<Record>, n: nat)
    requires n <= |b|
    ensures Select(a + b, m, |a| + n) == Select(a, m, |a|) + Select(b, m, n)
  {
    if n == 0 { SelectPrefix(a, b, m, |a|); } else { SelectAppend(a, b, m, n - 1); }
  }

  lemma {:induction false} SelectPrefix(a: seq<Record>, b: seq<Record>, m: set<Record>, n: nat)
    requires n <= |a|
    ensures Select(a + b, m, n) == Select(a, m, n)
  {
    if n > 0 { SelectPrefix(a, b, m, n - 1); }
  }

  /** Selecting twice is selecting the smaller set. */
  lemma {:induction false} SelectTwice(s: seq<Record>, big: set<Record>, small: set<Record>, n: nat)
    requires n <= |s| && small <= big
    ensures Select(Select(s, big, n), small, |Select(s, big, n)|) == Select(s, small, n)
  {
    if n > 0 {
      SelectTwice(s, big, small, n - 1);
      var rest := if s[n - 1] in big then [s[n - 1]] else [];
      SelectAppend(Select(s, big, n - 1), rest, small, |rest|);
      assert Select(s, big, n) == Select(s, big, n - 1) + rest;
      assert Select(rest, small, |rest|) == if s[n - 1] in small then [s[n - 1]] else [] by {
        SelectOne(s[n - 1], small);
      }
    }
  }

  lemma SelectOne(x: Record, m: set<Record>)
    ensures Select([x], m, 1) == if x in m then [x] else []
  {
    assert Select([x], m, 0) == [];
  }

  lemma PassMember(s: seq<Record>, minUser: nat, minItem: nat, k: nat)
    requires Distinct(s) && k < |s|
    ensures s[k] in Members(Pass(s, minUser, minItem, |s|)) <==>
      UserCount(s, s[k].user, |s|) >= minUser && ItemCount(s, s[k].item, |s|) >= minItem
  {
    PassSpec(s, minUser, minItem, |s|);
    PassKeeps(s, minUser, minItem, k);
    hide Pass, Meets, UserCount, ItemCount;
    assert s[..|s|] == s && s[k] in s;
  }

  /** A pass keeps the input order. */
  lemma {:induction false} PassSelects(s: seq<Record>, minUser: nat, minItem: nat, m: set<Record>, n: nat)
    requires Distinct(s) && n <= |s| && m == Members(Pass(s, minUser, minItem, |s|))
    ensures Pass(s, minUser, minItem, n) == Select(s, m, n)
  {
    hide UserCount, ItemCount, Members, Distinct;
    if n > 0 {
      PassSelects(s, minUser, minItem, m, n - 1);
      PassMember(s, minUser, minItem, n - 1);
    }
  }

  // ---- the loop --------------------------------------------------------------------

  lemma PassStep(original: seq<Record>, s: seq<Record>, minUser: nat, minItem: nat, next: seq<Record>)
    requires Distinct(s) && Members(s) <= Members(original) && s == Select(original, Members(s), |original|)
    requires Largest(original, s, minUser, minItem) && next == Pass(s, minUser, minItem, |s|)
    ensures Distinct(next) && Members(next) <= Members(s)
    ensures next == Select(original, Members(next), |original|)
    ensures Largest(original, next, minUser, minItem)
  {
    PassSpec(s, minUser, minItem, |s|);
    assert s[..|s|] == s;
    PassSelects(s, minUser, minItem, Members(next), |s|);
    SelectTwice(original, Members(s), Members(next), |original|);
    hide Pass, Select, Core, Distinct;
    forall c: set<Record> | c <= Members(original) && Core(c, minUser, minItem) ensures c <= Members(next) {
      PassKeepsCores(s, minUser, minItem, c);
    }
  }

  /** The filtering loop. It ends; what remains is the greatest sub-collection that
      meets the thresholds, in input order; nothing remains when only the empty one does. */
  method FilterCore(original: seq<Record>, minUser: nat, minItem: nat) returns (r: Filtering)
    requires Distinct(original)
    ensures r.Remaining? ==> r.records != [] && GreatestCore(original, r.records, minUser, minItem)
    ensures r.Remaining? ==> r.iterations <= |original| - |r.records|
    ensures r.NothingRemains? ==> GreatestCore(original, [], minUser, minItem)
  {
    hide Pass, Select, Core, Largest, Distinct;
    var records, iterations := original, 0;
    SelectAll(original, Members(original), |original|);
    assert original[..|original|] == original;
    AllLargest(original, minUser, minItem);
    while records != []
      invariant Distinct(records) && Members(records) <= Members(original)
      invariant records == Select(original, Members(records), |original|)
      invariant Largest(original, records, minUser, minItem)
      invariant iterations <= |original| - |records|
      decreases |records|
    {
      var filtered := Pass(records, minUser, minItem, |records|);
      PassFixed(records, minUser, minItem);
      if |filtered| == |records| { return Remaining(records, iterations); }
      PassStep(original, records, minUser, minItem, filtered);
      records := filtered;
      iterations := iterations + 1;
    }
    NothingIsCore(minUser, minItem);
    r := NothingRemains;
  }

  lemma AllLargest(original: seq<Record>, minUser: nat, minItem: nat)
    ensures Largest(original, original, minUser, minItem)
  {
  }

  lemma NothingIsCore(minUser: nat, minItem: nat)
    ensures Core(Members([]), minUser, minItem)
  {
  }

  /** The contract leaves one answer, and filtering it again changes nothing. */
  lemma CoreUnique(original: seq<Record>, core: seq<Record>, again: seq<Record>, minUser: nat, minItem: nat)
    requires GreatestCore(original, core, minUser, minItem)
    requires GreatestCore(core, again, minUser, minItem) || GreatestCore(original, again, minUser, minItem)
    ensures again == core
  {
    hide Core;
    SelectMembers(original, Members(core), |original|);
    assert Members(core) <= Members(original);
    if GreatestCore(core, again, minUser, minItem) {
      SelectMembers(core, Members(again), |core|);
      assert Members(again) <= Members(core);
      assert Members(core) == Members(again);
      SelectAll(core, Members(core), |core|);
      assert core[..|core|] == core;
    } else {
      SelectMembers(original, Members(again), |original|);
      assert Members(again) <= Members(original);
      assert Members(core) == Members(again);
    }
  }

  lemma {:induction false} SelectMembers(s: seq<Record>, m: set<Record>, n: nat)
    requires n <= |s|
    ensures forall r :: r in Select(s, m, n) ==> r in s
  {
    if n > 0 { SelectMembers(s, m, n - 1); }
  }
}
