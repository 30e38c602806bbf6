/** Contact lists: sort by distance, drop duplicates, truncate; and what that computes. */
module Nearest {
  import opened Keys
  import opened Metric

  datatype Contact = Contact(id: NodeId, address: Address)

  /** Kademlia's replication parameter. */
  const K: nat := 10

  function Ids(s: seq<Contact>): (r: seq<NodeId>)
    ensures |r| == |s|
    ensures forall i :: 0 <= i < |s| ==> r[i] == s[i].id
  {
    seq(|s|, i requires 0 <= i < |s| => s[i].id)
  }

  function IdSet(s: seq<Contact>): set<NodeId> {
    set c | c in s :: c.id
  }

  predicate DistinctIds(s: seq<Contact>) {
    forall i, j :: 0 <= i < j < |s| ==> s[i].id != s[j].id
  }

  /** Where `id` sits in `s`, as `iter().position(..)` finds it. */
  function Position(s: seq<Contact>, id: NodeId): (i: nat)
    ensures i <= |s|
    ensures i < |s| ==> s[i].id == id
    ensures i == |s| <==> id !in IdSet(s)
  {
    if s == [] then 0
    else if s[0].id == id then 0
    else
      assert forall x :: x in IdSet(s) ==> x == s[0].id || x in IdSet(s[1..]) by {
        forall x | x in IdSet(s) ensures x == s[0].id || x in IdSet(s[1..]) {
          var i :| 0 <= i < |s| && s[i].id == x;
          if i > 0 { assert s[1..][i - 1].id == x; }
        }
      }
      assert id in IdSet(s[1..]) ==> id in IdSet(s) by {
        if id in IdSet(s[1..]) {
          var i :| 0 <= i < |s[1..]| && s[1..][i].id == id;
          assert s[i + 1].id == id;
        }
      }
      1 + Position(s[1..], id)
  }

  /* ---- sort, dedup, truncate ---- */

  ghost function InsertSorted(c: Contact, s: seq<Contact>, t: NodeId): seq<Contact> {
    if s == [] then [c]
    else if Dist(c.id, t) < Dist(s[0].id, t) then [c] + s
    else [s[0]] + InsertSorted(c, s[1..], t)
  }

  /** A stable sort, nearest to `t` first. */
  ghost function SortByDistance(s: seq<Contact>, t: NodeId): seq<Contact> {
    if s == [] then [] else InsertSorted(s[|s| - 1], SortByDistance(s[..|s| - 1], t), t)
  }

  /** Inserts after every contact that is not farther, comparing bytes. */
  method Insert(c: Contact, s: seq<Contact>, t: NodeId) returns (r: seq<Contact>)
    ensures r == InsertSorted(c, s, t)
  {
    var i := 0;
    while i < |s| && !Nearer(c.id, s[i].id, t)
      invariant i <= |s|
      invariant InsertSorted(c, s, t) == s[..i] + InsertSorted(c, s[i..], t)
    {
      InsertSortedStep(c, s, t, i);
      i := i + 1;
    }
    r := s[..i] + [c] + s[i..];
  }

  predicate Nearer(a: NodeId, b: NodeId, t: NodeId)
    ensures Nearer(a, b, t) <==> Dist(a, t) < Dist(b, t)
  {
    CmpIsDist(a, b, t);
    XorDistanceCmp(a, b, t) == Less
  }

  lemma InsertSortedStep(c: Contact, s: seq<Contact>, t: NodeId, i: nat)
    requires i < |s| && Dist(c.id, t) >= Dist(s[i].id, t)
    ensures s[..i] + InsertSorted(c, s[i..], t) == s[..i + 1] + InsertSorted(c, s[i + 1..], t)
  {
    assert s[i..][1..] == s[i + 1..];
    assert s[..i + 1] == s[..i] + [s[i]];
  }

  /** `sort_by(xor_distance_cmp)`: contacts tie only when they have one id, and those keep their order. */
  method SortContacts(s: seq<Contact>, t: NodeId) returns (r: seq<Contact>)
    ensures r == SortByDistance(s, t)
    ensures Sorted(r, t) && multiset(r) == multiset(s)
    ensures forall id :: OfId(r, id) == OfId(s, id)
  {
    r := [];
    for i := 0 to |s|
      invariant r == SortByDistance(s[..i], t)
    {
      assert s[..i + 1][..i] == s[..i];
      r := Insert(s[i], r, t);
    }
    assert s[..|s|] == s;
    SortSpec(s, t);
    forall id ensures OfId(r, id) == OfId(s, id) {
      SortStable(s, t, id);
    }
  }

  /** `dedup_by_key(id)`: of adjacent contacts with one id, the first stays. */
  function DedupById(s: seq<Contact>): seq<Contact>
    decreases |s|
  {
    if |s| <= 1 then s
    else if s[0].id == s[1].id then DedupById([s[0]] + s[2..])
    else [s[0]] + DedupById(s[1..])
  }

  function Truncate(s: seq<Contact>, k: nat): seq<Contact> {
    if |s| <= k then s else s[..k]
  }

  ghost predicate Sorted(s: seq<Contact>, t: NodeId) {
    forall i, j :: 0 <= i < j < |s| ==> Dist(s[i].id, t) <= Dist(s[j].id, t)
  }

  ghost predicate Ascending(r: seq<NodeId>, t: NodeId) {
    forall i, j :: 0 <= i < j < |r| ==> Dist(r[i], t) < Dist(r[j], t)
  }

  lemma {:induction false} InsertSortedElements(c: Contact, s: seq<Contact>, t: NodeId)
    ensures multiset(InsertSorted(c, s, t)) == multiset(s) + multiset{c}
  {
    if s != [] {
      assert s == [s[0]] + s[1..];
      InsertSortedElements(c, s[1..], t);
    }
  }

  lemma ConsSorted(x: Contact, r: seq<Contact>, t: NodeId)
    requires Sorted(r, t) && forall c :: c in r ==> Dist(x.id, t) <= Dist(c.id, t)
    ensures Sorted([x] + r, t)
  {
    assert forall j :: 0 <= j < |r| ==> r[j] in r;
  }

  lemma SortedTail(s: seq<Contact>, t: NodeId)
    requires Sorted(s, t) && s != []
    ensures Sorted(s[1..], t)
    ensures forall c :: c in s ==> Dist(s[0].id, t) <= Dist(c.id, t)
  {
  }

  lemma {:induction false} InsertSortedSorted(c: Contact, s: seq<Contact>, t: NodeId)
    requires Sorted(s, t)
    ensures Sorted(InsertSorted(c, s, t), t)
  {
    if s != [] {
      SortedTail(s, t);
      if Dist(c.id, t) >= Dist(s[0].id, t) {
        var r := InsertSorted(c, s[1..], t);
        InsertSortedSorted(c, s[1..], t);
        InsertSortedElements(c, s[1..], t);
        forall x | x in r
          ensures x == c || x in s[1..]
        {
          assert x in multiset(r);
        }
        ConsSorted(s[0], r, t);
      } else {
        ConsSorted(c, s, t);
      }
    }
  }

  lemma {:induction false} SortElements(s: seq<Contact>, t: NodeId)
    ensures multiset(SortByDistance(s, t)) == multiset(s)
  {
    if s != [] {
      var n := |s| - 1;
      assert s == s[..n] + [s[n]];
      SortElements(s[..n], t);
      InsertSortedElements(s[n], SortByDistance(s[..n], t), t);
    }
  }

  lemma {:induction false} SortSorted(s: seq<Contact>, t: NodeId)
    ensures Sorted(SortByDistance(s, t), t)
  {
    if s != [] {
      var n := |s| - 1;
      SortSorted(s[..n], t);
      InsertSortedSorted(s[n], SortByDistance(s[..n], t), t);
    }
  }

  lemma SortSpec(s: seq<Contact>, t: NodeId)
    ensures Sorted(SortByDistance(s, t), t)
    ensures multiset(SortByDistance(s, t)) == multiset(s)
  {
    SortSorted(s, t);
    SortElements(s, t);
  }

  lemma SameLength(s: seq<Contact>, u: seq<Contact>)
    requires multiset(s) == multiset(u)
    ensures |s| == |u|
  {
    assert |multiset(s)| == |s| && |multiset(u)| == |u|;
  }

  lemma SameElements(s: seq<Contact>, u: seq<Contact>)
    requires multiset(s) == multiset(u)
    ensures |s| == |u|
    ensures forall c :: c in s <==> c in u
    ensures IdSet(s) == IdSet(u)
  {
    assert |multiset(s)| == |s| && |multiset(u)| == |u|;
    forall c
      ensures c in s <==> c in u
    {
      assert c in s <==> c in multiset(s);
      assert c in u <==> c in multiset(u);
    }
    IdSetMembers(s);
    IdSetMembers(u);
  }

  lemma IdSetMembers(s: seq<Contact>)
    ensures forall c :: c in s ==> c.id in IdSet(s)
    ensures forall x :: x in IdSet(s) ==> exists c :: c in s && c.id == x
  {
    forall x | x in IdSet(s)
      ensures exists c :: c in s && c.id == x
    {
      var i :| 0 <= i < |s| && s[i].id == x;
      assert s[i] in s;
    }
  }

  lemma IdSetConcat(s: seq<Contact>, u: seq<Contact>)
    ensures IdSet(s + u) == IdSet(s) + IdSet(u)
  {
    forall x | x in IdSet(s) + IdSet(u)
      ensures x in IdSet(s + u)
    {
      if x in IdSet(s) {
        var i :| 0 <= i < |s| && s[i].id == x;
        assert (s + u)[i].id == x;
      } else {
        var i :| 0 <= i < |u| && u[i].id == x;
        assert (s + u)[|s| + i].id == x;
      }
    }
    forall x | x in IdSet(s + u)
      ensures x in IdSet(s) + IdSet(u)
    {
      var i :| 0 <= i < |s + u| && (s + u)[i].id == x;
      if i >= |s| { assert u[i - |s|].id == x; }
    }
  }

  lemma IdSetOne(c: Contact)
    ensures IdSet([c]) == {c.id}
  {
    assert [c][0].id in IdSet([c]);
  }

  lemma WithoutOne(s: seq<Contact>, k: nat)
    requires DistinctIds(s) && k < |s|
    ensures DistinctIds(s[..k] + s[k + 1..])
    ensures IdSet(s[..k] + s[k + 1..]) == IdSet(s) - {s[k].id}
  {
    var r := s[..k] + s[k + 1..];
    assert forall j :: 0 <= j < |r| ==> r[j] == s[if j < k then j else j + 1];
    forall x | x in IdSet(s) && x != s[k].id
      ensures x in IdSet(r)
    {
      var j :| 0 <= j < |s| && s[j].id == x;
      assert r[if j < k then j else j - 1].id == x;
    }
  }

  lemma {:induction false} DedupElements(s: seq<Contact>)
    ensures IdSet(DedupById(s)) == IdSet(s)
    ensures forall c :: c in DedupById(s) ==> c in s
    ensures |s| > 0 ==> |DedupById(s)| > 0 && DedupById(s)[0] == s[0]
    decreases |s|
  {
    if |s| > 1 {
      if s[0].id == s[1].id {
        var u := [s[0]] + s[2..];
        DedupElements(u);
        assert s == [s[0], s[1]] + s[2..];
        IdSetConcat([s[0]], s[2..]);
        IdSetConcat([s[0], s[1]], s[2..]);
        assert IdSet([s[0], s[1]]) == {s[0].id} == IdSet([s[0]]);
      } else {
        DedupElements(s[1..]);
        assert s == [s[0]] + s[1..];
        IdSetConcat([s[0]], s[1..]);
        IdSetConcat([s[0]], DedupById(s[1..]));
      }
    }
  }

  lemma ConsAscending(x: NodeId, r: seq<NodeId>, t: NodeId)
    requires Ascending(r, t) && |r| > 0 && Dist(x, t) < Dist(r[0], t)
    ensures Ascending([x] + r, t)
  {
  }

  lemma {:induction false} DedupAscending(s: seq<Contact>, t: NodeId)
    requires Sorted(s, t)
    ensures Ascending(Ids(DedupById(s)), t)
    decreases |s|
  {
    if |s| > 1 {
      if s[0].id == s[1].id {
        DedupAscending([s[0]] + s[2..], t);
      } else {
        DedupAscending(s[1..], t);
        DedupElements(s[1..]);
        var r := DedupById(s[1..]);
        if Dist(s[0].id, t) == Dist(s[1].id, t) { DistInjective(s[0].id, s[1].id, t); }
        assert Ids([s[0]] + r) == [s[0].id] + Ids(r);
        ConsAscending(s[0].id, Ids(r), t);
      }
    }
  }

  /** Without duplicate ids there is nothing to drop. */
  lemma {:induction false} DedupNothing(s: seq<Contact>)
    requires DistinctIds(s)
    ensures DedupById(s) == s
    decreases |s|
  {
    if |s| > 1 {
      DedupNothing(s[1..]);
      assert s == [s[0]] + s[1..];
    }
  }

  /* ---- the k nearest of a pool of ids ---- */

  /** `r` lists exactly the `k` ids of `pool` nearest to `t`, nearest first. */
  ghost predicate IsNearest(r: seq<NodeId>, pool: set<NodeId>, t: NodeId, k: nat) {
    && |r| <= k
    && Ascending(r, t)
    && (forall x :: x in r ==> x in pool)
    && (forall x :: x in pool && x !in r ==> |r| == k && forall y :: y in r ==> Dist(y, t) < Dist(x, t))
  }

  lemma {:induction false} NearestPrefixAgrees(r: seq<NodeId>, q: seq<NodeId>, pool: set<NodeId>, t: NodeId, k: nat, n: nat)
    requires IsNearest(r, pool, t, k) && IsNearest(q, pool, t, k)
    requires n <= |r| && n <= |q|
    ensures r[..n] == q[..n]
  {
    if n > 0 {
      NearestPrefixAgrees(r, q, pool, t, k, n - 1);
      NearestHeadNotLater(r, q, pool, t, k, n - 1);
      NearestHeadNotLater(q, r, pool, t, k, n - 1);
      DistInjective(r[n - 1], q[n - 1], t);
      assert r[..n] == r[..n - 1] + [r[n - 1]] && q[..n] == q[..n - 1] + [q[n - 1]];
    }
  }

  lemma NearestHeadNotLater(r: seq<NodeId>, q: seq<NodeId>, pool: set<NodeId>, t: NodeId, k: nat, m: nat)
    requires IsNearest(r, pool, t, k) && IsNearest(q, pool, t, k)
    requires m < |r| && m < |q| && r[..m] == q[..m]
    ensures Dist(r[m], t) <= Dist(q[m], t)
  {
    assert forall j :: 0 <= j < m ==> r[j] == r[..m][j] == q[..m][j] == q[j];
    var x := q[m];
    if x in r {
      var i :| 0 <= i < |r| && r[i] == x;
    } else {
      assert r[m] in r;
    }
  }

  lemma NearestUnique(r: seq<NodeId>, q: seq<NodeId>, pool: set<NodeId>, t: NodeId, k: nat)
    requires IsNearest(r, pool, t, k) && IsNearest(q, pool, t, k)
    ensures r == q
  {
    NearestNotLonger(r, q, pool, t, k);
    NearestNotLonger(q, r, pool, t, k);
    NearestPrefixAgrees(r, q, pool, t, k, |r|);
    assert r == r[..|r|] && q == q[..|r|];
  }

  lemma NearestNotLonger(r: seq<NodeId>, q: seq<NodeId>, pool: set<NodeId>, t: NodeId, k: nat)
    requires IsNearest(r, pool, t, k) && IsNearest(q, pool, t, k)
    ensures |r| <= |q|
  {
    if |r| > |q| {
      var x := r[|q|];
      assert x in r && x in pool;
      NearestPrefixAgrees(r, q, pool, t, k, |q|);
      assert forall j :: 0 <= j < |q| ==> r[j] == r[..|q|][j] == q[..|q|][j] == q[j];
    }
  }

  /** The k nearest of `a` and `b` are found by looking only at the k nearest of `a`, and `b`. */
  lemma NearestMerge(q: seq<NodeId>, a: set<NodeId>, b: set<NodeId>, r: seq<NodeId>, t: NodeId, k: nat)
    requires IsNearest(q, a, t, k)
    requires IsNearest(r, (set x | x in q) + b, t, k)
    ensures IsNearest(r, a + b, t, k)
  {
    forall x | x in a + b && x !in r
      ensures |r| == k && forall y :: y in r ==> Dist(y, t) < Dist(x, t)
    {
      if x !in q && x !in b {
        if forall z :: z in q ==> z in r {
          SameLengthSubset(q, r, t);
          forall y | y in r ensures Dist(y, t) < Dist(x, t) {
            assert y in q;
          }
        } else {
          var z :| z in q && z !in r;
          assert Dist(z, t) < Dist(x, t);
        }
      }
    }
  }

  ghost function Elems(r: seq<NodeId>): set<NodeId> {
    set x | x in r
  }

  lemma {:induction false} AscendingSize(r: seq<NodeId>, t: NodeId)
    requires Ascending(r, t)
    ensures |Elems(r)| == |r|
  {
    if r != [] {
      var n := |r| - 1;
      AscendingSize(r[..n], t);
      assert r == r[..n] + [r[n]];
      assert Elems(r) == Elems(r[..n]) + {r[n]};
      assert forall i :: 0 <= i < n ==> r[..n][i] == r[i] != r[n];
    }
  }

  lemma SubsetSize(a: set<NodeId>, b: set<NodeId>)
    requires a <= b
    ensures |a| <= |b|
    ensures |a| == |b| ==> a == b
  {
    assert b == a + (b - a);
    assert |b| == |a| + |b - a|;
    if |a| == |b| { assert |b - a| == 0; }
  }

  /** A full list of k nearest inside another list of at most k is that list. */
  lemma SameLengthSubset(q: seq<NodeId>, r: seq<NodeId>, t: NodeId)
    requires Ascending(q, t) && Ascending(r, t) && |r| <= |q|
    requires forall z :: z in q ==> z in r
    ensures |r| == |q| && forall y :: y in r ==> y in q
  {
    AscendingSize(q, t);
    AscendingSize(r, t);
    SubsetSize(Elems(q), Elems(r));
    assert forall y :: y in r ==> y in Elems(r);
  }

  /** Nearest of a pool: the length is the smaller of k and the pool's size. */
  lemma NearestLength(r: seq<NodeId>, pool: set<NodeId>, t: NodeId, k: nat)
    requires IsNearest(r, pool, t, k)
    ensures |r| == if |pool| < k then |pool| else k
  {
    AscendingSize(r, t);
    SubsetSize(Elems(r), pool);
    if Elems(r) != pool {
      var x :| x in pool && x !in Elems(r);
    }
  }

  /** Sort, dedup and truncate, as every list of contacts is settled. */
  ghost function Settle(s: seq<Contact>, t: NodeId, k: nat): seq<Contact> {
    Truncate(DedupById(SortByDistance(s, t)), k)
  }

  lemma TruncateNearest(s: seq<Contact>, t: NodeId, k: nat)
    requires Ascending(Ids(s), t)
    ensures IsNearest(Ids(Truncate(s, k)), IdSet(s), t, k)
  {
    var u := Truncate(s, k);
    var r := Ids(u);
    assert forall j :: 0 <= j < |r| ==> r[j] == s[j].id && s[j] in s;
    forall x | x in IdSet(s) && x !in r
      ensures |r| == k && forall y :: y in r ==> Dist(y, t) < Dist(x, t)
    {
      var c :| c in s && c.id == x;
      var j :| 0 <= j < |s| && s[j] == c;
      CutAt(s, t, k, j);
    }
  }

  /** A contact not among the first k comes after all of them. */
  lemma CutAt(s: seq<Contact>, t: NodeId, k: nat, j: nat)
    requires Ascending(Ids(s), t) && j < |s| && s[j].id !in Ids(Truncate(s, k))
    ensures |Truncate(s, k)| == k
    ensures forall y :: y in Ids(Truncate(s, k)) ==> Dist(y, t) < Dist(s[j].id, t)
  {
    var r := Ids(Truncate(s, k));
    assert forall i :: 0 <= i < |r| ==> r[i] == s[i].id && r[i] in r;
    forall y | y in r
      ensures Dist(y, t) < Dist(s[j].id, t)
    {
      var i :| 0 <= i < |r| && r[i] == y;
      assert Ids(s)[i] == y && Ids(s)[j] == s[j].id;
    }
  }

  /** Settling keeps exactly the k nearest ids, each with one of the contacts offered for it. */
  lemma SettleNearest(s: seq<Contact>, t: NodeId, k: nat)
    ensures IsNearest(Ids(Settle(s, t, k)), IdSet(s), t, k)
    ensures forall c :: c in Settle(s, t, k) ==> c in s
    ensures DistinctIds(Settle(s, t, k))
  {
    var u := SortByDistance(s, t);
    SortSpec(s, t);
    SameElements(s, u);
    DedupElements(u);
    DedupAscending(u, t);
    TruncateNearest(DedupById(u), t, k);
    var r := Settle(s, t, k);
    assert Ascending(Ids(r), t);
    forall i, j | 0 <= i < j < |r|
      ensures r[i].id != r[j].id
    {
      assert Dist(Ids(r)[i], t) < Dist(Ids(r)[j], t);
    }
    forall c | c in r
      ensures c in s
    {
      assert c in DedupById(u);
      assert c in u;
    }
  }

  lemma {:induction false} DistinctCount(s: seq<Contact>, n: nat)
    requires DistinctIds(s) && n < |s|
    ensures multiset(s)[s[n]] == 1
  {
    assert s == s[..n] + [s[n]] + s[n + 1..];
    assert s[n] !in s[..n] && s[n] !in s[n + 1..];
  }

  lemma DistinctPermutation(s: seq<Contact>, u: seq<Contact>)
    requires DistinctIds(s) && multiset(s) == multiset(u)
    ensures DistinctIds(u)
  {
    SameElements(s, u);
    forall i, j | 0 <= i < j < |u|
      ensures u[i].id != u[j].id
    {
      assert u[i] in s && u[j] in s;
      var a :| 0 <= a < |s| && s[a] == u[i];
      var b :| 0 <= b < |s| && s[b] == u[j];
      DistinctCount(s, b);
      assert u == u[..j] + [u[j]] + u[j + 1..];
      assert u[i] == u[..j][i];
      assert u[i] in u[..j];
    }
  }

  /** `sort_by` then `truncate`, with no duplicate ids to drop. */
  lemma SortTruncateIsSettle(s: seq<Contact>, t: NodeId, k: nat)
    requires DistinctIds(s)
    ensures Truncate(SortByDistance(s, t), k) == Settle(s, t, k)
  {
    SortSpec(s, t);
    DistinctPermutation(s, SortByDistance(s, t));
    DedupNothing(SortByDistance(s, t));
  }

  /** Contacts are determined by their ids inside one duplicate-free collection. */
  lemma SameContacts(r: seq<Contact>, q: seq<Contact>, all: seq<Contact>)
    requires Ids(r) == Ids(q)
    requires DistinctIds(all)
    requires (forall c :: c in r ==> c in all) && (forall c :: c in q ==> c in all)
    ensures r == q
  {
    forall i | 0 <= i < |r|
      ensures r[i] == q[i]
    {
      assert Ids(r)[i] == Ids(q)[i];
      assert r[i] in all && q[i] in all;
    }
  }

  lemma {:induction false} IdSetSize(s: seq<Contact>)
    requires DistinctIds(s)
    ensures |IdSet(s)| == |s|
  {
    if s != [] {
      var n := |s| - 1;
      IdSetSize(s[..n]);
      assert s == s[..n] + [s[n]];
      assert IdSet(s) == IdSet(s[..n]) + {s[n].id} by {
        IdSetConcat(s[..n], [s[n]]);
        IdSetOne(s[n]);
      }
      assert s[n].id !in IdSet(s[..n]);
    }
  }

  /** When `p` holds at least k ids, all nearer than the rest of the pool, the k nearest are from `p`. */
  lemma NearestInside(r: seq<NodeId>, pool: set<NodeId>, p: set<NodeId>, t: NodeId, k: nat)
    requires IsNearest(r, pool, t, k) && p <= pool && |p| >= k
    requires forall x, y :: x in p && y in pool - p ==> Dist(x, t) < Dist(y, t)
    ensures forall y :: y in r ==> y in p
  {
    forall y | y in r
      ensures y in p
    {
      AscendingSize(r, t);
      if p <= Elems(r) {
        SubsetSize(p + {y}, Elems(r));
      } else {
        var x :| x in p && x !in Elems(r);
        assert y in pool && Dist(y, t) < Dist(x, t);
      }
    }
  }

  /** A list longer than `p` has an element outside it. */
  lemma OneOutside(r: seq<NodeId>, p: set<NodeId>, t: NodeId) returns (y: NodeId)
    requires Ascending(r, t) && |r| > |p|
    ensures y in r && y !in p
  {
    AscendingSize(r, t);
    if Elems(r) <= p { SubsetSize(Elems(r), p); }
    y :| y in Elems(r) && y !in p;
  }

  /**
   * `r` is nearest among `scanned`; `side` is the nearer part of it. Ids `below` are farther than
   * all of it, ids `above` nearer than the rest of it. Then `r` is nearest overall exactly when
   * nothing is above or `side` alone fills it.
   */
  lemma NearestDespite(r: seq<NodeId>, scanned: set<NodeId>, side: set<NodeId>, below: set<NodeId>, above: set<NodeId>,
                       t: NodeId, k: nat)
    requires IsNearest(r, scanned, t, k) && side <= scanned && above !! scanned
    requires |r| == k || below + above == {}
    requires forall x, y :: x in side && y in (scanned - side) + below + above ==> Dist(x, t) < Dist(y, t)
    requires forall x, y :: x in scanned && y in below ==> Dist(x, t) < Dist(y, t)
    requires forall u, c :: u in above && c in scanned - side ==> Dist(u, t) < Dist(c, t)
    ensures IsNearest(r, scanned + below + above, t, k) <==> above == {} || |side| >= k
  {
    if |side| >= k {
      NearestInside(r, scanned, side, t, k);
    } else if above != {} {
      var c := OneOutside(r, side, t);
      var u :| u in above;
      assert Dist(u, t) < Dist(c, t);
      assert u !in r;
    }
  }

  /* ---- which contact of an id survives ---- */

  /** The contacts with this id, in order. */
  function OfId(s: seq<Contact>, id: NodeId): seq<Contact> {
    if s == [] then [] else if s[0].id == id then [s[0]] + OfId(s[1..], id) else OfId(s[1..], id)
  }

  lemma ConsConcat(c: Contact, a: seq<Contact>, b: seq<Contact>)
    ensures [c] + (a + b) == ([c] + a) + b
  {
  }

  lemma {:induction false} OfIdConcat(s: seq<Contact>, u: seq<Contact>, id: NodeId)
    ensures OfId(s + u, id) == OfId(s, id) + OfId(u, id)
  {
    if s == [] {
      assert s + u == u;
    } else {
      OfIdConcat(s[1..], u, id);
      assert (s + u)[0] == s[0] && (s + u)[1..] == s[1..] + u;
      ConsConcat(s[0], OfId(s[1..], id), OfId(u, id));
    }
  }

  lemma {:induction false} OfIdEmpty(s: seq<Contact>, id: NodeId)
    ensures OfId(s, id) == [] <==> forall c :: c in s ==> c.id != id
    ensures forall c :: c in OfId(s, id) ==> c in s && c.id == id
  {
    if s != [] {
      OfIdEmpty(s[1..], id);
      assert s == [s[0]] + s[1..];
    }
  }

  lemma {:induction false} InsertStable(c: Contact, s: seq<Contact>, t: NodeId, id: NodeId)
    requires Sorted(s, t)
    ensures OfId(InsertSorted(c, s, t), id) == OfId(s, id) + OfId([c], id)
  {
    if s == [] {
    } else if Dist(c.id, t) < Dist(s[0].id, t) {
      OfIdConcat([c], s, id);
      SortedTail(s, t);
      OfIdEmpty(s, c.id);
    } else {
      SortedTail(s, t);
      InsertStable(c, s[1..], t, id);
      OfIdConcat([s[0]], InsertSorted(c, s[1..], t), id);
    }
  }

  /** Sorting keeps contacts of one id in the order they came. */
  lemma {:induction false} SortStable(s: seq<Contact>, t: NodeId, id: NodeId)
    ensures OfId(SortByDistance(s, t), id) == OfId(s, id)
  {
    if s != [] {
      var n := |s| - 1;
      SortStable(s[..n], t, id);
      SortSorted(s[..n], t);
      InsertStable(s[n], SortByDistance(s[..n], t), t, id);
      OfIdConcat(s[..n], [s[n]], id);
      assert s == s[..n] + [s[n]];
    }
  }

  /** `c` is the first contact of its id in `s`. */
  ghost predicate FirstOf(c: Contact, s: seq<Contact>) {
    OfId(s, c.id) != [] && OfId(s, c.id)[0] == c
  }

  lemma {:induction false} DedupFirst(s: seq<Contact>, id: NodeId)
    ensures OfId(s, id) == [] <==> OfId(DedupById(s), id) == []
    ensures OfId(s, id) != [] ==> OfId(DedupById(s), id)[0] == OfId(s, id)[0]
    decreases |s|
  {
    if |s| > 1 {
      if s[0].id == s[1].id {
        DedupFirst([s[0]] + s[2..], id);
        OfIdConcat([s[0]], s[2..], id);
        OfIdConcat([s[0], s[1]], s[2..], id);
        assert s == [s[0], s[1]] + s[2..];
        assert [s[0], s[1]][1..] == [s[1]];
      } else {
        DedupFirst(s[1..], id);
        OfIdConcat([s[0]], DedupById(s[1..]), id);
      }
    }
  }

  lemma DistinctFirst(s: seq<Contact>, c: Contact)
    requires DistinctIds(s) && c in s
    ensures OfId(s, c.id) == [c]
  {
    var i :| 0 <= i < |s| && s[i] == c;
    assert s == s[..i] + ([c] + s[i + 1..]);
    OfIdConcat(s[..i], [c] + s[i + 1..], c.id);
    OfIdConcat([c], s[i + 1..], c.id);
    OfIdEmpty(s[..i], c.id);
    OfIdEmpty(s[i + 1..], c.id);
  }

  lemma AscendingDistinct(s: seq<Contact>, t: NodeId)
    requires Ascending(Ids(s), t)
    ensures DistinctIds(s)
  {
    forall i, j | 0 <= i < j < |s| ensures s[i].id != s[j].id {
      assert Dist(Ids(s)[i], t) < Dist(Ids(s)[j], t);
    }
  }

  /** Of the contacts offered under one id, settling keeps the first. */
  lemma SettleFirst(s: seq<Contact>, t: NodeId, k: nat, c: Contact)
    requires c in Settle(s, t, k)
    ensures FirstOf(c, s)
  {
    var u := SortByDistance(s, t);
    SortSpec(s, t);
    SortStable(s, t, c.id);
    DedupFirst(u, c.id);
    DedupAscending(u, t);
    AscendingDistinct(DedupById(u), t);
    DistinctFirst(DedupById(u), c);
  }

  /** An id among the k nearest of a larger pool was among the k nearest of any part it is in. */
  lemma NearestOfPart(r: seq<NodeId>, part: set<NodeId>, q: seq<NodeId>, whole: set<NodeId>, t: NodeId, k: nat, x: NodeId)
    requires IsNearest(r, part, t, k) && IsNearest(q, whole, t, k) && part <= whole
    requires x in q && x in part
    ensures x in r
  {
    AscendingSize(r, t);
    AscendingSize(q, t);
    if x !in r {
      assert |Elems(r) + {x}| == k + 1;
      assert forall y :: y in r ==> Dist(y, t) < Dist(x, t);
      SubsetSize(Elems(r) + {x}, Elems(q));
    }
  }

  /** Settling early loses nothing: neither an id nor the contact first offered for it. */
  lemma SettleMerge(h: seq<Contact>, n: seq<Contact>, t: NodeId, k: nat)
    ensures Settle(Settle(h, t, k) + n, t, k) == Settle(h + n, t, k)
  {
    var front := Settle(h, t, k);
    var a, b := Settle(front + n, t, k), Settle(h + n, t, k);
    SettleNearest(h, t, k);
    SettleNearest(front + n, t, k);
    SettleNearest(h + n, t, k);
    IdSetConcat(front, n);
    IdSetConcat(h, n);
    MergedIds(front, h, n, t, k);
    NearestUnique(Ids(a), Ids(b), IdSet(h) + IdSet(n), t, k);
    forall i | 0 <= i < |a| ensures a[i] == b[i] {
      assert Ids(a)[i] == Ids(b)[i];
      SameFirst(h, n, t, k, a[i], b[i]);
    }
  }

  lemma MergedIds(front: seq<Contact>, h: seq<Contact>, n: seq<Contact>, t: NodeId, k: nat)
    requires IsNearest(Ids(front), IdSet(h), t, k)
    ensures IsNearest(Ids(Settle(front + n, t, k)), IdSet(h) + IdSet(n), t, k)
  {
    SettleNearest(front + n, t, k);
    IdSetConcat(front, n);
    IdsAreIdSet(front);
    NearestMerge(Ids(front), IdSet(h), IdSet(n), Ids(Settle(front + n, t, k)), t, k);
  }

  /** A settled contact whose id was already offered in `h` was settled from `h` already. */
  lemma SettledBefore(h: seq<Contact>, n: seq<Contact>, t: NodeId, k: nat, c: Contact)
    requires c in Settle(h + n, t, k) && c.id in IdSet(h)
    ensures c in Settle(h, t, k)
  {
    var front := Settle(h, t, k);
    SettleNearest(h, t, k);
    SettleNearest(h + n, t, k);
    IdSetConcat(h, n);
    InIds(Settle(h + n, t, k), c);
    NearestOfPart(Ids(front), IdSet(h), Ids(Settle(h + n, t, k)), IdSet(h + n), t, k, c.id);
    var i :| 0 <= i < |front| && Ids(front)[i] == c.id;
    SettleFirst(h, t, k, front[i]);
    SettleFirst(h + n, t, k, c);
    OfIdConcat(h, n, c.id);
  }

  lemma SameFirst(h: seq<Contact>, n: seq<Contact>, t: NodeId, k: nat, c: Contact, d: Contact)
    requires c in Settle(Settle(h, t, k) + n, t, k) && d in Settle(h + n, t, k) && c.id == d.id
    ensures c == d
  {
    var front := Settle(h, t, k);
    SettleFirst(front + n, t, k, c);
    OfIdConcat(front, n, c.id);
    SettleNearest(h, t, k);
    if d.id in IdSet(h) {
      SettledBefore(h, n, t, k, d);
      DistinctFirst(front, d);
    } else {
      SettleFirst(h + n, t, k, d);
      OfIdConcat(h, n, d.id);
      OfIdEmpty(h, d.id);
      OfIdEmpty(front, d.id);
    }
  }

  lemma IdsAreIdSet(s: seq<Contact>)
    ensures (set x | x in Ids(s)) == IdSet(s)
  {
    forall x | x in IdSet(s) ensures x in Ids(s) {
      var i :| 0 <= i < |s| && s[i].id == x;
      assert Ids(s)[i] == x;
    }
  }

  lemma InIds(s: seq<Contact>, c: Contact)
    requires c in s
    ensures c.id in Ids(s)
  {
    var i :| 0 <= i < |s| && s[i] == c;
    assert Ids(s)[i] == c.id;
  }
}
