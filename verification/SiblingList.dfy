/** The nearest contacts, kept beside the buckets: the two layers of the routing table. */
module SiblingList {
  import opened Keys
  import opened Metric
  import opened Nearest
  import opened StaticBucket

  /** The sibling list over its fallback buckets. */
  datatype Layers = Layers(siblings: seq<Contact>, buckets: Buckets)

  /** Fixed parameters: our id, the bucket size and the number of siblings. */
  datatype Config = Config(me: NodeId, size: nat, siblings: nat)

  /** How many leading siblings are nearer than `id`. */
  ghost function PartitionPoint(s: seq<Contact>, id: NodeId, me: NodeId): (i: nat)
    ensures i <= |s|
    ensures forall j :: 0 <= j < i ==> Dist(s[j].id, me) < Dist(id, me)
    ensures i < |s| ==> Dist(s[i].id, me) >= Dist(id, me)
  {
    if s == [] || Dist(s[0].id, me) >= Dist(id, me) then 0 else 1 + PartitionPoint(s[1..], id, me)
  }

  ghost function AddSibling(s: seq<Contact>, me: NodeId, cap: nat, c: Contact): seq<Contact> {
    var known := Position(s, c.id);
    if known < |s| then s[known := c]
    else
      var pos := PartitionPoint(s, c.id, me);
      if |s| < cap then Splice(s, pos, c)
      else if pos == |s| then s
      else Splice(s[..|s| - 1], pos, c)
  }

  ghost function RemoveSibling(s: seq<Contact>, c: Contact): seq<Contact> {
    var i := IndexOf(s, c);
    if i < |s| then s[..i] + s[i + 1..] else s
  }

  ghost function Add(l: Layers, g: Config, c: Contact): Layers
    requires |l.buckets| > 0
  {
    if c.id == g.me then l
    else Layers(AddSibling(l.siblings, g.me, g.siblings, c), AddContact(l.buckets, g.me, g.size, c))
  }

  ghost function Remove(l: Layers, g: Config, c: Contact): Layers
    requires |l.buckets| > 0
  {
    Layers(RemoveSibling(l.siblings, c), RemoveContact(l.buckets, g.me, c))
  }

  ghost function CloseNodes(l: Layers, g: Config, t: NodeId): seq<Contact>
    requires |l.buckets| > 0
  {
    Settle(CloseNodesOf(l.buckets, g.me, t) + l.siblings, t, K)
  }

  /** Everything `contacts_iter` yields, siblings first. */
  function Listing(l: Layers): seq<Contact> {
    l.siblings + Flatten(l.buckets)
  }

  /** The distinct ids the table knows. */
  function Known(l: Layers): set<NodeId> {
    IdSet(Listing(l))
  }

  ghost predicate SiblingsOk(s: seq<Contact>, me: NodeId, cap: nat) {
    Ascending(Ids(s), me) && |s| <= cap && me !in Ids(s)
  }

  /** What every add and remove keeps: both layers in order, and one address per id. */
  ghost predicate LayersOk(l: Layers, g: Config) {
    && BucketsOk(g.me, g.size, l.buckets)
    && SiblingsOk(l.siblings, g.me, g.siblings)
    && forall s, c :: s in l.siblings && c in Flatten(l.buckets) && s.id == c.id ==> s == c
  }

  /* ---- one sibling step ---- */

  function Splice(s: seq<Contact>, pos: nat, c: Contact): seq<Contact>
    requires pos <= |s|
  {
    s[..pos] + [c] + s[pos..]
  }

  lemma SpliceTail(s: seq<Contact>, p: nat, c: Contact)
    requires p < |s|
    ensures Splice(s, p + 1, c) == [s[0]] + Splice(s[1..], p, c)
  {
  }

  /** Inserting at the partition point is the sorted insertion. */
  lemma {:induction false} InsertAtPartition(s: seq<Contact>, c: Contact, me: NodeId)
    requires forall i :: 0 <= i < |s| ==> s[i].id != c.id
    ensures Splice(s, PartitionPoint(s, c.id, me), c) == InsertSorted(c, s, me)
  {
    if s == [] {
    } else if Dist(s[0].id, me) < Dist(c.id, me) {
      InsertAtPartition(s[1..], c, me);
      SpliceTail(s, PartitionPoint(s[1..], c.id, me), c);
    } else {
      if Dist(s[0].id, me) == Dist(c.id, me) { DistInjective(s[0].id, c.id, me); }
      assert Splice(s, 0, c) == [c] + s;
    }
  }

  lemma SpliceTruncates(s: seq<Contact>, pos: nat, c: Contact)
    requires pos <= |s|
    ensures Truncate(Splice(s, pos, c), |s|) == if pos == |s| then s else Splice(s[..|s| - 1], pos, c)
  {
  }

  /** Offering an unknown contact inserts it in order and keeps the first `cap`. */
  lemma AddSiblingTruncates(s: seq<Contact>, me: NodeId, cap: nat, c: Contact)
    requires |s| <= cap && c.id !in IdSet(s)
    ensures AddSibling(s, me, cap, c) == Truncate(InsertSorted(c, s, me), cap)
  {
    var pos := PartitionPoint(s, c.id, me);
    InsertAtPartition(s, c, me);
    SpliceTruncates(s, pos, c);
    assert |Splice(s, pos, c)| == |s| + 1;
  }

  lemma InsertionContents(s: seq<Contact>, me: NodeId, c: Contact)
    ensures multiset(InsertSorted(c, s, me)) == multiset(s + [c])
    ensures IdSet(InsertSorted(c, s, me)) == IdSet(s) + {c.id}
    ensures forall x :: x in InsertSorted(c, s, me) <==> x == c || x in s
  {
    InsertSortedElements(c, s, me);
    SameElements(InsertSorted(c, s, me), s + [c]);
    IdSetConcat(s, [c]);
  }

  lemma SortedInsertion(s: seq<Contact>, me: NodeId, c: Contact)
    requires Ascending(Ids(s), me) && c.id !in IdSet(s)
    ensures Ascending(Ids(InsertSorted(c, s, me)), me)
  {
    AscendingDistinct(s, me);
    AscendingSorted(s, me);
    InsertSortedSorted(c, s, me);
    InsertionContents(s, me, c);
    assert DistinctIds(s + [c]);
    DistinctPermutation(s + [c], InsertSorted(c, s, me));
    SortedDistinctAscending(InsertSorted(c, s, me), me);
  }

  lemma AscendingSorted(s: seq<Contact>, me: NodeId)
    requires Ascending(Ids(s), me)
    ensures Sorted(s, me)
  {
    forall i, j | 0 <= i < j < |s|
      ensures Dist(s[i].id, me) <= Dist(s[j].id, me)
    {
      assert Dist(Ids(s)[i], me) < Dist(Ids(s)[j], me);
    }
  }

  lemma SortedDistinctAscending(r: seq<Contact>, me: NodeId)
    requires Sorted(r, me) && DistinctIds(r)
    ensures Ascending(Ids(r), me)
  {
    forall i, j | 0 <= i < j < |r|
      ensures Dist(Ids(r)[i], me) < Dist(Ids(r)[j], me)
    {
      if Dist(r[i].id, me) == Dist(r[j].id, me) { DistInjective(r[i].id, r[j].id, me); }
    }
  }

  lemma AddUnknownNearest(s: seq<Contact>, me: NodeId, cap: nat, c: Contact)
    requires Ascending(Ids(s), me) && |s| <= cap && c.id !in IdSet(s)
    ensures IsNearest(Ids(AddSibling(s, me, cap, c)), IdSet(s) + {c.id}, me, cap)
    ensures forall x :: x in AddSibling(s, me, cap, c) ==> x == c || (x in s && x.id != c.id)
  {
    AddSiblingTruncates(s, me, cap, c);
    SortedInsertion(s, me, c);
    InsertionContents(s, me, c);
    TruncateNearest(InsertSorted(c, s, me), me, cap);
    IdSetMembers(s);
  }

  lemma AddKnownNearest(s: seq<Contact>, me: NodeId, cap: nat, c: Contact)
    requires Ascending(Ids(s), me) && |s| <= cap && c.id in IdSet(s)
    ensures IsNearest(Ids(AddSibling(s, me, cap, c)), IdSet(s) + {c.id}, me, cap)
    ensures forall x :: x in AddSibling(s, me, cap, c) ==> x == c || (x in s && x.id != c.id)
  {
    AscendingDistinct(s, me);
    assert Ids(AddSibling(s, me, cap, c)) == Ids(s);
    TruncateNearest(s, me, cap);
    assert IdSet(s) + {c.id} == IdSet(s);
  }

  /** After offering `c`, the siblings are the nearest of what they were and `c`. */
  lemma AddSiblingNearest(s: seq<Contact>, me: NodeId, cap: nat, c: Contact)
    requires Ascending(Ids(s), me) && |s| <= cap
    ensures IsNearest(Ids(AddSibling(s, me, cap, c)), IdSet(s) + {c.id}, me, cap)
    ensures forall x :: x in AddSibling(s, me, cap, c) ==> x == c || (x in s && x.id != c.id)
  {
    if c.id in IdSet(s) {
      AddKnownNearest(s, me, cap, c);
    } else {
      AddUnknownNearest(s, me, cap, c);
    }
  }

  lemma IdsMembers(s: seq<Contact>)
    ensures forall x :: x in Ids(s) <==> x in IdSet(s)
  {
    forall x | x in IdSet(s) ensures x in Ids(s) {
      var i :| 0 <= i < |s| && s[i].id == x;
      assert Ids(s)[i] == x;
    }
  }

  lemma AddSiblingOk(s: seq<Contact>, me: NodeId, cap: nat, c: Contact)
    requires SiblingsOk(s, me, cap) && c.id != me
    ensures SiblingsOk(AddSibling(s, me, cap, c), me, cap)
  {
    AddSiblingNearest(s, me, cap, c);
    IdsMembers(s);
  }

  lemma DropOne(s: seq<Contact>, i: nat, me: NodeId)
    requires Ascending(Ids(s), me) && i < |s|
    ensures Ascending(Ids(s[..i] + s[i + 1..]), me)
  {
    var r := s[..i] + s[i + 1..];
    forall a, b | 0 <= a < b < |r|
      ensures Dist(Ids(r)[a], me) < Dist(Ids(r)[b], me)
    {
      assert Dist(Ids(s)[if a < i then a else a + 1], me) < Dist(Ids(s)[if b < i then b else b + 1], me);
    }
  }

  lemma RemoveSiblingOk(s: seq<Contact>, me: NodeId, cap: nat, c: Contact)
    requires SiblingsOk(s, me, cap)
    ensures SiblingsOk(RemoveSibling(s, c), me, cap)
    ensures forall x :: x in RemoveSibling(s, c) <==> x in s && x != c
  {
    AscendingDistinct(s, me);
    var i := IndexOf(s, c);
    var r := RemoveSibling(s, c);
    if i < |s| {
      DropOne(s, i, me);
      IdsMembers(s);
      IdsMembers(r);
      assert s == s[..i] + [s[i]] + s[i + 1..];
      assert c !in s[..i] && c !in s[i + 1..];
      IdSetMembers(r);
      IdSetMembers(s);
    }
  }

  /* ---- both layers ---- */

  lemma AddKeeps(l: Layers, g: Config, c: Contact)
    requires LayersOk(l, g)
    ensures LayersOk(Add(l, g, c), g)
  {
    if c.id != g.me {
      AddSiblingOk(l.siblings, g.me, g.siblings, c);
      AddSiblingNearest(l.siblings, g.me, g.siblings, c);
      AddFlatten(l.buckets, g.me, g.size, c);
      IdSetMembers(Flatten(l.buckets));
    }
  }

  lemma RemoveKeeps(l: Layers, g: Config, c: Contact)
    requires LayersOk(l, g)
    ensures LayersOk(Remove(l, g, c), g)
    ensures forall x :: x in Listing(Remove(l, g, c)) <==> x in Listing(l) && x != c
  {
    RemoveSiblingOk(l.siblings, g.me, g.siblings, c);
    RemoveFlatten(l.buckets, g.me, g.size, c);
  }

  /** An id in both layers leaves both or neither. */
  lemma RemoveHitsBothOrNeither(l: Layers, g: Config, c: Contact, id: NodeId)
    requires LayersOk(l, g)
    requires id in IdSet(l.siblings) && id in IdSet(Flatten(l.buckets))
    ensures var r := Remove(l, g, c); id in IdSet(r.siblings) <==> id in IdSet(Flatten(r.buckets))
    ensures var r := Remove(l, g, c); id in Known(r) <==> c !in Listing(l) || c.id != id
  {
    var r := Remove(l, g, c);
    RemoveSiblingOk(l.siblings, g.me, g.siblings, c);
    RemoveFlatten(l.buckets, g.me, g.size, c);
    AscendingDistinct(l.siblings, g.me);
    AscendingDistinct(r.siblings, g.me);
    IdSetMembers(l.siblings);
    IdSetMembers(Flatten(l.buckets));
    IdSetMembers(r.siblings);
    IdSetMembers(Flatten(r.buckets));
    IdSetConcat(r.siblings, Flatten(r.buckets));
    var s :| s in l.siblings && s.id == id;
    assert s in Flatten(l.buckets);
    TableDistinct(l.buckets, g.me, g.size);
    if s != c {
      assert s in r.siblings && s in Flatten(r.buckets);
    } else {
      assert forall x :: x in l.siblings && x.id == id ==> x == c;
      assert forall x :: x in Flatten(l.buckets) && x.id == id ==> x == c;
    }
  }
}
