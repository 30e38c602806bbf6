/** The two-layer routing table as an object, and what holds over whole histories of it. */
module RoutingTable {
  import opened Wrappers
  import opened Keys
  import opened Metric
  import opened Nearest
  import opened StaticBucket
  import opened SiblingList

  /* ---- histories ---- */

  /** What happens to a table: a contact is offered, removed, or forgotten after a failed call. */
  datatype Op = Offer(contact: Contact) | Drop(contact: Contact) | Forget(contact: Contact)

  /** `Rpc::forget`: removes only while the table holds more than K distinct ids. */
  ghost function ForgetIn(l: Layers, g: Config, c: Contact): Layers
    requires |l.buckets| > 0
  {
    if |Known(l)| > K then Remove(l, g, c) else l
  }

  ghost function Step(l: Layers, g: Config, op: Op): (r: Layers)
    requires |l.buckets| > 0
    ensures |r.buckets| == |l.buckets|
  {
    match op
    case Offer(c) => Add(l, g, c)
    case Drop(c) => Remove(l, g, c)
    case Forget(c) => ForgetIn(l, g, c)
  }

  ghost function Run(l: Layers, g: Config, ops: seq<Op>): (r: Layers)
    requires |l.buckets| > 0
    ensures |r.buckets| == |l.buckets|
  {
    if ops == [] then l else Step(Run(l, g, ops[..|ops| - 1]), g, ops[|ops| - 1])
  }

  lemma RunOne(l: Layers, g: Config, ops: seq<Op>, op: Op)
    requires |l.buckets| > 0
    ensures Run(l, g, ops + [op]) == Step(Run(l, g, ops), g, op)
  {
    assert (ops + [op])[..|ops|] == ops;
  }

  lemma {:induction false} RunConcat(l: Layers, g: Config, a: seq<Op>, b: seq<Op>)
    requires |l.buckets| > 0
    ensures Run(l, g, a + b) == Run(Run(l, g, a), g, b)
    decreases |b|
  {
    if b == [] {
      assert a + b == a;
    } else {
      var n := |b| - 1;
      RunConcat(l, g, a, b[..n]);
      RunOne(l, g, a + b[..n], b[n]);
      assert a + b == a + b[..n] + [b[n]];
    }
  }

  /** Each contact offered in turn. */
  function Offers(s: seq<Contact>): (ops: seq<Op>)
    ensures |ops| == |s| && forall i :: 0 <= i < |s| ==> ops[i] == Offer(s[i])
  {
    seq(|s|, i requires 0 <= i < |s| => Offer(s[i]))
  }

  function Empty(count: nat): Layers {
    Layers([], seq(count, _ => []))
  }

  lemma EmptyOk(g: Config, count: nat)
    requires 0 < count <= ID_BITS
    ensures LayersOk(Empty(count), g)
    ensures Known(Empty(count)) == {}
  {
    var b := Empty(count).buckets;
    forall c ensures c !in Flatten(b) { FlattenMembers(b, c); }
    assert Listing(Empty(count)) == Flatten(b);
    IdSetMembers(Flatten(b));
  }

  lemma StepKeeps(l: Layers, g: Config, op: Op)
    requires LayersOk(l, g)
    ensures LayersOk(Step(l, g, op), g)
  {
    AddKeeps(l, g, op.contact);
    RemoveKeeps(l, g, op.contact);
  }

  /** Both layers stay in order and agree on addresses, through every history. */
  lemma {:induction false} RunKeeps(l: Layers, g: Config, ops: seq<Op>)
    requires LayersOk(l, g)
    ensures LayersOk(Run(l, g, ops), g)
  {
    if ops != [] {
      RunKeeps(l, g, ops[..|ops| - 1]);
      StepKeeps(Run(l, g, ops[..|ops| - 1]), g, ops[|ops| - 1]);
    }
  }

  /* ---- what an offer can lose ---- */

  lemma KnownLayers(l: Layers)
    ensures Known(l) == IdSet(l.siblings) + IdSet(Flatten(l.buckets))
  {
    IdSetConcat(l.siblings, Flatten(l.buckets));
  }

  lemma AddBucketIds(b: Buckets, g: Config, c: Contact)
    requires BucketsOk(g.me, g.size, b)
    ensures IdSet(Flatten(AddContact(b, g.me, g.size, c)))
            == IdSet(Flatten(b)) + if Admits(b, g.me, g.size, c) then {c.id} else {}
  {
    var r := AddContact(b, g.me, g.size, c);
    AddFlatten(b, g.me, g.size, c);
    IdSetMembers(Flatten(b));
    IdSetMembers(Flatten(r));
    if Admits(b, g.me, g.size, c) {
      assert c in Flatten(r);
    }
  }

  /** Offering `id` pushes the last sibling out: the list is full, and `id` is new to it and nearer. */
  ghost predicate PushesOut(s: seq<Contact>, g: Config, id: NodeId) {
    id !in IdSet(s) && |s| == g.siblings > 0 && Dist(id, g.me) < Dist(s[|s| - 1].id, g.me)
  }

  /** The ids `s` holds after `c` was offered, when that pushes the last one out. */
  lemma IdsAfterPush(s: seq<Contact>, g: Config, c: Contact)
    requires SiblingsOk(s, g.me, g.siblings) && PushesOut(s, g, c.id) && c.id != g.me
    ensures SiblingsOk(AddSibling(s, g.me, g.siblings, c), g.me, g.siblings)
    ensures IdSet(AddSibling(s, g.me, g.siblings, c)) == IdSet(s) + {c.id} - {s[|s| - 1].id}
    ensures |AddSibling(s, g.me, g.siblings, c)| == g.siblings
  {
    var r := AddSibling(s, g.me, g.siblings, c);
    AddSiblingNearest(s, g.me, g.siblings, c);
    AddSiblingOk(s, g.me, g.siblings, c);
    AscendingDistinct(s, g.me);
    IdSetSize(s);
    NearestLength(Ids(r), IdSet(s) + {c.id}, g.me, g.siblings);
    EvictedIds(s, c.id, g.me, g.siblings, Ids(r));
    IdsMembers(r);
  }

  /** And when it does not. */
  lemma IdsAfterOffer(s: seq<Contact>, g: Config, c: Contact)
    requires SiblingsOk(s, g.me, g.siblings) && !PushesOut(s, g, c.id)
    ensures var r := IdSet(AddSibling(s, g.me, g.siblings, c)); IdSet(s) <= r <= IdSet(s) + {c.id}
  {
    if c.id in IdSet(s) {
      RefreshedIds(s, g, c);
    } else {
      var r := AddSibling(s, g.me, g.siblings, c);
      AddSiblingNearest(s, g.me, g.siblings, c);
      IdsAreIdSet(r);
      KeptIds(s, c.id, g.me, g.siblings, Ids(r));
    }
  }

  lemma KeptIds(s: seq<Contact>, id: NodeId, me: NodeId, cap: nat, r: seq<NodeId>)
    requires Ascending(Ids(s), me) && |s| <= cap && id !in IdSet(s)
    requires |s| == cap > 0 ==> Dist(id, me) >= Dist(s[cap - 1].id, me)
    requires IsNearest(r, IdSet(s) + {id}, me, cap)
    ensures IdSet(s) <= Elems(r) <= IdSet(s) + {id}
  {
    if |s| == cap { NoRoomIds(s, id, me, cap, r); } else { RoomIds(s, id, me, cap, r); }
  }

  lemma RefreshedIds(s: seq<Contact>, g: Config, c: Contact)
    requires c.id in IdSet(s)
    ensures IdSet(AddSibling(s, g.me, g.siblings, c)) == IdSet(s)
  {
    var r := AddSibling(s, g.me, g.siblings, c);
    assert Ids(r) == Ids(s);
    IdsMembers(r);
    IdsMembers(s);
  }

  lemma RoomIds(s: seq<Contact>, id: NodeId, me: NodeId, cap: nat, r: seq<NodeId>)
    requires Ascending(Ids(s), me) && |s| < cap && id !in IdSet(s)
    requires IsNearest(r, IdSet(s) + {id}, me, cap)
    ensures Elems(r) == IdSet(s) + {id}
  {
    AscendingDistinct(s, me);
    IdSetSize(s);
    NearestLength(r, IdSet(s) + {id}, me, cap);
    AscendingSize(r, me);
    SubsetSize(Elems(r), IdSet(s) + {id});
  }

  lemma LastIsFarthest(s: seq<Contact>, me: NodeId, x: NodeId)
    requires Ascending(Ids(s), me) && x in IdSet(s)
    ensures Dist(x, me) <= Dist(s[|s| - 1].id, me)
  {
    var i :| 0 <= i < |s| && s[i].id == x;
    if i < |s| - 1 { assert Dist(Ids(s)[i], me) < Dist(Ids(s)[|s| - 1], me); }
  }

  lemma EvictedIds(s: seq<Contact>, id: NodeId, me: NodeId, cap: nat, r: seq<NodeId>)
    requires Ascending(Ids(s), me) && |s| == cap > 0 && id !in IdSet(s)
    requires Dist(id, me) < Dist(s[cap - 1].id, me)
    requires IsNearest(r, IdSet(s) + {id}, me, cap) && |r| == cap
    ensures Elems(r) == IdSet(s) + {id} - {s[cap - 1].id}
  {
    var last := s[cap - 1].id;
    var pool := IdSet(s) + {id};
    AscendingDistinct(s, me);
    IdSetSize(s);
    AscendingSize(r, me);
    assert |pool| == cap + 1;
    if last in r {
      forall x | x in pool ensures x in Elems(r) {
        LastNotBeyond(s, id, me, x);
      }
      SubsetSize(pool, Elems(r));
    }
    SubsetSize(Elems(r), pool - {last});
  }

  lemma LastNotBeyond(s: seq<Contact>, id: NodeId, me: NodeId, x: NodeId)
    requires Ascending(Ids(s), me) && s != [] && Dist(id, me) < Dist(s[|s| - 1].id, me)
    requires x in IdSet(s) + {id}
    ensures Dist(x, me) <= Dist(s[|s| - 1].id, me)
  {
    if x in IdSet(s) { LastIsFarthest(s, me, x); }
  }

  lemma NoRoomIds(s: seq<Contact>, id: NodeId, me: NodeId, cap: nat, r: seq<NodeId>)
    requires Ascending(Ids(s), me) && |s| == cap && id !in IdSet(s)
    requires cap > 0 ==> Dist(id, me) >= Dist(s[cap - 1].id, me)
    requires IsNearest(r, IdSet(s) + {id}, me, cap)
    ensures Elems(r) >= IdSet(s)
  {
    forall x | x in IdSet(s)
      ensures x in r
    {
      LastIsFarthest(s, me, x);
      if x !in r {
        AscendingDistinct(s, me);
        IdSetSize(s);
        AscendingSize(r, me);
        SubsetSize(Elems(r), IdSet(s) - {x});
      }
    }
  }

  lemma LossOfPush(a: set<NodeId>, a': set<NodeId>, b: set<NodeId>, b': set<NodeId>, x: NodeId, last: NodeId)
    requires last in a && last != x && a' == a + {x} - {last} && b <= b' <= b + {x}
    ensures (a + b) - (a' + b') == if last in b then {} else {last}
  {
  }

  /** The sibling an offer of `c` loses altogether: pushed out, and in no bucket. */
  ghost predicate Loses(l: Layers, g: Config, c: Contact) {
    PushesOut(l.siblings, g, c.id) && l.siblings[|l.siblings| - 1].id !in IdSet(Flatten(l.buckets))
  }

  lemma PushLoses(l: Layers, g: Config, c: Contact)
    requires LayersOk(l, g) && c.id != g.me && PushesOut(l.siblings, g, c.id)
    ensures Known(l) - Known(Add(l, g, c)) == if Loses(l, g, c) then {l.siblings[|l.siblings| - 1].id} else {}
  {
    var r := Add(l, g, c);
    var last := l.siblings[|l.siblings| - 1].id;
    KnownLayers(l);
    KnownLayers(r);
    AddBucketIds(l.buckets, g, c);
    IdsAfterPush(l.siblings, g, c);
    LossOfPush(IdSet(l.siblings), IdSet(r.siblings), IdSet(Flatten(l.buckets)), IdSet(Flatten(r.buckets)), c.id, last);
  }

  lemma OfferKeepsKnown(l: Layers, g: Config, c: Contact)
    requires LayersOk(l, g) && !PushesOut(l.siblings, g, c.id)
    ensures Known(l) <= Known(Add(l, g, c))
  {
    if c.id != g.me {
      KnownLayers(l);
      KnownLayers(Add(l, g, c));
      AddBucketIds(l.buckets, g, c);
      IdsAfterOffer(l.siblings, g, c);
    }
  }

  /** An offer loses an id exactly when it pushes out a sibling that no bucket kept. */
  lemma OfferLoses(l: Layers, g: Config, c: Contact)
    requires LayersOk(l, g) && c.id != g.me
    ensures Known(l) - Known(Add(l, g, c)) == if Loses(l, g, c) then {l.siblings[|l.siblings| - 1].id} else {}
  {
    if PushesOut(l.siblings, g, c.id) { PushLoses(l, g, c); } else { OfferKeepsKnown(l, g, c); }
  }

  lemma KnownAtLeastSiblings(l: Layers, g: Config)
    requires SiblingsOk(l.siblings, g.me, g.siblings)
    ensures |Known(l)| >= |l.siblings|
  {
    AscendingDistinct(l.siblings, g.me);
    IdSetSize(l.siblings);
    KnownLayers(l);
    SubsetSize(IdSet(l.siblings), Known(l));
  }

  /* ---- the floor ---- */

  /** Offering never takes a table below `K` ids, although it may lose one. */
  lemma OfferFloor(l: Layers, g: Config, c: Contact)
    requires LayersOk(l, g) && g.siblings >= K
    ensures |Known(Add(l, g, c))| >= if |Known(l)| < K then |Known(l)| else K
  {
    if c.id != g.me {
      if PushesOut(l.siblings, g, c.id) {
        IdsAfterPush(l.siblings, g, c);
        KnownAtLeastSiblings(Add(l, g, c), g);
      } else {
        OfferKeepsKnown(l, g, c);
        SubsetSize(Known(l), Known(Add(l, g, c)));
      }
    }
  }

  lemma RemoveKnown(l: Layers, g: Config, c: Contact)
    requires LayersOk(l, g)
    ensures Known(Remove(l, g, c)) >= Known(l) - {c.id}
    ensures |Known(Remove(l, g, c))| >= |Known(l)| - 1
  {
    var r := Remove(l, g, c);
    RemoveKeeps(l, g, c);
    IdSetMembers(Listing(l));
    IdSetMembers(Listing(r));
    SubsetSize(Known(l) - {c.id}, Known(r));
  }

  lemma ForgetFloor(l: Layers, g: Config, c: Contact)
    requires LayersOk(l, g)
    ensures |Known(ForgetIn(l, g, c))| >= if |Known(l)| < K then |Known(l)| else K
  {
    RemoveKnown(l, g, c);
  }

  ghost predicate NoDrops(ops: seq<Op>) {
    forall i :: 0 <= i < |ops| ==> !ops[i].Drop?
  }

  lemma NoDropsConcat(a: seq<Op>, b: seq<Op>)
    requires NoDrops(a) && NoDrops(b)
    ensures NoDrops(a + b)
  {
  }

  /** Through any history of offers and forgets, a table that reached K ids keeps at least K. */
  lemma {:induction false} TableFloor(l: Layers, g: Config, ops: seq<Op>)
    requires LayersOk(l, g) && g.siblings >= K && NoDrops(ops)
    ensures |Known(Run(l, g, ops))| >= if |Known(l)| < K then |Known(l)| else K
  {
    if ops != [] {
      var n := |ops| - 1;
      var m := Run(l, g, ops[..n]);
      TableFloor(l, g, ops[..n]);
      RunKeeps(l, g, ops[..n]);
      OfferFloor(m, g, ops[n].contact);
      ForgetFloor(m, g, ops[n].contact);
    }
  }

  /* ---- exactness of the sibling list ---- */

  ghost predicate OnlyOffers(ops: seq<Op>) {
    forall i :: 0 <= i < |ops| ==> ops[i].Offer?
  }

  /** The ids other than ours that were offered. */
  ghost function Offered(ops: seq<Op>, me: NodeId): set<NodeId> {
    set i | 0 <= i < |ops| && ops[i].contact.id != me :: ops[i].contact.id
  }

  /** The last contact offered under `id`. */
  ghost function LastOffer(ops: seq<Op>, id: NodeId): Contact
    requires exists i :: 0 <= i < |ops| && ops[i].contact.id == id
  {
    var n := |ops| - 1;
    if ops[n].contact.id == id then ops[n].contact
    else
      assert exists i :: 0 <= i < |ops[..n]| && ops[..n][i].contact.id == id by {
        var i :| 0 <= i < |ops| && ops[i].contact.id == id;
        assert ops[..n][i].contact.id == id;
      }
      LastOffer(ops[..n], id)
  }

  lemma OfferedStep(ops: seq<Op>, me: NodeId)
    requires ops != []
    ensures var n := |ops| - 1;
            Offered(ops, me) == Offered(ops[..n], me) + if ops[n].contact.id == me then {} else {ops[n].contact.id}
  {
    var n := |ops| - 1;
    assert forall i :: 0 <= i < n ==> ops[..n][i] == ops[i];
    forall x | x in Offered(ops, me)
      ensures x in Offered(ops[..n], me) + if ops[n].contact.id == me then {} else {ops[n].contact.id}
    {
      var i :| 0 <= i < |ops| && ops[i].contact.id != me && x == ops[i].contact.id;
      if i < n { assert ops[..n][i].contact.id == x; }
    }
    forall x | x in Offered(ops[..n], me)
      ensures x in Offered(ops, me)
    {
      var i :| 0 <= i < n && ops[..n][i].contact.id != me && x == ops[..n][i].contact.id;
      assert ops[i].contact.id == x;
    }
  }

  /** With offers only, the siblings are exactly the nearest ids ever offered. */
  lemma {:induction false} SiblingExactness(l: Layers, g: Config, ops: seq<Op>)
    requires LayersOk(l, g) && Known(l) == {} && OnlyOffers(ops)
    ensures IsNearest(Ids(Run(l, g, ops).siblings), Offered(ops, g.me), g.me, g.siblings)
    ensures Known(Run(l, g, ops)) <= Offered(ops, g.me)
  {
    if ops == [] {
      KnownLayers(l);
      IdsMembers(l.siblings);
      assert forall x :: x !in Ids(l.siblings);
    } else {
      var n := |ops| - 1;
      var m, c := Run(l, g, ops[..n]), ops[n].contact;
      SiblingExactness(l, g, ops[..n]);
      RunKeeps(l, g, ops[..n]);
      OfferedStep(ops, g.me);
      if c.id != g.me {
        AddSiblingNearest(m.siblings, g.me, g.siblings, c);
        IdsMembers(m.siblings);
        IdsAreIdSet(m.siblings);
        NearestMerge(Ids(m.siblings), Offered(ops[..n], g.me), {c.id}, Ids(Add(m, g, c).siblings), g.me, g.siblings);
        OfferBounds(m, g, c);
      }
    }
  }

  lemma OfferBounds(l: Layers, g: Config, c: Contact)
    requires LayersOk(l, g) && c.id != g.me
    ensures Known(Add(l, g, c)) <= Known(l) + {c.id}
  {
    KnownLayers(l);
    KnownLayers(Add(l, g, c));
    AddBucketIds(l.buckets, g, c);
    AddSiblingNearest(l.siblings, g.me, g.siblings, c);
    IdsMembers(Add(l, g, c).siblings);
  }

  /** And each sibling carries the address it was last offered with. */
  lemma {:induction false} SiblingAddresses(l: Layers, g: Config, ops: seq<Op>, s: Contact)
    requires LayersOk(l, g) && Known(l) == {} && OnlyOffers(ops)
    requires s in Run(l, g, ops).siblings
    ensures exists i :: 0 <= i < |ops| && ops[i].contact.id == s.id
    ensures s == LastOffer(ops, s.id)
  {
    if ops == [] {
      KnownLayers(l);
      IdSetMembers(l.siblings);
    } else {
      var n := |ops| - 1;
      var m, c := Run(l, g, ops[..n]), ops[n].contact;
      RunKeeps(l, g, ops[..n]);
      if c.id != g.me { AddSiblingNearest(m.siblings, g.me, g.siblings, c); }
      if c.id != g.me && s == c {
        assert ops[n].contact.id == s.id;
      } else {
        assert s in m.siblings && s.id != c.id by { IdsMembers(m.siblings); IdSetMembers(m.siblings); }
        SiblingAddresses(l, g, ops[..n], s);
        var i :| 0 <= i < n && ops[..n][i].contact.id == s.id;
        assert ops[i].contact.id == s.id;
      }
    }
  }

  /* ---- asking for our own id ---- */

  lemma NearestOfLess(r: seq<NodeId>, a: set<NodeId>, b: set<NodeId>, t: NodeId, k: nat)
    requires IsNearest(r, a, t, k) && Elems(r) <= b <= a
    ensures IsNearest(r, b, t, k)
  {
    assert forall x :: x in r ==> x in Elems(r);
  }

  lemma OwnIdIds(l: Layers, g: Config, all: set<NodeId>)
    requires LayersOk(l, g) && g.siblings == K
    requires IsNearest(Ids(l.siblings), all, g.me, K) && Known(l) <= all
    ensures Ids(CloseNodes(l, g, g.me)) == Ids(l.siblings)
  {
    var f := CloseNodesOf(l.buckets, g.me, g.me);
    var lo, hi := CloseNodesNearest(l.buckets, g.me, g.size, g.me);
    SettleNearest(f + l.siblings, g.me, K);
    IdSetConcat(f, l.siblings);
    KnownLayers(l);
    IdsMembers(l.siblings);
    assert IdSet(f) <= IdSet(Flatten(l.buckets)) by { IdSetMembers(f); IdSetMembers(Flatten(l.buckets)); }
    NearestOfLess(Ids(l.siblings), all, IdSet(f + l.siblings), g.me, K);
    NearestUnique(Ids(CloseNodes(l, g, g.me)), Ids(l.siblings), IdSet(f + l.siblings), g.me, K);
  }

  /** Every contact an answer contains is the table's own contact for its id. */
  lemma AnswerFromTable(l: Layers, g: Config, t: NodeId)
    requires LayersOk(l, g)
    ensures forall c :: c in CloseNodes(l, g, t) ==> c in Listing(l)
    ensures forall c, d :: c in Listing(l) && d in Listing(l) && c.id == d.id ==> c == d
  {
    var f := CloseNodesOf(l.buckets, g.me, t);
    var lo, hi := CloseNodesNearest(l.buckets, g.me, g.size, t);
    SettleNearest(f + l.siblings, t, K);
    AscendingDistinct(l.siblings, g.me);
    TableDistinct(l.buckets, g.me, g.size);
  }

  /** With K siblings, a query for our own id returns exactly the sibling list. */
  lemma OwnIdAnswer(l: Layers, g: Config, all: set<NodeId>)
    requires LayersOk(l, g) && g.siblings == K
    requires IsNearest(Ids(l.siblings), all, g.me, K) && Known(l) <= all
    ensures CloseNodes(l, g, g.me) == l.siblings
  {
    var r := CloseNodes(l, g, g.me);
    OwnIdIds(l, g, all);
    AnswerFromTable(l, g, g.me);
    forall i | 0 <= i < |r|
      ensures r[i] == l.siblings[i]
    {
      assert r[i].id == Ids(r)[i] == Ids(l.siblings)[i] == l.siblings[i].id;
      assert r[i] in r && l.siblings[i] in Listing(l);
    }
    assert |r| == |Ids(r)| == |l.siblings|;
  }

  /** After offers alone, a query for our own id returns the K nearest contacts ever offered. */
  lemma OwnIdExact(l: Layers, g: Config, ops: seq<Op>)
    requires LayersOk(l, g) && Known(l) == {} && OnlyOffers(ops) && g.siblings == K
    ensures CloseNodes(Run(l, g, ops), g, g.me) == Run(l, g, ops).siblings
    ensures IsNearest(Ids(CloseNodes(Run(l, g, ops), g, g.me)), Offered(ops, g.me), g.me, K)
  {
    SiblingExactness(l, g, ops);
    RunKeeps(l, g, ops);
    OwnIdAnswer(Run(l, g, ops), g, Offered(ops, g.me));
  }

  /* ---- a removed contact stays out ---- */

  lemma AddListing(l: Layers, g: Config, c: Contact, x: Contact)
    requires LayersOk(l, g) && x.id != c.id && c !in Listing(l)
    ensures c !in Listing(Add(l, g, x))
  {
    if x.id != g.me {
      AddSiblingNearest(l.siblings, g.me, g.siblings, x);
      AddFlatten(l.buckets, g.me, g.size, x);
    }
  }

  /** After a removal, no answer names the contact until its id is offered again. */
  lemma {:induction false} RemovedStaysOut(l: Layers, g: Config, c: Contact, ops: seq<Op>, t: NodeId)
    requires LayersOk(l, g) && OnlyOffers(ops) && forall i :: 0 <= i < |ops| ==> ops[i].contact.id != c.id
    ensures c !in Listing(Run(Remove(l, g, c), g, ops))
    ensures c !in CloseNodes(Run(Remove(l, g, c), g, ops), g, t)
  {
    var start := Remove(l, g, c);
    RemoveKeeps(l, g, c);
    RunKeeps(start, g, ops);
    if ops != [] {
      var n := |ops| - 1;
      RemovedStaysOut(l, g, c, ops[..n], t);
      RunKeeps(start, g, ops[..n]);
      AddListing(Run(start, g, ops[..n]), g, c, ops[n].contact);
    }
    AnswerFromTable(Run(start, g, ops), g, t);
  }

  /* ---- the table as an object ---- */

  lemma IdSetPrefix(all: seq<Contact>, i: nat)
    requires i < |all|
    ensures IdSet(all[..i + 1]) == IdSet(all[..i]) + {all[i].id} && IdSet(all[..i + 1]) <= IdSet(all)
  {
    assert all[..i + 1] == all[..i] + [all[i]];
    IdSetConcat(all[..i], [all[i]]);
    IdSetOne(all[i]);
    assert all == all[..i + 1] + all[i + 1..];
    IdSetConcat(all[..i + 1], all[i + 1..]);
  }

  class Routing {
    const g: Config
    const fallback: Table
    var siblings: seq<Contact>

    ghost function View(): Layers
      reads this, fallback
    {
      Layers(siblings, fallback.buckets)
    }

    ghost predicate Valid()
      reads this, fallback
    {
      fallback.me == g.me && fallback.size == g.size && LayersOk(View(), g)
    }

    constructor (g: Config, count: nat)
      requires 0 < count <= ID_BITS
      ensures Valid() && fresh(fallback) && this.g == g
      ensures View() == Empty(count)
    {
      this.g := g;
      fallback := new Table(g.me, g.size, count);
      siblings := [];
      new;
      EmptyOk(g, count);
    }

    /** `partition_point` over the distances to our id. */
    method FindPosition(id: NodeId) returns (pos: nat)
      ensures pos == PartitionPoint(siblings, id, g.me)
    {
      pos := 0;
      while pos < |siblings| && Nearer(siblings[pos].id, id, g.me)
        invariant pos <= |siblings|
        invariant PartitionPoint(siblings, id, g.me) == pos + PartitionPoint(siblings[pos..], id, g.me)
      {
        assert siblings[pos..][1..] == siblings[pos + 1..];
        pos := pos + 1;
      }
    }

    method MaybeAddContact(c: Contact)
      requires Valid()
      modifies this, fallback
      ensures Valid() && View() == Add(old(View()), g, c)
    {
      AddKeeps(View(), g, c);
      if c.id == g.me { return; }
      fallback.MaybeAddContact(c);
      siblings := WithSibling(c);
    }

    /** The sibling list after an offer: an address refreshed, or a place found and the farthest dropped. */
    method WithSibling(c: Contact) returns (r: seq<Contact>)
      requires |siblings| <= g.siblings
      ensures r == AddSibling(siblings, g.me, g.siblings, c)
    {
      var known := Position(siblings, c.id);
      if known < |siblings| { return siblings[known := c]; }
      var pos := FindPosition(c.id);
      r := siblings;
      if |siblings| == g.siblings {
        if pos == |siblings| { return; }
        r := siblings[..|siblings| - 1];
      }
      r := Splice(r, pos, c);
    }

    method RemoveContact(c: Contact)
      requires Valid()
      modifies this, fallback
      ensures Valid() && View() == Remove(old(View()), g, c)
    {
      RemoveKeeps(View(), g, c);
      var i := IndexOf(siblings, c);
      if i < |siblings| {
        siblings := siblings[..i] + siblings[i + 1..];
      }
      fallback.Remove(c);
    }

    method CloseNodes(t: NodeId) returns (out: seq<Contact>)
      requires Valid()
      ensures out == SiblingList.CloseNodes(View(), g, t)
    {
      out := fallback.CloseNodes(t);
      out := out + siblings;
      out := SortContacts(out, t);
      out := DedupById(out);
      out := Truncate(out, K);
    }

    /** Whether more than K distinct ids are known, counting only until that is clear. */
    method HoldsPlenty() returns (plenty: bool)
      ensures plenty <==> |Known(View())| > K
    {
      var all := siblings + Flatten(fallback.buckets);
      var distinct: set<NodeId> := {};
      for i := 0 to |all|
        invariant distinct == IdSet(all[..i])
      {
        IdSetPrefix(all, i);
        distinct := distinct + {all[i].id};
        if |distinct| > K {
          SubsetSize(distinct, IdSet(all));
          return true;
        }
      }
      assert all[..|all|] == all;
      return |distinct| > K;
    }

    /** `Rpc::forget`. */
    method Forget(c: Contact)
      requires Valid()
      modifies this, fallback
      ensures Valid() && View() == ForgetIn(old(View()), g, c)
    {
      var plenty := HoldsPlenty();
      if plenty {
        RemoveContact(c);
      }
    }

    /** A history of operations, one after the other. */
    method Perform(ops: seq<Op>)
      requires Valid()
      modifies this, fallback
      ensures Valid() && View() == Run(old(View()), g, ops)
    {
      for i := 0 to |ops|
        invariant Valid() && View() == Run(old(View()), g, ops[..i])
      {
        assert ops[..i + 1][..i] == ops[..i];
        match ops[i] {
          case Offer(c) => MaybeAddContact(c);
          case Drop(c) => RemoveContact(c);
          case Forget(c) => this.Forget(c);
        }
      }
      assert ops[..|ops|] == ops;
    }
  }

  /** Forgetting takes away at most that contact, and does so while more than K ids are known. */
  lemma ForgetShrinks(l: Layers, g: Config, c: Contact)
    requires LayersOk(l, g)
    ensures var r := ForgetIn(l, g, c);
            && |Known(r)| <= |Known(l)|
            && (forall x :: x in Listing(r) ==> x in Listing(l))
            && (forall x :: x in Listing(l) && x != c ==> x in Listing(r))
            && (c !in Listing(r) || |Known(r)| <= K)
  {
    var r := ForgetIn(l, g, c);
    RemoveKeeps(l, g, c);
    IdSetMembers(Listing(l));
    IdSetMembers(Listing(r));
    SubsetSize(Known(r), Known(l));
  }
}
