/** Two runs of the production table: one loses a contact, one answers without its nearest contact. */
module Witnesses {
  import opened Keys
  import opened Metric
  import opened Nearest
  import opened StaticBucket
  import opened SiblingList
  import opened RoutingTable
  import opened Convergence
  import opened Exactness

  /* ---- the peers ---- */

  /** The id with first byte `f`, last byte `e` and zeros between. */
  function IdOf(f: Byte, e: Byte): (id: NodeId)
    ensures id[0] == f && id[ID_BYTES - 1] == e
  {
    [f] + seq(ID_BYTES - 2, _ => 0) + [e]
  }

  /** The last byte of peer number `i`. */
  function Tail(i: nat): Byte {
    if i == 0 then 0 else if i == 1 then 1 else if i == 2 then 2 else if i == 3 then 3 else if i == 4 then 4
    else if i == 5 then 5 else if i == 6 then 6 else if i == 7 then 7 else if i == 8 then 8 else if i == 9 then 9 else 10
  }

  lemma TailGrows(i: nat, j: nat)
    requires i < j <= 10
    ensures Tail(i) < Tail(j)
  {
  }

  function Peer(f: Byte, i: nat): Contact {
    Contact(IdOf(f, Tail(i)), "")
  }

  /** `n` peers with first byte `f`, told apart by their last byte, from number `a` on. */
  function Peers(f: Byte, a: nat, n: nat): (s: seq<Contact>)
    requires a + n <= 11
    ensures |s| == n
    ensures forall i :: 0 <= i < n ==> s[i] == Peer(f, a + i)
  {
    seq(n, i requires 0 <= i < n => Peer(f, a + i))
  }

  lemma PeersDistinct(f: Byte, i: nat, j: nat)
    requires i < j <= 10
    ensures Peer(f, i).id != Peer(f, j).id
  {
    TailGrows(i, j);
    assert Peer(f, i).id[ID_BYTES - 1] == Tail(i) && Peer(f, j).id[ID_BYTES - 1] == Tail(j);
  }

  /** Us: the zero id. */
  function Me(): NodeId {
    IdOf(0, 0)
  }

  lemma SharedWithMe(f: Byte, e: Byte)
    requires f != 0
    ensures Shared(IdOf(f, e), Me()) == ByteLeadingZeros(f) && IdOf(f, e) != Me()
  {
    XorCancel(f, 0, 0);
    SharedAt(IdOf(f, e), Me(), 0);
  }

  /** Peers with first byte `f` all belong into one bucket. */
  lemma PeersTogether(f: Byte, a: nat, n: nat)
    requires f != 0 && a + n <= 11
    ensures DistinctIds(Peers(f, a, n))
    ensures forall c :: c in Peers(f, a, n) ==> c.id[0] == f && LivesIn(Me(), c.id, ID_BITS, ByteLeadingZeros(f))
  {
    var s := Peers(f, a, n);
    forall i, j | 0 <= i < j < n ensures s[i].id != s[j].id {
      PeersDistinct(f, a + i, a + j);
    }
    forall c | c in s ensures c.id[0] == f && LivesIn(Me(), c.id, ID_BITS, ByteLeadingZeros(f)) {
      var i :| 0 <= i < n && s[i] == c;
      SharedWithMe(f, Tail(a + i));
    }
  }

  /** Peers whose first byte starts with more zeros are nearer to us. */
  lemma PeersNearer(f: Byte, a: nat, n: nat, y: NodeId)
    requires f != 0 && a + n <= 11 && Shared(y, Me()) < ByteLeadingZeros(f)
    ensures forall x :: x in IdSet(Peers(f, a, n)) ==> Dist(x, Me()) < Dist(y, Me())
  {
    PeersTogether(f, a, n);
    forall x | x in IdSet(Peers(f, a, n)) ensures Dist(x, Me()) < Dist(y, Me()) {
      var c :| c in Peers(f, a, n) && c.id == x;
      SharedOfBucket(Me(), x, ID_BITS, ByteLeadingZeros(f));
      LongerPrefixIsNearer(x, y, Me());
    }
  }

  lemma PeersShare(f: Byte, a: nat, n: nat, x: NodeId)
    requires f != 0 && a + n <= 11 && x in IdSet(Peers(f, a, n))
    ensures Shared(x, Me()) == ByteLeadingZeros(f)
  {
    var c :| c in Peers(f, a, n) && c.id == x;
    var i :| 0 <= i < n && Peers(f, a, n)[i] == c;
    SharedWithMe(f, Tail(a + i));
  }

  lemma PeersCount(f: Byte, a: nat, n: nat)
    requires f != 0 && a + n <= 11
    ensures |IdSet(Peers(f, a, n))| == n
  {
    PeersTogether(f, a, n);
    IdSetSize(Peers(f, a, n));
  }

  /* ---- offering them ---- */

  lemma OffersConcat(s: seq<Contact>, u: seq<Contact>)
    ensures Offers(s + u) == Offers(s) + Offers(u)
  {
  }

  lemma OfferedIds(s: seq<Contact>, me: NodeId)
    requires me !in IdSet(s)
    ensures OnlyOffers(Offers(s)) && Offered(Offers(s), me) == IdSet(s)
  {
    var ops := Offers(s);
    forall x | x in IdSet(s) ensures x in Offered(ops, me) {
      var i :| 0 <= i < |s| && s[i].id == x;
      assert ops[i].contact.id == x;
    }
    forall x | x in Offered(ops, me) ensures x in IdSet(s) {
      var i :| 0 <= i < |ops| && ops[i].contact.id == x;
      assert s[i] in s;
    }
  }

  /** The table after these contacts were offered to an empty one. */
  ghost function After(s: seq<Contact>): Layers {
    Run(Empty(ID_BITS), Recommended(Me()), Offers(s))
  }

  /** What is known of it without looking at its buckets. */
  lemma AfterOk(s: seq<Contact>)
    requires Me() !in IdSet(s)
    ensures LayersOk(After(s), Recommended(Me())) && |After(s).buckets| == ID_BITS
    ensures IsNearest(Ids(After(s).siblings), IdSet(s), Me(), K)
  {
    var g := Recommended(Me());
    EmptyOk(g, ID_BITS);
    RunKeeps(Empty(ID_BITS), g, Offers(s));
    OfferedIds(s, Me());
    SiblingExactness(Empty(ID_BITS), g, Offers(s));
  }

  lemma AfterMore(s: seq<Contact>, u: seq<Contact>)
    ensures After(s + u) == Run(After(s), Recommended(Me()), Offers(u))
  {
    OffersConcat(s, u);
    RunConcat(Empty(ID_BITS), Recommended(Me()), Offers(s), Offers(u));
  }

  lemma AfterOne(s: seq<Contact>, c: Contact)
    ensures After(s + [c]) == Add(After(s), Recommended(Me()), c)
  {
    AfterMore(s, [c]);
    assert Offers([c])[..0] == [];
    assert Run(After(s), Recommended(Me()), Offers([c])[..0]) == After(s);
  }

  lemma OffersLast(l: Layers, g: Config, s: seq<Contact>)
    requires |l.buckets| > 0 && s != []
    ensures Run(l, g, Offers(s)) == Add(Run(l, g, Offers(s[..|s| - 1])), g, s[|s| - 1])
  {
    assert Offers(s)[..|s| - 1] == Offers(s[..|s| - 1]);
  }

  /** Contacts of one empty bucket that has room for them fill it in order. */
  lemma {:induction false} FillBucket(l: Layers, g: Config, i: nat, s: seq<Contact>)
    requires i < |l.buckets| && l.buckets[i] == [] && |s| <= g.size && DistinctIds(s)
    requires forall c :: c in s ==> LivesIn(g.me, c.id, |l.buckets|, i)
    ensures Run(l, g, Offers(s)).buckets == l.buckets[i := s]
  {
    if s == [] {
      assert l.buckets[i := s] == l.buckets;
    } else {
      var n := |s| - 1;
      FillBucket(l, g, i, s[..n]);
      OffersLast(l, g, s);
      FillStep(l.buckets, g, i, s, n);
      assert s[..n + 1] == s;
    }
  }

  lemma FillStep(b: Buckets, g: Config, i: nat, s: seq<Contact>, n: nat)
    requires i < |b| && n < |s| && n < g.size && DistinctIds(s) && LivesIn(g.me, s[n].id, |b|, i)
    ensures AddContact(b[i := s[..n]], g.me, g.size, s[n]) == b[i := s[..n + 1]]
  {
    assert forall d :: d in s[..n] ==> d.id != s[n].id;
    AppendsTo(b[i := s[..n]], g, i, s[n]);
    assert s[..n] + [s[n]] == s[..n + 1];
  }

  /** Peers of one kind, offered to a table whose bucket for them is empty, fill that bucket. */
  lemma AfterPeers(s: seq<Contact>, f: Byte, a: nat, n: nat, i: nat)
    requires f != 0 && a + n <= 11 && n <= K && i == ByteLeadingZeros(f)
    requires |After(s).buckets| == ID_BITS && After(s).buckets[i] == []
    ensures After(s + Peers(f, a, n)).buckets == After(s).buckets[i := Peers(f, a, n)]
  {
    PeersTogether(f, a, n);
    AfterMore(s, Peers(f, a, n));
    FillBucket(After(s), Recommended(Me()), i, Peers(f, a, n));
  }

  lemma AppendsTo(b: Buckets, g: Config, i: nat, c: Contact)
    requires i < |b| && LivesIn(g.me, c.id, |b|, i) && |b[i]| < g.size
    requires forall d :: d in b[i] ==> d.id != c.id
    ensures AddContact(b, g.me, g.size, c) == b[i := b[i] + [c]]
  {
    assert c.id !in IdSet(b[i]);
  }

  /** A full bucket takes no new contact. */
  lemma TurnsAway(b: Buckets, g: Config, i: nat, c: Contact)
    requires i < |b| && LivesIn(g.me, c.id, |b|, i) && |b[i]| == g.size
    requires forall d :: d in b[i] ==> d.id != c.id
    ensures AddContact(b, g.me, g.size, c) == b
  {
    assert c.id !in IdSet(b[i]);
  }

  /* ---- a sibling that is lost ---- */

  /** With fewer than k ids of the pool nearer, `x` is among the k nearest. */
  lemma AmongNearest(r: seq<NodeId>, pool: set<NodeId>, t: NodeId, k: nat, x: NodeId, nearer: set<NodeId>)
    requires IsNearest(r, pool, t, k) && x in pool && |nearer| < k
    requires forall y :: y in pool && Dist(y, t) < Dist(x, t) ==> y in nearer
    ensures x in r
  {
    AscendingSize(r, t);
    if x !in r { SubsetSize(Elems(r), nearer); }
  }

  /** With k of them nearer it is not. */
  lemma NotAmongNearest(r: seq<NodeId>, pool: set<NodeId>, t: NodeId, k: nat, x: NodeId, nearer: set<NodeId>)
    requires IsNearest(r, pool, t, k) && |nearer| >= k && nearer <= pool
    requires forall y :: y in nearer ==> Dist(y, t) < Dist(x, t)
    ensures x !in r
  {
    AscendingSize(r, t);
    assert x !in nearer;
    if x in r { SubsetSize(nearer + {x}, Elems(r)); }
  }

  /** Ten peers that fill bucket 1, then one more of that bucket that is nearer, then nine of bucket 2. */
  function Crowd(): seq<Contact> {
    Peers(0x40, 1, 10) + Peers(0x40, 0, 1) + Peers(0x20, 0, 9)
  }

  lemma CrowdNotUs()
    ensures Me() !in IdSet(Crowd())
    ensures IdSet(Crowd()) == IdSet(Peers(0x40, 1, 10)) + {Peer(0x40, 0).id} + IdSet(Peers(0x20, 0, 9))
  {
    PeersTogether(0x40, 1, 10);
    PeersTogether(0x40, 0, 1);
    PeersTogether(0x20, 0, 9);
    IdSetConcat(Peers(0x40, 1, 10), Peers(0x40, 0, 1));
    IdSetConcat(Peers(0x40, 1, 10) + Peers(0x40, 0, 1), Peers(0x20, 0, 9));
    IdSetOne(Peer(0x40, 0));
    assert Peers(0x40, 0, 1) == [Peer(0x40, 0)];
  }

  /** The buckets after that: the eleventh peer of bucket 1 found no room. */
  lemma CrowdBuckets()
    ensures |After(Crowd()).buckets| == ID_BITS && After(Crowd()).buckets[1] == Peers(0x40, 1, 10)
  {
    var first, extra := Peers(0x40, 1, 10), Peers(0x40, 0, 1);
    assert After([]).buckets == Empty(ID_BITS).buckets;
    assert [] + first == first;
    AfterPeers([], 0x40, 1, 10, 1);
    NoRoomForExtra(After(first).buckets);
    assert extra == [Peer(0x40, 0)];
    SharedWithMe(0x40, Tail(0));
    AfterOne(first, Peer(0x40, 0));
    AfterPeers(first + extra, 0x20, 0, 9, 2);
  }

  lemma NoRoomForExtra(b: Buckets)
    requires |b| == ID_BITS && b[1] == Peers(0x40, 1, 10)
    ensures AddContact(b, Me(), K, Peers(0x40, 0, 1)[0]) == b
  {
    var c := Peers(0x40, 0, 1)[0];
    PeersTogether(0x40, 0, 1);
    forall d | d in b[1] ensures d.id != c.id {
      var i :| 0 <= i < 10 && b[1][i] == d;
      PeersDistinct(0x40, 0, 1 + i);
    }
    TurnsAway(b, Recommended(Me()), 1, c);
  }

  /** Among the peers of bucket 1, the extra one is nearest. */
  lemma ExtraIsNearest(y: NodeId)
    requires y in IdSet(Peers(0x40, 1, 10))
    ensures Dist(Peer(0x40, 0).id, Me()) < Dist(y, Me())
  {
    var c :| c in Peers(0x40, 1, 10) && c.id == y;
    var i :| 0 <= i < 10 && Peers(0x40, 1, 10)[i] == c;
    TailGrows(0, 1 + i);
    NearerAt(Peer(0x40, 0).id, y, Me(), ID_BYTES - 1);
  }

  lemma ExtraIsSibling()
    ensures Peer(0x40, 0).id in Known(After(Crowd()))
  {
    var l, x := After(Crowd()), Peer(0x40, 0).id;
    CrowdNotUs();
    AfterOk(Crowd());
    PeersCount(0x20, 0, 9);
    forall y | y in IdSet(Crowd()) && Dist(y, Me()) < Dist(x, Me()) ensures y in IdSet(Peers(0x20, 0, 9)) {
      if y in IdSet(Peers(0x40, 1, 10)) { ExtraIsNearest(y); }
    }
    AmongNearest(Ids(l.siblings), IdSet(Crowd()), Me(), K, x, IdSet(Peers(0x20, 0, 9)));
    KnownLayers(l);
    IdsMembers(l.siblings);
  }

  lemma ExtraNotInBuckets(l: Layers)
    requires LayersOk(l, Recommended(Me())) && |l.buckets| == ID_BITS && l.buckets[1] == Peers(0x40, 1, 10)
    ensures Peer(0x40, 0).id !in IdSet(Flatten(l.buckets))
  {
    forall c | c in Flatten(l.buckets) ensures c.id != Peer(0x40, 0).id {
      FlattenIn(l.buckets, Me(), K, c);
      SharedWithMe(0x40, 0);
      if c in Peers(0x40, 1, 10) {
        var i :| 0 <= i < 10 && Peers(0x40, 1, 10)[i] == c;
        PeersDistinct(0x40, 0, 1 + i);
      }
    }
  }

  /** The tenth peer of bucket 2. */
  function Tenth(): Contact {
    Peer(0x20, 9)
  }

  lemma TenthBuckets()
    ensures Tenth().id != Me() && |After(Crowd()).buckets| == ID_BITS
    ensures AddContact(After(Crowd()).buckets, Me(), K, Tenth())[1] == Peers(0x40, 1, 10)
  {
    CrowdBuckets();
    SharedWithMe(0x20, Tail(9));
    AddElsewhere(After(Crowd()).buckets, Tenth());
  }

  /** The table after it was offered no longer knows the extra peer. */
  lemma ExtraGone()
    ensures Peer(0x40, 0).id !in Known(Add(After(Crowd()), Recommended(Me()), Tenth()))
  {
    var n := After(Crowd() + [Tenth()]);
    AfterOne(Crowd(), Tenth());
    TenthOk();
    TenthBuckets();
    ExtraNotInBuckets(n);
    ExtraPushedOut();
    KnownLayers(n);
    IdsMembers(n.siblings);
  }

  lemma TenthOk()
    ensures Me() !in IdSet(Crowd() + [Tenth()])
    ensures LayersOk(After(Crowd() + [Tenth()]), Recommended(Me())) && |After(Crowd() + [Tenth()]).buckets| == ID_BITS
  {
    CrowdNotUs();
    SharedWithMe(0x20, Tail(9));
    IdSetConcat(Crowd(), [Tenth()]);
    IdSetOne(Tenth());
    AfterOk(Crowd() + [Tenth()]);
  }

  lemma LosesWhatIsGone(l: Layers, g: Config, c: Contact, x: NodeId)
    requires LayersOk(l, g) && c.id != g.me && x in Known(l) && x !in Known(Add(l, g, c))
    ensures Loses(l, g, c)
  {
    OfferLoses(l, g, c);
    assert x in Known(l) - Known(Add(l, g, c));
  }

  /** Offering a tenth peer of bucket 2 then loses the extra peer: no layer knows it any more. */
  lemma SiblingCanBeLost()
    ensures OnlyOffers(Offers(Crowd())) && LayersOk(After(Crowd()), Recommended(Me()))
    ensures Peer(0x40, 0).id in Known(After(Crowd()))
    ensures Peer(0x40, 0).id !in Known(Add(After(Crowd()), Recommended(Me()), Tenth()))
    ensures Loses(After(Crowd()), Recommended(Me()), Tenth())
  {
    CrowdNotUs();
    OfferedIds(Crowd(), Me());
    AfterOk(Crowd());
    ExtraIsSibling();
    ExtraGone();
    TenthBuckets();
    LosesWhatIsGone(After(Crowd()), Recommended(Me()), Tenth(), Peer(0x40, 0).id);
  }

  lemma AddElsewhere(b: Buckets, c: Contact)
    requires |b| == ID_BITS && LivesIn(Me(), c.id, ID_BITS, 2)
    ensures AddContact(b, Me(), K, c)[1] == b[1]
  {
  }

  lemma TenAmongAll()
    ensures IdSet(Peers(0x20, 0, 10)) <= IdSet(Crowd() + [Tenth()])
  {
    CrowdNotUs();
    IdSetConcat(Crowd(), [Tenth()]);
    IdSetConcat(Peers(0x20, 0, 9), [Tenth()]);
    assert Peers(0x20, 0, 10) == Peers(0x20, 0, 9) + [Tenth()];
  }

  lemma TenNearer()
    ensures |IdSet(Peers(0x20, 0, 10))| == K
    ensures forall x :: x in IdSet(Peers(0x20, 0, 10)) ==> Dist(x, Me()) < Dist(Peer(0x40, 0).id, Me())
  {
    PeersCount(0x20, 0, 10);
    SharedWithMe(0x40, 0);
    PeersNearer(0x20, 0, 10, Peer(0x40, 0).id);
  }

  lemma ExtraPushedOut()
    ensures Peer(0x40, 0).id !in Ids(After(Crowd() + [Tenth()]).siblings)
  {
    var all := Crowd() + [Tenth()];
    TenthOk();
    AfterOk(all);
    TenAmongAll();
    TenNearer();
    NotAmongNearest(Ids(After(all).siblings), IdSet(all), Me(), K, Peer(0x40, 0).id, IdSet(Peers(0x20, 0, 10)));
  }

  /* ---- an answer without the nearest contact ---- */

  /** Ten peers of bucket 1, one of bucket 2, ten of bucket 3. */
  function Spread(): seq<Contact> {
    Peers(0x40, 0, 10) + Peers(0x20, 0, 1) + Peers(0x10, 0, 10)
  }

  lemma SpreadNotUs()
    ensures Me() !in IdSet(Spread())
    ensures IdSet(Spread()) == IdSet(Peers(0x40, 0, 10)) + IdSet(Peers(0x20, 0, 1)) + IdSet(Peers(0x10, 0, 10))
  {
    PeersTogether(0x40, 0, 10);
    PeersTogether(0x20, 0, 1);
    PeersTogether(0x10, 0, 10);
    IdSetConcat(Peers(0x40, 0, 10), Peers(0x20, 0, 1));
    IdSetConcat(Peers(0x40, 0, 10) + Peers(0x20, 0, 1), Peers(0x10, 0, 10));
  }

  lemma SpreadBuckets()
    ensures var b := After(Spread()).buckets;
            |b| == ID_BITS && b[0] == [] && b[1] == Peers(0x40, 0, 10) && b[2] == Peers(0x20, 0, 1)
  {
    var one, two := Peers(0x40, 0, 10), Peers(0x20, 0, 1);
    assert After([]).buckets == Empty(ID_BITS).buckets;
    assert [] + one == one;
    AfterPeers([], 0x40, 0, 10, 1);
    AfterPeers(one, 0x20, 0, 1, 2);
    AfterPeers(one + two, 0x10, 0, 10, 3);
  }

  lemma SpreadFarther(a: NodeId, y: NodeId)
    requires a in IdSet(Peers(0x10, 0, 10)) && y in IdSet(Peers(0x40, 0, 10)) + IdSet(Peers(0x20, 0, 1))
    ensures Dist(a, Me()) < Dist(y, Me())
  {
    if y in IdSet(Peers(0x40, 0, 10)) { PeersShare(0x40, 0, 10, y); } else { PeersShare(0x20, 0, 1, y); }
    PeersNearer(0x10, 0, 10, y);
  }

  /** The siblings are the peers of bucket 3. */
  lemma SpreadSiblings(x: NodeId)
    requires x in Ids(After(Spread()).siblings)
    ensures x in IdSet(Peers(0x10, 0, 10))
  {
    var near, pool := IdSet(Peers(0x10, 0, 10)), IdSet(Spread());
    SpreadNotUs();
    AfterOk(Spread());
    PeersCount(0x10, 0, 10);
    forall a, y | a in near && y in pool - near ensures Dist(a, Me()) < Dist(y, Me()) {
      SpreadFarther(a, y);
    }
    NearestInside(Ids(After(Spread()).siblings), pool, near, Me(), K);
  }

  /** The target asked for. */
  function Target(): NodeId {
    IdOf(0xA0, 0)
  }

  /** Home is empty, so one bucket above it fills the answer and nothing further is looked at. */
  lemma ScansTwoBuckets(b: Buckets)
    requires |b| == ID_BITS && b[0] == [] && |b[1]| == K
    ensures BucketIndex(Me(), Target(), ID_BITS) == 0
    ensures Scanned(b, Me(), Target()) == b[1]
  {
    SharedWithMe(0xA0, 0);
    ScanOne(b, 0);
    ScanGrowHigh(b, 0, 0);
    assert Widen(b, 0, 0) == Widen(b, 0, 1) == (0, 1);
  }

  /** Seen from the target, the peer of bucket 2 is nearer than those of buckets 1 and 3. */
  lemma MissedIsNearer(f: Byte, a: nat, n: nat, x: NodeId)
    requires (f == 0x40 || f == 0x10) && a + n <= 11 && x in IdSet(Peers(f, a, n))
    ensures Dist(Peer(0x20, 0).id, Target()) < Dist(x, Target())
  {
    PeersTogether(f, a, n);
    var c :| c in Peers(f, a, n) && c.id == x;
    NearerAt(Peer(0x20, 0).id, x, Target(), 0);
  }

  /** A query names only contacts from the buckets scanned and the siblings. */
  lemma AnsweredFrom(l: Layers, g: Config, t: NodeId, c: Contact)
    requires |l.buckets| > 0 && c in CloseNodes(l, g, t)
    ensures c in Scanned(l.buckets, g.me, t) || c in l.siblings
  {
    SettleNearest(CloseNodesOf(l.buckets, g.me, t) + l.siblings, t, K);
    SettleNearest(Scanned(l.buckets, g.me, t), t, K);
  }

  /** What such a table answers for the target. */
  ghost predicate Misses(l: Layers, g: Config)
    requires |l.buckets| > 0
  {
    && Peer(0x20, 0).id in Known(l) && |CloseNodes(l, g, Target())| == K
    && forall c :: c in CloseNodes(l, g, Target()) ==> Dist(Peer(0x20, 0).id, Target()) < Dist(c.id, Target())
  }

  lemma MissesNearest(l: Layers, g: Config)
    requires LayersOk(l, g) && g.me == Me() && |l.buckets| == ID_BITS
    requires l.buckets[0] == [] && l.buckets[1] == Peers(0x40, 0, 10) && l.buckets[2] == Peers(0x20, 0, 1)
    requires forall x :: x in Ids(l.siblings) ==> x in IdSet(Peers(0x10, 0, 10))
    ensures Misses(l, g)
  {
    ScansTwoBuckets(l.buckets);
    forall c | c in CloseNodes(l, g, Target()) ensures Dist(Peer(0x20, 0).id, Target()) < Dist(c.id, Target()) {
      AnsweredFrom(l, g, Target(), c);
      if c in Peers(0x40, 0, 10) {
        MissedIsNearer(0x40, 0, 10, c.id);
      } else {
        InIds(l.siblings, c);
        MissedIsNearer(0x10, 0, 10, c.id);
      }
    }
    MissedIsKnown(l);
    FullyAnswered(l, g);
  }

  /** So the condition for exact answers fails. */
  lemma MissesDoesNotSuffice(l: Layers, g: Config)
    requires LayersOk(l, g) && Misses(l, g)
    ensures !LayersSuffice(l, g, Target())
  {
    var answer := CloseNodes(l, g, Target());
    LayersExactIff(l, g, Target());
    assert answer[0] in answer && Ids(answer)[0] == answer[0].id && Ids(answer)[0] in Ids(answer);
    forall i | 0 <= i < |answer| ensures Ids(answer)[i] != Peer(0x20, 0).id {
      assert answer[i] in answer;
    }
  }

  /**
   * The production table after these offers knows the peer of bucket 2, answers with K contacts,
   * and that peer is nearer to the target than every one of them.
   */
  lemma AnswerCanMissTheNearest()
    ensures OnlyOffers(Offers(Spread())) && LayersOk(After(Spread()), Recommended(Me()))
    ensures Misses(After(Spread()), Recommended(Me())) && !LayersSuffice(After(Spread()), Recommended(Me()), Target())
  {
    SpreadNotUs();
    OfferedIds(Spread(), Me());
    AfterOk(Spread());
    SpreadBuckets();
    forall x | x in Ids(After(Spread()).siblings) ensures x in IdSet(Peers(0x10, 0, 10)) {
      SpreadSiblings(x);
    }
    MissesNearest(After(Spread()), Recommended(Me()));
    MissesDoesNotSuffice(After(Spread()), Recommended(Me()));
  }

  lemma MissedIsKnown(l: Layers)
    requires |l.buckets| == ID_BITS && l.buckets[2] == Peers(0x20, 0, 1)
    ensures Peer(0x20, 0).id in Known(l)
  {
    var c := Peers(0x20, 0, 1)[0];
    assert c in l.buckets[2];
    FlattenMembers(l.buckets, c);
    assert c in Listing(l);
  }

  lemma FullyAnswered(l: Layers, g: Config)
    requires LayersOk(l, g) && g.me == Me() && |l.buckets| == ID_BITS
    requires l.buckets[0] == [] && l.buckets[1] == Peers(0x40, 0, 10)
    ensures |CloseNodes(l, g, Target())| == K
  {
    var f := CloseNodesOf(l.buckets, g.me, Target());
    ScansTwoBuckets(l.buckets);
    PeersCount(0x40, 0, 10);
    SettleNearest(Peers(0x40, 0, 10), Target(), K);
    NearestLength(Ids(f), IdSet(Peers(0x40, 0, 10)), Target(), K);
    SettleNearest(f + l.siblings, Target(), K);
    IdSetConcat(f, l.siblings);
    IdsAreIdSet(f);
    AscendingSize(Ids(f), Target());
    SubsetSize(IdSet(f), IdSet(f + l.siblings));
    NearestLength(Ids(CloseNodes(l, g, Target())), IdSet(f + l.siblings), Target(), K);
  }
}
