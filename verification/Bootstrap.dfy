/** Joining through a seed: the self-lookup, then one random target per farther bucket. */
module Bootstrap {
  import opened Wrappers
  import opened Keys
  import opened Metric
  import opened Nearest
  import opened StaticBucket
  import opened SiblingList
  import opened RoutingTable
  import opened Lookup
  import opened TableLookup

  datatype BootstrapError = Unreachable | SelfSeed

  /** `0xFF >> k` and `0x80 >> k` applied to one byte: clear the bits before `k`, set bit `k`. */
  function StartAt(b: Byte, k: nat): Byte
    requires k < 8
  {
    (b & (0xFF >> k)) | (0x80 >> k)
  }

  lemma StartAtBit(b: Byte, k: nat)
    requires k < 8
    ensures StartAt(b, k) != 0
    ensures ByteLeadingZeros(StartAt(b, k)) == k
  {
    if k == 0 { assert StartAt(b, 0) & 0x80 != 0; }
    else if k == 1 { assert StartAt(b, 1) & 0x80 == 0 && StartAt(b, 1) & 0x40 != 0; }
    else if k == 2 { assert StartAt(b, 2) & 0xC0 == 0 && StartAt(b, 2) & 0x20 != 0; }
    else if k == 3 { assert StartAt(b, 3) & 0xE0 == 0 && StartAt(b, 3) & 0x10 != 0; }
    else if k == 4 { assert StartAt(b, 4) & 0xF0 == 0 && StartAt(b, 4) & 0x08 != 0; }
    else if k == 5 { assert StartAt(b, 5) & 0xF8 == 0 && StartAt(b, 5) & 0x04 != 0; }
    else if k == 6 { assert StartAt(b, 6) & 0xFC == 0 && StartAt(b, 6) & 0x02 != 0; }
    else { assert StartAt(b, 7) & 0xFE == 0 && StartAt(b, 7) & 0x01 != 0; }
  }

  /** A byte that already starts at `k` is left alone. */
  lemma StartAtSame(b: Byte, k: nat)
    requires k < 8 && ByteLeadingZeros(b) == k
    ensures StartAt(b, k) == b
  {
    if k == 0 { assert StartAt(b, 0) == b; }
    else if k == 1 { assert StartAt(b, 1) == b; }
    else if k == 2 { assert StartAt(b, 2) == b; }
    else if k == 3 { assert StartAt(b, 3) == b; }
    else if k == 4 { assert StartAt(b, 4) == b; }
    else if k == 5 { assert StartAt(b, 5) == b; }
    else if k == 6 { assert StartAt(b, 6) == b; }
    else { assert StartAt(b, 7) == b; }
  }

  /** `bucket` zero bits, then a one, then the bits of `random`. */
  function DistanceInBucket(random: NodeId, bucket: nat): NodeId
    requires bucket < ID_BITS
  {
    seq(ID_BYTES, i requires 0 <= i < ID_BYTES =>
      if i < bucket / 8 then 0 else if i == bucket / 8 then StartAt(random[i], bucket % 8) else random[i])
  }

  lemma DistanceInBucketZeros(random: NodeId, bucket: nat)
    requires bucket < ID_BITS
    ensures LeadingZeroBits(DistanceInBucket(random, bucket)) == bucket
  {
    StartAtBit(random[bucket / 8], bucket % 8);
    LeadingZerosAt(DistanceInBucket(random, bucket), bucket / 8);
  }

  lemma XorTwice(a: NodeId, d: NodeId)
    ensures XorDistance(XorDistance(a, d), a) == d
    ensures XorDistance(a, XorDistance(a, d)) == d
  {
    forall i | 0 <= i < ID_BYTES
      ensures (a[i] ^ d[i]) ^ a[i] == d[i] && a[i] ^ (a[i] ^ d[i]) == d[i]
    {
      XorByteTwice(a[i], d[i]);
    }
  }

  lemma XorByteTwice(x: Byte, d: Byte)
    ensures (x ^ d) ^ x == d && x ^ (x ^ d) == d
  {
  }

  lemma LandsInBucket(me: NodeId, random: NodeId, bucket: nat)
    requires bucket < ID_BITS
    ensures Shared(XorDistance(me, DistanceInBucket(random, bucket)), me) == bucket
  {
    var d := DistanceInBucket(random, bucket);
    DistanceInBucketZeros(random, bucket);
    XorTwice(me, d);
    SharedIsLeadingZeros(XorDistance(me, d), me);
  }

  /** Edits the random bytes in place into a distance of that bucket. */
  method MakeDistance(random: NodeId, bucket: nat) returns (d: NodeId)
    requires bucket < ID_BITS
    ensures d == DistanceInBucket(random, bucket)
  {
    var distance := new Byte[ID_BYTES](i requires 0 <= i < ID_BYTES => random[i]);
    var j := bucket / 8;
    for i := 0 to j
      invariant forall k :: 0 <= k < ID_BYTES ==> distance[k] == if k < i then 0 else random[k]
    {
      distance[i] := 0;
    }
    distance[j] := StartAt(distance[j], bucket % 8);
    d := distance[..];
  }

  /** `random_id_in_bucket`. */
  method RandomIdInBucket(me: NodeId, random: NodeId, bucket: nat) returns (id: NodeId)
    requires bucket < ID_BITS
    ensures id == XorDistance(me, DistanceInBucket(random, bucket))
    ensures Shared(id, me) == bucket
  {
    var distance := MakeDistance(random, bucket);
    id := XorDistance(me, distance);
    LandsInBucket(me, random, bucket);
  }

  lemma {:induction false} ZerosBefore(d: Bytes, i: nat)
    requires i < |d| && 8 * i <= LeadingZeroBits(d) < 8 * |d|
    ensures d[i] == 0 ==> 8 * i + 8 <= LeadingZeroBits(d)
    ensures d[i] != 0 ==> LeadingZeroBits(d) == 8 * i + ByteLeadingZeros(d[i])
  {
    if i > 0 {
      ZerosBefore(d[1..], i - 1);
    }
  }

  lemma {:induction false} ZeroPrefix(d: Bytes, n: nat)
    requires n <= |d| && 8 * n <= LeadingZeroBits(d)
    ensures forall i :: 0 <= i < n ==> d[i] == 0
  {
    if n > 0 { ZeroPrefix(d[1..], n - 1); }
  }

  /** Every id of the bucket can come out: its own distance, drawn at random, yields it. */
  lemma EveryIdOfTheBucket(me: NodeId, id: NodeId)
    requires id != me
    ensures Shared(id, me) < ID_BITS
    ensures XorDistance(me, DistanceInBucket(XorDistance(me, id), Shared(id, me))) == id
  {
    SharedSpec(id, me);
    SharedSymmetric(id, me);
    SharedIsLeadingZeros(me, id);
    var d, bucket := XorDistance(me, id), Shared(id, me);
    var j := bucket / 8;
    ZeroPrefix(d, j);
    ZerosBefore(d, j);
    StartAtSame(d[j], bucket % 8);
    assert DistanceInBucket(d, bucket) == d;
    XorTwice(me, id);
  }

  /* ---- the join ---- */

  /** One refresh lookup: the target, what was found, and the log. */
  datatype Visit = Visit(target: NodeId, contacts: seq<Contact>, log: seq<Event>)

  /** What these lookups do to the table, one after the other. */
  function AllWrites(visits: seq<Visit>, me: NodeId, peers: nat -> Network): seq<Op> {
    if visits == [] then []
    else AllWrites(visits[..|visits| - 1], me, peers) + Writes(visits[|visits| - 1].log, me, peers(|visits| - 1).gone)
  }

  /** Everything heard in them, in order, ourselves excepted. */
  ghost function AllHeard(visits: seq<Visit>, me: NodeId): seq<Contact> {
    if visits == [] then [] else AllHeard(visits[..|visits| - 1], me) + Heard([], me, visits[|visits| - 1].log)
  }

  /** In none of them anybody is found gone. */
  ghost predicate NobodyGone(peers: nat -> Network) {
    forall b, i :: !peers(b).gone(i)
  }

  lemma {:induction false} AllWritesRecorded(visits: seq<Visit>, me: NodeId, peers: nat -> Network)
    ensures NoDrops(AllWrites(visits, me, peers)) && OfferedIn(AllWrites(visits, me, peers)) == AllHeard(visits, me)
    ensures NobodyGone(peers) ==> OnlyOffers(AllWrites(visits, me, peers))
  {
    if visits != [] {
      var n := |visits| - 1;
      var before, last := AllWrites(visits[..n], me, peers), Writes(visits[n].log, me, peers(n).gone);
      AllWritesRecorded(visits[..n], me, peers);
      WritesRecorded(visits[n].log, me, peers(n).gone);
      OfferedConcat(before, last);
      NoDropsConcat(before, last);
      if NobodyGone(peers) { WritesOnlyOffer(visits[n].log, me, peers(n).gone); }
    }
  }

  lemma WritesOnlyOffer(log: seq<Event>, me: NodeId, gone: nat -> bool)
    requires forall i :: !gone(i)
    ensures OnlyOffers(Writes(log, me, gone))
  {
    WritesRecorded(log, me, gone);
    NobodyForgotten(Writes(log, me, gone));
  }

  lemma {:induction false} HeardNotUs(me: NodeId, log: seq<Event>)
    ensures me !in IdSet(Heard([], me, log))
  {
    if log != [] {
      var n := |log| - 1;
      HeardNotUs(me, log[..n]);
      IdSetConcat(Heard([], me, log[..n]), if log[n].Reply? then Without(log[n].contacts, me) else []);
      if log[n].Reply? { IdSetMembers(Without(log[n].contacts, me)); }
    }
  }

  lemma {:induction false} AllHeardNotUs(me: NodeId, visits: seq<Visit>)
    ensures me !in IdSet(AllHeard(visits, me))
  {
    if visits != [] {
      var n := |visits| - 1;
      AllHeardNotUs(me, visits[..n]);
      HeardNotUs(me, visits[n].log);
      IdSetConcat(AllHeard(visits[..n], me), Heard([], me, visits[n].log));
    }
  }

  /** A lookup of a random target of bucket `b`, from what the table `l` answers. */
  ghost predicate VisitOk(l: Layers, g: Config, v: Visit, b: nat, random: nat -> NodeId, peers: Network) {
    && b < ID_BITS && v.target == XorDistance(g.me, DistanceInBucket(random(b), b))
    && BucketIndex(g.me, v.target, ID_BITS) == b && |l.buckets| > 0
    && LookedUp(CloseNodes(l, g, v.target), g.me, v.target, peers, v.contacts, v.log)
  }

  /** The table after the first `b` lookups. */
  ghost function Before(first: Layers, g: Config, visits: seq<Visit>, b: nat, peers: nat -> Network): Layers
    requires |first.buckets| > 0 && b <= |visits|
  {
    Run(first, g, AllWrites(visits[..b], g.me, peers))
  }

  /** One lookup per bucket, in order, each from the table as the ones before left it. */
  ghost predicate Refreshed(first: Layers, g: Config, visits: seq<Visit>, random: nat -> NodeId, peers: nat -> Network)
    requires |first.buckets| > 0
  {
    forall b :: 0 <= b < |visits| ==> VisitOk(Before(first, g, visits, b, peers), g, visits[b], b, random, peers(b))
  }

  lemma BeforeSame(first: Layers, g: Config, visits: seq<Visit>, v: Visit, b: nat, peers: nat -> Network)
    requires |first.buckets| > 0 && b <= |visits|
    ensures Before(first, g, visits + [v], b, peers) == Before(first, g, visits, b, peers)
    ensures Before(first, g, visits, |visits|, peers) == Run(first, g, AllWrites(visits, g.me, peers))
  {
    assert (visits + [v])[..b] == visits[..b];
    assert visits[..|visits|] == visits;
  }

  lemma RefreshedMore(first: Layers, g: Config, visits: seq<Visit>, random: nat -> NodeId, peers: nat -> Network, v: Visit)
    requires |first.buckets| > 0 && Refreshed(first, g, visits, random, peers)
    requires VisitOk(Before(first, g, visits, |visits|, peers), g, v, |visits|, random, peers(|visits|))
    ensures Refreshed(first, g, visits + [v], random, peers)
  {
    forall b | 0 <= b < |visits| + 1
      ensures VisitOk(Before(first, g, visits + [v], b, peers), g, (visits + [v])[b], b, random, peers(b))
    {
      BeforeSame(first, g, visits, v, b, peers);
      if b < |visits| { VisitAt(first, g, visits, random, peers, b); }
    }
  }

  lemma VisitAt(first: Layers, g: Config, visits: seq<Visit>, random: nat -> NodeId, peers: nat -> Network, b: nat)
    requires |first.buckets| > 0 && Refreshed(first, g, visits, random, peers) && b < |visits|
    ensures VisitOk(Before(first, g, visits, b, peers), g, visits[b], b, random, peers(b))
  {
  }

  lemma AllWritesMore(visits: seq<Visit>, v: Visit, me: NodeId, peers: nat -> Network)
    ensures AllWrites(visits + [v], me, peers) == AllWrites(visits, me, peers) + Writes(v.log, me, peers(|visits|).gone)
  {
    assert (visits + [v])[..|visits|] == visits;
  }

  /** Looks up one random id in every bucket farther from us than our closest neighbour. */
  method Refresh(table: Routing, closest: NodeId, random: nat -> NodeId, peers: nat -> Network) returns (visits: seq<Visit>)
    requires table.Valid() && closest != table.g.me
    modifies table, table.fallback
    ensures table.Valid() && table.View() == Run(old(table.View()), table.g, AllWrites(visits, table.g.me, peers))
    ensures |visits| == Shared(closest, table.g.me) && Refreshed(old(table.View()), table.g, visits, random, peers)
  {
    ghost var first := table.View();
    visits := [];
    var zeros := LeadingZeros(XorDistance(closest, table.g.me));
    SharedIsLeadingZeros(closest, table.g.me);
    SharedSpec(closest, table.g.me);
    for b := 0 to zeros
      invariant table.Valid() && table.View() == Run(first, table.g, AllWrites(visits, table.g.me, peers))
      invariant |visits| == b && Refreshed(first, table.g, visits, random, peers)
    {
      ghost var now := table.View();
      var v := RefreshOne(table, b, random, peers(b));
      BeforeSame(first, table.g, visits, v, b, peers);
      RefreshedMore(first, table.g, visits, random, peers, v);
      AllWritesMore(visits, v, table.g.me, peers);
      RunConcat(first, table.g, AllWrites(visits, table.g.me, peers), Writes(v.log, table.g.me, peers(b).gone));
      visits := visits + [v];
    }
  }

  method RefreshOne(table: Routing, b: nat, random: nat -> NodeId, peers: Network) returns (v: Visit)
    requires table.Valid() && b < ID_BITS
    modifies table, table.fallback
    ensures table.Valid() && table.View() == Run(old(table.View()), table.g, Writes(v.log, table.g.me, peers.gone))
    ensures VisitOk(old(table.View()), table.g, v, b, random, peers)
  {
    var target := RandomIdInBucket(table.g.me, random(b), b);
    var contacts, log := LookupFromTable(table, target, peers, None, table.View(), []);
    v := Visit(target, contacts, log);
  }

  /** Offers the seed and looks ourselves up; the cache may serve what it answered before. */
  method SelfLookup(table: Routing, c: Contact, peers: Network, served: Option<seq<Contact>>, ghost earlier: Layers, ghost since: seq<Op>)
    returns (contacts: seq<Contact>, log: seq<Event>)
    requires table.Valid() && Cached(table.View(), table.g, table.g.me, served, earlier, since)
    modifies table, table.fallback
    ensures table.Valid() && table.View() == Run(old(table.View()), table.g, SelfWrites(c, table.g.me, log, peers))
    ensures Recorded(log, table.g.me, peers.gone, Writes(log, table.g.me, peers.gone))
    ensures LookedUp(StartOf(Add(old(table.View()), table.g, c), table.g, table.g.me, served),
                     table.g.me, table.g.me, peers, contacts, log)
  {
    var me := table.g.me;
    ghost var before := table.View();
    table.MaybeAddContact(c);
    RunOne(before, table.g, [], Offer(c));
    assert [] + [Offer(c)] == [Offer(c)];
    assert table.View() == Run(before, table.g, [Offer(c)]);
    CachedStill(before, table.g, me, served, earlier, since, c);
    contacts, log := LookupFromTable(table, me, peers, served, earlier, since + [Offer(c)]);
    RunConcat(before, table.g, [Offer(c)], Writes(log, me, peers.gone));
  }

  /** What offering the seed and the self-lookup do to the table. */
  function SelfWrites(c: Contact, me: NodeId, log: seq<Event>, peers: Network): seq<Op> {
    [Offer(c)] + Writes(log, me, peers.gone)
  }

  lemma OneOffered(c: Contact)
    ensures OfferedIn([Offer(c)]) == [c]
  {
    OffersAllOf([c]);
    assert Offers([c]) == [Offer(c)];
  }

  lemma OnlyOffersConcat(a: seq<Op>, b: seq<Op>)
    requires OnlyOffers(a) && OnlyOffers(b)
    ensures OnlyOffers(a + b)
  {
  }

  lemma SelfWritesRecorded(c: Contact, me: NodeId, log: seq<Event>, peers: Network)
    ensures var ops := SelfWrites(c, me, log, peers);
            && NoDrops(ops) && OfferedIn(ops) == [c] + Heard([], me, log)
            && ((forall i :: !peers.gone(i)) ==> OnlyOffers(ops))
  {
    WritesRecorded(log, me, peers.gone);
    OfferedConcat([Offer(c)], Writes(log, me, peers.gone));
    OneOffered(c);
    NoDropsConcat([Offer(c)], Writes(log, me, peers.gone));
    if forall i :: !peers.gone(i) {
      WritesOnlyOffer(log, me, peers.gone);
      OnlyOffersConcat([Offer(c)], Writes(log, me, peers.gone));
    }
  }

  /** What a join does to the table: the seed, what the self-lookup heard, and what the refresh lookups heard. */
  function JoinWrites(c: Contact, me: NodeId, log: seq<Event>, peers: Network, visits: seq<Visit>, later: nat -> Network): seq<Op> {
    SelfWrites(c, me, log, peers) + AllWrites(visits, me, later)
  }

  lemma JoinWritesRecorded(c: Contact, me: NodeId, log: seq<Event>, peers: Network, visits: seq<Visit>, later: nat -> Network)
    ensures var ops := JoinWrites(c, me, log, peers, visits, later);
            && NoDrops(ops) && OfferedIn(ops) == [c] + Heard([], me, log) + AllHeard(visits, me)
            && ((forall i :: !peers.gone(i)) && NobodyGone(later) ==> OnlyOffers(ops))
  {
    SelfWritesRecorded(c, me, log, peers);
    AllWritesRecorded(visits, me, later);
    OfferedConcat(SelfWrites(c, me, log, peers), AllWrites(visits, me, later));
    NoDropsConcat(SelfWrites(c, me, log, peers), AllWrites(visits, me, later));
    if (forall i :: !peers.gone(i)) && NobodyGone(later) {
      OnlyOffersConcat(SelfWrites(c, me, log, peers), AllWrites(visits, me, later));
    }
  }

  lemma JoinHears(c: Contact, me: NodeId, log: seq<Event>, visits: seq<Visit>)
    requires c.id != me
    ensures var s := [c] + Heard([], me, log) + AllHeard(visits, me);
            me !in IdSet(s) && IdSet(s) == {c.id} + IdSet(Heard([], me, log)) + IdSet(AllHeard(visits, me))
  {
    HeardNotUs(me, log);
    AllHeardNotUs(me, visits);
    IdSetOne(c);
    IdSetConcat([c], Heard([], me, log));
    IdSetConcat([c] + Heard([], me, log), AllHeard(visits, me));
  }

  /** A node that joins with an empty table knows, as siblings, the nearest of the seed and everyone it heard of. */
  lemma JoinLearns(l: Layers, g: Config, c: Contact, log: seq<Event>, peers: Network, visits: seq<Visit>, later: nat -> Network)
    requires LayersOk(l, g) && Known(l) == {} && c.id != g.me && (forall i :: !peers.gone(i)) && NobodyGone(later)
    ensures IsNearest(Ids(Run(l, g, JoinWrites(c, g.me, log, peers, visits, later)).siblings),
                      {c.id} + IdSet(Heard([], g.me, log)) + IdSet(AllHeard(visits, g.me)), g.me, g.siblings)
  {
    JoinWritesRecorded(c, g.me, log, peers, visits, later);
    JoinHears(c, g.me, log, visits);
    LearnsNearest(l, g, JoinWrites(c, g.me, log, peers, visits, later));
  }

  /**
   * `bootstrap`: learn the seed's id, add it, look ourselves up, then look up one random id in
   * every bucket farther than our closest neighbour. `random(b)` is the draw for bucket `b` and
   * `log` belongs to the self-lookup. The cache may serve the self-lookup what it answered before
   * the seed was added.
   */
  method Join(table: Routing, seed: Address, ping: Option<NodeId>, random: nat -> NodeId, peers: Network, later: nat -> Network,
              served: Option<seq<Contact>>, ghost earlier: Layers, ghost since: seq<Op>)
    returns (r: Result<seq<Contact>, BootstrapError>, log: seq<Event>, visits: seq<Visit>)
    requires table.Valid() && Cached(table.View(), table.g, table.g.me, served, earlier, since)
    modifies table, table.fallback
    ensures table.Valid()
    ensures r == Err(Unreachable) <==> ping.None?
    ensures r == Err(SelfSeed) <==> ping == Some(table.g.me)
    ensures r.Err? ==> visits == [] && table.View() == old(table.View())
    ensures r.Ok? ==>
              var c, me := Contact(ping.value, seed), table.g.me;
              && table.View() == Run(old(table.View()), table.g, JoinWrites(c, me, log, peers, visits, later))
              && LookedUp(StartOf(Add(old(table.View()), table.g, c), table.g, me, served), me, me, peers, r.value, log)
              && Refreshed(Run(old(table.View()), table.g, SelfWrites(c, me, log, peers)), table.g, visits, random, later)
    ensures r.Ok? ==> |visits| == if r.value == [] then 0 else Shared(r.value[0].id, table.g.me)
    ensures table.g.siblings >= K ==>
              |Known(table.View())| >= if |Known(old(table.View()))| < K then |Known(old(table.View()))| else K
    ensures r.Ok? && Known(old(table.View())) == {} && (forall i :: !peers.gone(i)) && NobodyGone(later) ==>
              IsNearest(Ids(table.View().siblings),
                        {ping.value} + IdSet(Heard([], table.g.me, log)) + IdSet(AllHeard(visits, table.g.me)), table.g.me, table.g.siblings)
  {
    log, visits := [], [];
    if ping.None? { return Err(Unreachable), [], []; }
    if ping.value == table.g.me { return Err(SelfSeed), [], []; }
    ghost var before := table.View();
    var c := Contact(ping.value, seed);
    var contacts;
    contacts, log := SelfLookup(table, c, peers, served, earlier, since);
    r := Ok(contacts);
    if contacts != [] {
      assert contacts[0] in contacts;
      visits := Refresh(table, contacts[0].id, random, later);
    }
    ghost var me := table.g.me;
    RunConcat(before, table.g, SelfWrites(c, me, log, peers), AllWrites(visits, me, later));
    JoinWritesRecorded(c, me, log, peers, visits, later);
    if table.g.siblings >= K { TableFloor(before, table.g, JoinWrites(c, me, log, peers, visits, later)); }
    if Known(before) == {} && (forall i :: !peers.gone(i)) && NobodyGone(later) {
      JoinLearns(before, table.g, c, log, peers, visits, later);
    }
  }
}
