/** The liveness round: ping everyone the table lists, then forget who did not answer. */
module Maintenance {
  import opened Wrappers
  import opened Keys
  import opened Nearest
  import opened StaticBucket
  import opened SiblingList
  import opened RoutingTable

  /** `c` was pinged, and some ping of it was not answered by `c` itself. */
  ghost predicate Silent(pinged: seq<Contact>, ping: (Contact, nat) -> Option<NodeId>, c: Contact) {
    exists i :: 0 <= i < |pinged| && pinged[i] == c && ping(pinged[i], i) != Some(c.id)
  }

  lemma SilentMore(pinged: seq<Contact>, ping: (Contact, nat) -> Option<NodeId>, d: Contact)
    ensures forall c :: Silent(pinged + [d], ping, c) <==>
                        Silent(pinged, ping, c) || (c == d && ping(d, |pinged|) != Some(c.id))
  {
    var n, all := |pinged|, pinged + [d];
    forall c | Silent(pinged, ping, c) ensures Silent(all, ping, c) {
      var i :| 0 <= i < n && pinged[i] == c && ping(pinged[i], i) != Some(c.id);
      assert all[i] == c;
    }
    forall c | Silent(all, ping, c) ensures Silent(pinged, ping, c) || (c == d && ping(d, n) != Some(c.id)) {
      var i :| 0 <= i <= n && all[i] == c && ping(all[i], i) != Some(c.id);
      if i < n { assert pinged[i] == c; }
    }
    assert all[n] == d;
  }

  /** No operation concerns this id. */
  ghost predicate Untouched(ops: seq<Op>, id: NodeId) {
    forall i :: 0 <= i < |ops| ==> ops[i].contact.id != id
  }

  lemma StaysStep(l: Layers, g: Config, op: Op, c: Contact)
    requires LayersOk(l, g) && c in Flatten(l.buckets) && op.contact.id != c.id
    ensures c in Flatten(Step(l, g, op).buckets)
  {
    AddFlatten(l.buckets, g.me, g.size, op.contact);
    RemoveFlatten(l.buckets, g.me, g.size, op.contact);
  }

  /** A contact whose id no operation concerns stays in its bucket. */
  lemma {:induction false} Stays(l: Layers, g: Config, ops: seq<Op>, c: Contact)
    requires LayersOk(l, g) && c in Flatten(l.buckets) && Untouched(ops, c.id)
    ensures c in Flatten(Run(l, g, ops).buckets)
  {
    if ops != [] {
      Stays(l, g, ops[..|ops| - 1], c);
      RunKeeps(l, g, ops[..|ops| - 1]);
      StaysStep(Run(l, g, ops[..|ops| - 1]), g, ops[|ops| - 1], c);
    }
  }

  /** The state of a round: what was pinged, who did not answer, and what else happened to the table. */
  datatype Round = Round(pinged: seq<Contact>, dead: set<Contact>, heard: seq<Op>)

  /** What happens to the table during the first `n` pings. */
  function Meanwhile(meanwhile: nat -> seq<Op>, n: nat): seq<Op> {
    if n == 0 then [] else Meanwhile(meanwhile, n - 1) + meanwhile(n - 1)
  }

  ghost predicate RoundOk(ping: (Contact, nat) -> Option<NodeId>, meanwhile: nat -> seq<Op>, r: Round) {
    && NoDrops(r.heard) && r.heard == Meanwhile(meanwhile, |r.pinged|)
    && forall c :: c in r.dead <==> Silent(r.pinged, ping, c)
  }

  /** The round after one more ping. */
  function Pinged(r: Round, c: Contact, ping: (Contact, nat) -> Option<NodeId>, meanwhile: nat -> seq<Op>): Round {
    var k := |r.pinged|;
    Round(r.pinged + [c], if ping(c, k) != Some(c.id) then r.dead + {c} else r.dead, r.heard + meanwhile(k))
  }

  lemma PingedOk(r: Round, c: Contact, ping: (Contact, nat) -> Option<NodeId>, meanwhile: nat -> seq<Op>)
    requires RoundOk(ping, meanwhile, r) && NoDrops(meanwhile(|r.pinged|))
    ensures RoundOk(ping, meanwhile, Pinged(r, c, ping, meanwhile))
  {
    SilentMore(r.pinged, ping, c);
    NoDropsConcat(r.heard, meanwhile(|r.pinged|));
  }

  /** Pings these contacts; after ping number `k` the table sees `meanwhile(k)`. */
  method PingEach(table: Routing, ghost first: Layers, list: seq<Contact>, ping: (Contact, nat) -> Option<NodeId>,
                  meanwhile: nat -> seq<Op>, r: Round)
    returns (n: Round)
    requires table.Valid() && LayersOk(first, table.g) && table.View() == Run(first, table.g, r.heard)
    requires RoundOk(ping, meanwhile, r) && forall k :: NoDrops(meanwhile(k))
    modifies table, table.fallback
    ensures table.Valid() && table.View() == Run(first, table.g, n.heard)
    ensures RoundOk(ping, meanwhile, n) && n.pinged == r.pinged + list && r.heard <= n.heard
  {
    n := r;
    for i := 0 to |list|
      invariant table.Valid() && table.View() == Run(first, table.g, n.heard)
      invariant RoundOk(ping, meanwhile, n) && n.pinged == r.pinged + list[..i] && r.heard <= n.heard
    {
      var more := meanwhile(|n.pinged|);
      PingedOk(n, list[i], ping, meanwhile);
      RunConcat(first, table.g, n.heard, more);
      table.Perform(more);
      n := Pinged(n, list[i], ping, meanwhile);
      assert list[..i + 1] == list[..i] + [list[i]];
    }
    assert list[..|list|] == list;
  }

  /** Every contact of the buckets below `i` that was left alone has been pinged. */
  ghost predicate Covered(first: Layers, me: NodeId, i: nat, r: Round)
    requires |first.buckets| > 0
  {
    forall c :: c in Flatten(first.buckets) && BucketIndex(me, c.id, |first.buckets|) < i && Untouched(r.heard, c.id) ==> c in r.pinged
  }

  /** The contacts of bucket `i` that were left alone are in it when it is read. */
  lemma CoveredStep(first: Layers, g: Config, i: nat, r: Round, list: seq<Contact>, n: Round)
    requires LayersOk(first, g) && i < |first.buckets| && Covered(first, g.me, i, r)
    requires list == Run(first, g, r.heard).buckets[i] && n.pinged == r.pinged + list && r.heard <= n.heard
    ensures Covered(first, g.me, i + 1, n)
  {
    RunKeeps(first, g, r.heard);
    forall c | c in Flatten(first.buckets) && BucketIndex(g.me, c.id, |first.buckets|) < i + 1 && Untouched(n.heard, c.id)
      ensures c in n.pinged
    {
      assert Untouched(r.heard, c.id) by {
        forall k | 0 <= k < |r.heard| ensures r.heard[k].contact.id != c.id {
          assert n.heard[k] == r.heard[k];
        }
      }
      Stays(first, g, r.heard, c);
      FlattenIn(Run(first, g, r.heard).buckets, g.me, g.size, c);
    }
  }

  /** Walks the listing as the iterator does: a copy of the siblings, then each bucket as it is when reached. */
  method PingAll(table: Routing, ping: (Contact, nat) -> Option<NodeId>, meanwhile: nat -> seq<Op>) returns (r: Round)
    requires table.Valid() && forall k :: NoDrops(meanwhile(k))
    modifies table, table.fallback
    ensures table.Valid() && table.View() == Run(old(table.View()), table.g, r.heard) && RoundOk(ping, meanwhile, r)
    ensures forall c :: c in old(Listing(table.View())) && Untouched(r.heard, c.id) ==> c in r.pinged
  {
    ghost var first := table.View();
    var count := |table.fallback.buckets|;
    r := PingEach(table, first, table.siblings, ping, meanwhile, Round([], {}, []));
    for i := 0 to count
      invariant table.Valid() && table.View() == Run(first, table.g, r.heard) && RoundOk(ping, meanwhile, r)
      invariant first.siblings <= r.pinged && Covered(first, table.g.me, i, r)
    {
      ghost var before := r;
      ghost var list := table.fallback.buckets[i];
      r := PingEach(table, first, table.fallback.buckets[i], ping, meanwhile, r);
      CoveredStep(first, table.g, i, before, list, r);
    }
    forall c | c in Listing(first) && Untouched(r.heard, c.id) ensures c in r.pinged {
      if c in first.siblings { assert c in r.pinged[..|first.siblings|]; }
    }
  }

  /**
   * `check_liveness`. `ping(c, k)` is what ping number `k` gets, and `meanwhile(k)` what happens to
   * the table before the next. Afterwards whoever did not answer as themselves is forgotten.
   */
  method CheckLiveness(table: Routing, ping: (Contact, nat) -> Option<NodeId>, meanwhile: nat -> seq<Op>)
    returns (r: Round, ops: seq<Op>)
    requires table.Valid() && forall k :: NoDrops(meanwhile(k))
    modifies table, table.fallback
    ensures r.heard == Meanwhile(meanwhile, |r.pinged|)
    ensures table.Valid() && r.heard <= ops && NoDrops(ops) && table.View() == Run(old(table.View()), table.g, ops)
    ensures forall c :: c in old(Listing(table.View())) && Untouched(r.heard, c.id) ==> c in r.pinged
    ensures forall c :: c in Listing(Run(old(table.View()), table.g, r.heard)) && !Silent(r.pinged, ping, c) ==> c in Listing(table.View())
    ensures forall c :: c in Listing(table.View()) ==> c in Listing(Run(old(table.View()), table.g, r.heard))
    ensures forall c :: Silent(r.pinged, ping, c) ==> c !in Listing(table.View()) || |Known(table.View())| <= K
    ensures table.g.siblings >= K ==>
              |Known(table.View())| >= if |old(Known(table.View()))| < K then |old(Known(table.View()))| else K
  {
    ghost var first := table.View();
    r := PingAll(table, ping, meanwhile);
    ghost var all := Listing(table.View());
    var dead := r.dead;
    ops := r.heard;
    while dead != {}
      invariant table.Valid() && dead <= r.dead
      invariant r.heard <= ops && NoDrops(ops) && table.View() == Run(first, table.g, ops)
      invariant forall c :: c in Listing(table.View()) ==> c in all
      invariant forall c :: c in all && c !in r.dead ==> c in Listing(table.View())
      invariant forall c :: c in r.dead && c !in dead ==> c !in Listing(table.View()) || |Known(table.View())| <= K
      decreases dead
    {
      var c :| c in dead;
      ForgetShrinks(table.View(), table.g, c);
      ForgetLast(first, table.g, ops, c);
      table.Forget(c);
      ops := ops + [Op.Forget(c)];
      dead := dead - {c};
    }
    if table.g.siblings >= K { TableFloor(first, table.g, ops); }
  }

  lemma ForgetLast(l: Layers, g: Config, ops: seq<Op>, c: Contact)
    requires |l.buckets| > 0 && NoDrops(ops)
    ensures Run(l, g, ops + [Op.Forget(c)]) == ForgetIn(Run(l, g, ops), g, c) && NoDrops(ops + [Op.Forget(c)])
  {
    assert (ops + [Op.Forget(c)])[..|ops|] == ops;
  }
}
