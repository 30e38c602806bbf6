/** Lookups from the routing table: where they start, and what they do to it. */
module TableLookup {
  import opened Wrappers
  import opened Keys
  import opened Metric
  import opened Nearest
  import opened StaticBucket
  import opened SiblingList
  import opened RoutingTable
  import opened Lookup

  /** What a table answers can start a lookup: no id twice, and never our own. */
  lemma AnswerStartsLookup(l: Layers, g: Config, t: NodeId)
    requires LayersOk(l, g)
    ensures DistinctIds(CloseNodes(l, g, t)) && g.me !in IdSet(CloseNodes(l, g, t))
  {
    SettleNearest(CloseNodesOf(l.buckets, g.me, t) + l.siblings, t, K);
    AnswerFromTable(l, g, t);
    IdsMembers(l.siblings);
    forall c | c in Listing(l)
      ensures c.id != g.me
    {
      if c in Flatten(l.buckets) {
        FlattenIn(l.buckets, g.me, g.size, c);
      } else {
        assert c.id in IdSet(l.siblings);
      }
    }
  }

  /**
   * What the cache may serve for `t` now: an answer of an `earlier` table, to which contacts were
   * only offered `since`, as additions do not invalidate it.
   */
  ghost predicate Cached(l: Layers, g: Config, t: NodeId, served: Option<seq<Contact>>, earlier: Layers, since: seq<Op>) {
    served.Some? ==>
      LayersOk(earlier, g) && OnlyOffers(since) && l == Run(earlier, g, since) && served.value == CloseNodes(earlier, g, t)
  }

  lemma CachedStill(l: Layers, g: Config, t: NodeId, served: Option<seq<Contact>>, earlier: Layers, since: seq<Op>, c: Contact)
    requires LayersOk(l, g) && Cached(l, g, t, served, earlier, since)
    ensures Cached(Add(l, g, c), g, t, served, earlier, since + [Offer(c)])
  {
    assert (since + [Offer(c)])[..|since|] == since;
  }

  /** Where a lookup starts: at what the cache serves, else at what the table answers. */
  ghost function StartOf(l: Layers, g: Config, t: NodeId, served: Option<seq<Contact>>): seq<Contact>
    requires |l.buckets| > 0
  {
    if served.Some? then served.value else CloseNodes(l, g, t)
  }

  /** How peers behave during one lookup: what they answer, in which order, and which silent ones are gone. */
  datatype Network = Network(net: (Contact, nat) -> seq<Contact>, order: nat -> nat, gone: nat -> bool)

  /** What a lookup does to the table: contacts heard are offered, a peer found gone is forgotten. */
  function Writes(log: seq<Event>, me: NodeId, gone: nat -> bool): seq<Op> {
    if log == [] then []
    else
      var n := |log| - 1;
      Writes(log[..n], me, gone) +
      if log[n].Query? then []
      else if log[n].contacts == [] && gone(n) then [Forget(log[n].contact)]
      else Offers(Without(log[n].contacts, me))
  }

  lemma {:induction false} WritesDropNothing(log: seq<Event>, me: NodeId, gone: nat -> bool)
    ensures NoDrops(Writes(log, me, gone))
  {
    if log != [] { WritesDropNothing(log[..|log| - 1], me, gone); }
  }

  /** The contacts offered, in order. */
  function OfferedIn(ops: seq<Op>): seq<Contact> {
    if ops == [] then []
    else
      var n := |ops| - 1;
      OfferedIn(ops[..n]) + if ops[n].Offer? then [ops[n].contact] else []
  }

  lemma {:induction false} OfferedConcat(a: seq<Op>, b: seq<Op>)
    ensures OfferedIn(a + b) == OfferedIn(a) + OfferedIn(b)
    decreases |b|
  {
    if b == [] {
      assert a + b == a;
    } else {
      var n := |b| - 1;
      OfferedConcat(a, b[..n]);
      assert (a + b)[..|a| + n] == a + b[..n];
      var last := if b[n].Offer? then [b[n].contact] else [];
      assert OfferedIn(a) + (OfferedIn(b[..n]) + last) == (OfferedIn(a) + OfferedIn(b[..n])) + last;
    }
  }

  lemma {:induction false} OffersAllOf(s: seq<Contact>)
    ensures OfferedIn(Offers(s)) == s
  {
    if s != [] {
      OffersAllOf(s[..|s| - 1]);
      assert Offers(s)[..|s| - 1] == Offers(s[..|s| - 1]);
    }
  }

  /**
   * What a log makes of the table: exactly the contacts heard are offered, in the order heard, and
   * exactly the peers whose empty reply meant they are gone are forgotten.
   */
  ghost predicate Recorded(log: seq<Event>, me: NodeId, gone: nat -> bool, ops: seq<Op>) {
    && NoDrops(ops) && OfferedIn(ops) == Heard([], me, log)
    && forall d :: Op.Forget(d) in ops <==> GoneIn(log, gone, d)
  }

  ghost predicate GoneIn(log: seq<Event>, gone: nat -> bool, d: Contact) {
    exists i :: 0 <= i < |log| && log[i] == Reply(d, []) && gone(i)
  }

  lemma GoneStep(log: seq<Event>, gone: nat -> bool, d: Contact)
    requires log != []
    ensures var n := |log| - 1; GoneIn(log, gone, d) <==> GoneIn(log[..n], gone, d) || (log[n] == Reply(d, []) && gone(n))
  {
    var n := |log| - 1;
    if GoneIn(log[..n], gone, d) {
      var i :| 0 <= i < n && log[..n][i] == Reply(d, []) && gone(i);
      assert log[i] == Reply(d, []);
    }
    if GoneIn(log, gone, d) {
      var i :| 0 <= i < |log| && log[i] == Reply(d, []) && gone(i);
      if i < n { assert log[..n][i] == Reply(d, []); }
    }
  }

  lemma {:induction false} WritesOffered(log: seq<Event>, me: NodeId, gone: nat -> bool)
    ensures OfferedIn(Writes(log, me, gone)) == Heard([], me, log)
  {
    if log != [] {
      var n := |log| - 1;
      WritesOffered(log[..n], me, gone);
      var last := if log[n].Query? then []
                  else if log[n].contacts == [] && gone(n) then [Op.Forget(log[n].contact)]
                  else Offers(Without(log[n].contacts, me));
      OfferedConcat(Writes(log[..n], me, gone), last);
      if log[n].Reply? { OffersAllOf(Without(log[n].contacts, me)); }
      if log[n].Reply? && log[n].contacts == [] && gone(n) {
        assert last[..0] == [];
        assert Without(log[n].contacts, me) == [];
      }
    }
  }

  lemma {:induction false} WritesForget(log: seq<Event>, me: NodeId, gone: nat -> bool, d: Contact)
    ensures Op.Forget(d) in Writes(log, me, gone) <==> GoneIn(log, gone, d)
  {
    if log != [] {
      WritesForget(log[..|log| - 1], me, gone, d);
      GoneStep(log, gone, d);
    }
  }

  /** The writes are what the log says, and those of a part of the log come first. */
  lemma WritesRecorded(log: seq<Event>, me: NodeId, gone: nat -> bool)
    ensures Recorded(log, me, gone, Writes(log, me, gone))
    ensures forall m :: 0 <= m <= |log| ==> Writes(log[..m], me, gone) <= Writes(log, me, gone)
  {
    WritesDropNothing(log, me, gone);
    WritesOffered(log, me, gone);
    forall d ensures Op.Forget(d) in Writes(log, me, gone) <==> GoneIn(log, gone, d) {
      WritesForget(log, me, gone, d);
    }
    forall m | 0 <= m <= |log| ensures Writes(log[..m], me, gone) <= Writes(log, me, gone) {
      WritesPrefix(log, me, gone, m);
    }
  }

  lemma {:induction false} WritesPrefix(log: seq<Event>, me: NodeId, gone: nat -> bool, m: nat)
    requires m <= |log|
    ensures Writes(log[..m], me, gone) <= Writes(log, me, gone)
  {
    if m == |log| {
      assert log[..m] == log;
    } else {
      WritesPrefix(log[..|log| - 1], me, gone, m);
      assert log[..|log| - 1][..m] == log[..m];
    }
  }

  /* ---- what the table learns when nobody is gone ---- */

  lemma {:induction false} OfferedIds(ops: seq<Op>, me: NodeId)
    requires OnlyOffers(ops) && me !in IdSet(OfferedIn(ops))
    ensures Offered(ops, me) == IdSet(OfferedIn(ops))
  {
    if ops != [] {
      var n := |ops| - 1;
      IdSetConcat(OfferedIn(ops[..n]), [ops[n].contact]);
      IdSetOne(ops[n].contact);
      OfferedIds(ops[..n], me);
      OfferedStep(ops, me);
    }
  }

  lemma NobodyForgotten(ops: seq<Op>)
    requires NoDrops(ops) && forall d :: Op.Forget(d) !in ops
    ensures OnlyOffers(ops)
  {
    forall i | 0 <= i < |ops| ensures ops[i].Offer? {
      var op := ops[i];
      assert op in ops;
      ThreeKinds(op);
    }
  }

  lemma ThreeKinds(op: Op)
    ensures op == Op.Offer(op.contact) || op == Op.Drop(op.contact) || op == Op.Forget(op.contact)
  {
  }

  /** A table that starts empty and is only offered contacts has the nearest of them as siblings. */
  lemma LearnsNearest(l: Layers, g: Config, ops: seq<Op>)
    requires LayersOk(l, g) && Known(l) == {} && OnlyOffers(ops) && g.me !in IdSet(OfferedIn(ops))
    ensures IsNearest(Ids(Run(l, g, ops).siblings), IdSet(OfferedIn(ops)), g.me, g.siblings)
  {
    OfferedIds(ops, g.me);
    SiblingExactness(l, g, ops);
  }

  /** `contacts` is what a lookup from `start` found with this log. */
  ghost predicate LookedUp(start: seq<Contact>, me: NodeId, target: NodeId, peers: Network, contacts: seq<Contact>, log: seq<Event>) {
    && WellPaced(start, me, target, log) && Answers(log, peers.net)
    && contacts == Settle(Heard(start, me, log), target, K)
    && IsNearest(Ids(contacts), Seen(start, me, log), target, K)
    && forall c :: c in contacts ==> Query(c) in log && c.id in Answered(log) && c.id != me
  }

  /** A lookup from the cache or the table. It reads them only at the start, so its writes come after. */
  method LookupFromTable(table: Routing, target: NodeId, peers: Network,
                         served: Option<seq<Contact>>, ghost earlier: Layers, ghost since: seq<Op>)
    returns (contacts: seq<Contact>, log: seq<Event>)
    requires table.Valid() && Cached(table.View(), table.g, target, served, earlier, since)
    modifies table, table.fallback
    ensures table.Valid() && table.View() == Run(old(table.View()), table.g, Writes(log, table.g.me, peers.gone))
    ensures Recorded(log, table.g.me, peers.gone, Writes(log, table.g.me, peers.gone))
    ensures LookedUp(old(StartOf(table.View(), table.g, target, served)), table.g.me, target, peers, contacts, log)
  {
    var start;
    if served.Some? {
      start := served.value;
      AnswerStartsLookup(earlier, table.g, target);
    } else {
      start := table.CloseNodes(target);
      AnswerStartsLookup(table.View(), table.g, target);
    }
    contacts, log := LookupNode(table.g.me, target, start, peers.net, peers.order);
    WritesRecorded(log, table.g.me, peers.gone);
    table.Perform(Writes(log, table.g.me, peers.gone));
  }
}
