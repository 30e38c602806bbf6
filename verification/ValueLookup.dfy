/** Looking a value up: find the nodes nearest its key, then ask them, ALPHA at a time. */
module ValueLookup {
  import opened Wrappers
  import opened Keys
  import opened Nearest
  import opened SiblingList
  import RoutingTable
  import opened Lookup
  import opened TableLookup
  import opened Store

  /** A peer's answer to FIND_VALUE: a value, or only contacts to try instead. */
  datatype Reply = Found(value: Value) | Closest(contacts: seq<Contact>)

  /** What `lookup_values` collects from replies in the order they arrive. */
  function AcceptedValues(replies: seq<Reply>, accept: Value -> bool, stopAtFirst: bool): seq<Value> {
    if replies == [] then []
    else if replies[0].Found? && accept(replies[0].value) then
      [replies[0].value] + if stopAtFirst then [] else AcceptedValues(replies[1..], accept, stopAtFirst)
    else AcceptedValues(replies[1..], accept, stopAtFirst)
  }

  lemma {:induction false} AcceptedValuesSpec(replies: seq<Reply>, accept: Value -> bool, stopAtFirst: bool)
    ensures forall v :: v in AcceptedValues(replies, accept, stopAtFirst) ==> accept(v) && Found(v) in replies
    ensures !stopAtFirst ==> forall v :: accept(v) && Found(v) in replies ==> v in AcceptedValues(replies, accept, stopAtFirst)
    ensures AcceptedValues(replies, accept, stopAtFirst) == [] <==> forall v :: Found(v) in replies ==> !accept(v)
  {
    if replies != [] {
      AcceptedValuesSpec(replies[1..], accept, stopAtFirst);
      assert replies == [replies[0]] + replies[1..];
    }
  }

  lemma {:induction false} AcceptedMore(replies: seq<Reply>, r: Reply, accept: Value -> bool, stopAtFirst: bool)
    requires stopAtFirst ==> AcceptedValues(replies, accept, stopAtFirst) == []
    ensures AcceptedValues(replies + [r], accept, stopAtFirst)
            == AcceptedValues(replies, accept, stopAtFirst) + if r.Found? && accept(r.value) then [r.value] else []
  {
    if replies == [] {
      assert replies + [r] == [r];
    } else {
      assert (replies + [r])[1..] == replies[1..] + [r];
      AcceptedMore(replies[1..], r, accept, stopAtFirst);
    }
  }

  /** Once a first value was enough, later replies change nothing. */
  lemma {:induction false} AcceptedStays(replies: seq<Reply>, r: Reply, accept: Value -> bool)
    requires AcceptedValues(replies, accept, true) != []
    ensures AcceptedValues(replies + [r], accept, true) == AcceptedValues(replies, accept, true)
  {
    assert (replies + [r])[1..] == replies[1..] + [r];
    if !(replies[0].Found? && accept(replies[0].value)) { AcceptedStays(replies[1..], r, accept); }
  }

  /* ---- the probes ---- */

  /** What the probe loop does on the network, in the order it happens. */
  datatype Probe = Ask(contact: Contact) | Answer(contact: Contact, reply: Reply)

  ghost function Asked(log: seq<Probe>): seq<Contact> {
    if log == [] then []
    else
      var n := |log| - 1;
      Asked(log[..n]) + if log[n].Ask? then [log[n].contact] else []
  }

  ghost function Repliers(log: seq<Probe>): seq<Contact> {
    if log == [] then []
    else
      var n := |log| - 1;
      Repliers(log[..n]) + if log[n].Answer? then [log[n].contact] else []
  }

  function Replies(log: seq<Probe>): seq<Reply> {
    if log == [] then []
    else
      var n := |log| - 1;
      Replies(log[..n]) + if log[n].Answer? then [log[n].reply] else []
  }

  /** An accepted value and who answered with it. */
  datatype Hit = Hit(source: Contact, value: Value)

  ghost function Hits(log: seq<Probe>, accept: Value -> bool): seq<Hit> {
    if log == [] then []
    else
      var n := |log| - 1;
      Hits(log[..n], accept) +
      if log[n].Answer? && log[n].reply.Found? && accept(log[n].reply.value) then [Hit(log[n].contact, log[n].reply.value)] else []
  }

  function Values(hits: seq<Hit>): (r: seq<Value>)
    ensures |r| == |hits| && forall i :: 0 <= i < |r| ==> r[i] == hits[i].value
  {
    seq(|hits|, i requires 0 <= i < |hits| => hits[i].value)
  }

  /** The values of the hits are the accepted ones among the replies. */
  lemma {:induction false} HitsAreAccepted(log: seq<Probe>, accept: Value -> bool, stopAtFirst: bool)
    requires stopAtFirst ==> |Hits(log, accept)| <= 1
    ensures Values(Hits(log, accept)) == AcceptedValues(Replies(log), accept, stopAtFirst)
  {
    if log != [] {
      var n := |log| - 1;
      var before := Hits(log[..n], accept);
      HitsAreAccepted(log[..n], accept, stopAtFirst);
      if log[n].Ask? {
        assert Hits(log, accept) == before && Replies(log) == Replies(log[..n]);
      } else {
        var r := log[n].reply;
        var more := if r.Found? && accept(r.value) then [Hit(log[n].contact, r.value)] else [];
        assert Hits(log, accept) == before + more && Replies(log) == Replies(log[..n]) + [r];
        assert Values(before + more) == Values(before) + Values(more);
        if stopAtFirst && before != [] {
          assert more == [];
          AcceptedStays(Replies(log[..n]), r, accept);
        } else {
          AcceptedMore(Replies(log[..n]), r, accept, stopAtFirst);
        }
      }
    }
  }

  /** What the probes do to the table: contacts sent instead of a value are offered, a peer found gone is forgotten. */
  function ProbeWrites(log: seq<Probe>, gone: nat -> bool): seq<RoutingTable.Op> {
    if log == [] then []
    else
      var n := |log| - 1;
      ProbeWrites(log[..n], gone) + ProbeWrite(log[n], gone(n))
  }

  /** The contacts sent instead of a value, in order. */
  ghost function Named(log: seq<Probe>): seq<Contact> {
    if log == [] then []
    else
      var n := |log| - 1;
      Named(log[..n]) + if log[n].Answer? && log[n].reply.Closest? then log[n].reply.contacts else []
  }

  ghost predicate GoneAt(log: seq<Probe>, gone: nat -> bool, d: Contact) {
    exists i :: 0 <= i < |log| && log[i] == Answer(d, Closest([])) && gone(i)
  }

  /**
   * What the probes make of the table: exactly the contacts sent instead of a value are offered, in
   * order, and exactly the peers whose empty answer meant they are gone are forgotten.
   */
  ghost predicate ProbesRecorded(log: seq<Probe>, gone: nat -> bool, ops: seq<RoutingTable.Op>) {
    && RoutingTable.NoDrops(ops) && OfferedIn(ops) == Named(log)
    && forall d :: RoutingTable.Op.Forget(d) in ops <==> GoneAt(log, gone, d)
  }

  lemma GoneAtStep(log: seq<Probe>, gone: nat -> bool, d: Contact)
    requires log != []
    ensures var n := |log| - 1; GoneAt(log, gone, d) <==> GoneAt(log[..n], gone, d) || (log[n] == Answer(d, Closest([])) && gone(n))
  {
    var n := |log| - 1;
    if GoneAt(log[..n], gone, d) {
      var i :| 0 <= i < n && log[..n][i] == Answer(d, Closest([])) && gone(i);
      assert log[i] == Answer(d, Closest([]));
    }
    if GoneAt(log, gone, d) {
      var i :| 0 <= i < |log| && log[i] == Answer(d, Closest([])) && gone(i);
      if i < n { assert log[..n][i] == Answer(d, Closest([])); }
    }
  }

  /** What one probe event does to the table. */
  function ProbeWrite(e: Probe, gone: bool): seq<RoutingTable.Op> {
    if !(e.Answer? && e.reply.Closest?) then []
    else if e.reply.contacts == [] && gone then [RoutingTable.Forget(e.contact)]
    else RoutingTable.Offers(e.reply.contacts)
  }

  lemma ProbeWriteOffers(e: Probe, gone: bool)
    ensures RoutingTable.NoDrops(ProbeWrite(e, gone))
    ensures OfferedIn(ProbeWrite(e, gone)) == if e.Answer? && e.reply.Closest? then e.reply.contacts else []
    ensures forall d :: RoutingTable.Op.Forget(d) in ProbeWrite(e, gone) <==> e == Answer(d, Closest([])) && gone
  {
    if e.Answer? && e.reply.Closest? {
      OffersAllOf(e.reply.contacts);
      assert [RoutingTable.Op.Forget(e.contact)][..0] == [];
    }
  }

  lemma {:induction false} ProbeWritesRecorded(log: seq<Probe>, gone: nat -> bool)
    ensures ProbesRecorded(log, gone, ProbeWrites(log, gone))
  {
    if log != [] {
      var n := |log| - 1;
      var before, last := ProbeWrites(log[..n], gone), ProbeWrite(log[n], gone(n));
      ProbeWritesRecorded(log[..n], gone);
      ProbeWriteOffers(log[n], gone(n));
      OfferedConcat(before, last);
      RoutingTable.NoDropsConcat(before, last);
      forall d ensures RoutingTable.Op.Forget(d) in before + last <==> GoneAt(log, gone, d) {
        GoneAtStep(log, gone, d);
      }
    }
  }

  /** At most ALPHA probes are open at any time, and each is answered once, by whom it went to. */
  ghost predicate Paced(log: seq<Probe>, peer: (Contact, nat) -> Reply) {
    log == [] ||
    var n := |log| - 1;
    var past := log[..n];
    && Paced(past, peer)
    && (log[n].Ask? ==> |Asked(past)| < |Repliers(past)| + ALPHA)
    && (log[n].Answer? ==>
          && log[n].contact in Asked(past) && log[n].contact !in Repliers(past)
          && exists k :: log[n].reply == peer(log[n].contact, k))
  }

  lemma LogAsk(log: seq<Probe>, c: Contact)
    ensures Asked(log + [Ask(c)]) == Asked(log) + [c] && Repliers(log + [Ask(c)]) == Repliers(log)
    ensures forall accept :: Hits(log + [Ask(c)], accept) == Hits(log, accept)
  {
    assert (log + [Ask(c)])[..|log|] == log;
  }

  lemma LogAnswer(log: seq<Probe>, c: Contact, r: Reply)
    ensures Asked(log + [Answer(c, r)]) == Asked(log) && Repliers(log + [Answer(c, r)]) == Repliers(log) + [c]
    ensures forall accept ::
              Hits(log + [Answer(c, r)], accept) == Hits(log, accept) + if r.Found? && accept(r.value) then [Hit(c, r.value)] else []
  {
    assert (log + [Answer(c, r)])[..|log|] == log;
  }

  /** What holds whenever the loop is entered: `next` candidates were asked, and those of `open` not answered yet. */
  ghost predicate Probing(queue: seq<Contact>, peer: (Contact, nat) -> Reply, log: seq<Probe>, next: nat, open: seq<Contact>) {
    && Paced(log, peer) && next <= |queue| && Asked(log) == queue[..next]
    && |open| <= ALPHA && |open| + |Repliers(log)| == next
    && DistinctIds(open) && forall c :: c in open <==> c in queue[..next] && c !in Repliers(log)
  }

  lemma AskNext(queue: seq<Contact>, peer: (Contact, nat) -> Reply, log: seq<Probe>, next: nat, open: seq<Contact>)
    requires DistinctIds(queue) && Probing(queue, peer, log, next, open) && next < |queue| && |open| < ALPHA
    requires forall c :: c in Repliers(log) ==> c in queue[..next]
    ensures Probing(queue, peer, log + [Ask(queue[next])], next + 1, open + [queue[next]])
  {
    var c := queue[next];
    LogAsk(log, c);
    assert (log + [Ask(c)])[..|log|] == log;
    assert queue[..next + 1] == queue[..next] + [c];
    assert forall d :: d in queue[..next] ==> d.id != c.id;
  }

  lemma TakeAnswer(queue: seq<Contact>, peer: (Contact, nat) -> Reply, log: seq<Probe>, next: nat, open: seq<Contact>, k: nat, n: nat)
    requires Probing(queue, peer, log, next, open) && k < |open|
    ensures Probing(queue, peer, log + [Answer(open[k], peer(open[k], n))], next, open[..k] + open[k + 1..])
  {
    var c, r := open[k], peer(open[k], n);
    var rest := open[..k] + open[k + 1..];
    LogAnswer(log, c, r);
    assert (log + [Answer(c, r)])[..|log|] == log;
    forall d ensures d in rest <==> d in open && d != c {
      if d in open && d != c {
        var i :| 0 <= i < |open| && open[i] == d;
        assert rest[if i < k then i else i - 1] == d;
      }
    }
  }

  lemma {:induction false} RepliersAsked(log: seq<Probe>, peer: (Contact, nat) -> Reply)
    requires Paced(log, peer)
    ensures forall c :: c in Repliers(log) ==> c in Asked(log)
  {
    if log != [] { RepliersAsked(log[..|log| - 1], peer); }
  }

  /** Asks the next candidates until ALPHA probes are open or none is left. */
  method AskMore(queue: seq<Contact>, ghost peer: (Contact, nat) -> Reply, log: seq<Probe>, next: nat, open: seq<Contact>)
    returns (nowLog: seq<Probe>, nowNext: nat, nowOpen: seq<Contact>)
    requires DistinctIds(queue) && Probing(queue, peer, log, next, open)
    ensures Probing(queue, peer, nowLog, nowNext, nowOpen)
    ensures Repliers(nowLog) == Repliers(log) && forall accept :: Hits(nowLog, accept) == Hits(log, accept)
    ensures |nowOpen| == ALPHA || nowNext == |queue|
  {
    nowLog, nowNext, nowOpen := log, next, open;
    while |nowOpen| < ALPHA
      invariant Probing(queue, peer, nowLog, nowNext, nowOpen)
      invariant Repliers(nowLog) == Repliers(log) && forall accept :: Hits(nowLog, accept) == Hits(log, accept)
      decreases ALPHA - |nowOpen|
    {
      if nowNext == |queue| { return; }
      RepliersAsked(nowLog, peer);
      AskNext(queue, peer, nowLog, nowNext, nowOpen);
      LogAsk(nowLog, queue[nowNext]);
      nowLog := nowLog + [Ask(queue[nowNext])];
      nowOpen := nowOpen + [queue[nowNext]];
      nowNext := nowNext + 1;
    }
  }

  /** `hits` are what this log of probes of `queue` yields; all were asked unless a first value was enough. */
  ghost predicate Probed(queue: seq<Contact>, peer: (Contact, nat) -> Reply, accept: Value -> bool, stopAtFirst: bool,
                         log: seq<Probe>, hits: seq<Hit>) {
    && Paced(log, peer) && Asked(log) <= queue
    && hits == Hits(log, accept) && (stopAtFirst ==> |hits| <= 1)
    && Values(hits) == AcceptedValues(Replies(log), accept, stopAtFirst)
    && (!stopAtFirst || hits == [] ==>
          && Asked(log) == queue && |Repliers(log)| == |queue| && forall c :: c in queue ==> c in Repliers(log))
  }

  /** The probe loop: a bad reply costs one probe and is skipped. */
  method ProbeAll(queue: seq<Contact>, peer: (Contact, nat) -> Reply, order: nat -> nat, accept: Value -> bool, stopAtFirst: bool)
    returns (hits: seq<Hit>, log: seq<Probe>)
    requires DistinctIds(queue)
    ensures Probed(queue, peer, accept, stopAtFirst, log, hits)
  {
    hits, log := [], [];
    var next: nat, open: seq<Contact>, replies: nat := 0, [], 0;
    while true
      invariant Probing(queue, peer, log, next, open) && (stopAtFirst ==> hits == [])
      invariant hits == Hits(log, accept)
      decreases |queue| - |Repliers(log)|
    {
      log, next, open := AskMore(queue, peer, log, next, open);
      if open == [] {
        assert queue[..next] == queue;
        HitsAreAccepted(log, accept, stopAtFirst);
        return;
      }
      var k := order(replies) % |open|;
      var source := open[k];
      var reply := peer(source, replies);
      TakeAnswer(queue, peer, log, next, open, k, replies);
      LogAnswer(log, source, reply);
      log := log + [Answer(source, reply)];
      open := open[..k] + open[k + 1..];
      replies := replies + 1;
      if reply.Found? && accept(reply.value) {
        hits := hits + [Hit(source, reply.value)];
        if stopAtFirst {
          HitsAreAccepted(log, accept, stopAtFirst);
          return;
        }
      }
    }
  }

  /** Whom a value lookup asks: the K nearest to the key of everything the node lookup heard and ourselves. */
  ghost function Queue(start: seq<Contact>, us: Contact, key: Key, nodes: seq<Lookup.Event>): seq<Contact> {
    Settle(Heard(start, us.id, nodes) + [us], key, K)
  }

  lemma QueueNearest(start: seq<Contact>, us: Contact, key: Key, nodes: seq<Lookup.Event>)
    ensures IsNearest(Ids(Queue(start, us, key, nodes)), Seen(start, us.id, nodes) + {us.id}, key, K)
    ensures DistinctIds(Queue(start, us, key, nodes))
    ensures Settle(Settle(Heard(start, us.id, nodes), key, K) + [us], key, K) == Queue(start, us, key, nodes)
  {
    SettleMerge(Heard(start, us.id, nodes), [us], key, K);
    SettleNearest(Heard(start, us.id, nodes) + [us], key, K);
    IdSetConcat(Heard(start, us.id, nodes), [us]);
    IdSetOne(us);
    HeardIds(start, us.id, nodes);
  }

  /**
   * `lookup_values`: after the node lookup, asks the queue. `us` is our own contact, whom no lookup
   * returns but who may hold the value; `gone(i)` says whether probe event `i` found its peer gone.
   */
  method LookupValues(table: RoutingTable.Routing, us: Contact, key: Key, peers: Network, peer: (Contact, nat) -> Reply,
                      gone: nat -> bool, accept: Value -> bool, stopAtFirst: bool,
                      served: Option<seq<Contact>>, ghost earlier: Layers, ghost since: seq<RoutingTable.Op>)
    returns (hits: seq<Hit>, nodes: seq<Lookup.Event>, log: seq<Probe>)
    requires table.Valid() && us.id == table.g.me && Cached(table.View(), table.g, key, served, earlier, since)
    modifies table, table.fallback
    ensures table.Valid()
    ensures table.View() ==
            RoutingTable.Run(old(table.View()), table.g, Writes(nodes, us.id, peers.gone) + ProbeWrites(log, gone))
    ensures Recorded(nodes, us.id, peers.gone, Writes(nodes, us.id, peers.gone))
    ensures ProbesRecorded(log, gone, ProbeWrites(log, gone))
    ensures var start := old(StartOf(table.View(), table.g, key, served));
            && WellPaced(start, us.id, key, nodes) && Answers(nodes, peers.net)
            && IsNearest(Ids(Queue(start, us, key, nodes)), Seen(start, us.id, nodes) + {us.id}, key, K)
            && Probed(Queue(start, us, key, nodes), peer, accept, stopAtFirst, log, hits)
  {
    ghost var before := table.View();
    ghost var start := StartOf(before, table.g, key, served);
    var near;
    near, nodes := LookupFromTable(table, key, peers, served, earlier, since);
    var queue := SettleContacts(near + [us], key);
    QueueNearest(start, us, key, nodes);
    hits, log := ProbeAll(queue, peer, peers.order, accept, stopAtFirst);
    ProbeWritesRecorded(log, gone);
    table.Perform(ProbeWrites(log, gone));
    RoutingTable.RunConcat(before, table.g, Writes(nodes, us.id, peers.gone), ProbeWrites(log, gone));
  }
}
