/** A lookup over nodes that answer from their tables ends at the nodes nearest the target. */
module Convergence {
  import opened Keys
  import opened Metric
  import opened Nearest
  import opened StaticBucket
  import opened SiblingList
  import opened RoutingTable
  import opened Lookup
  import opened Exactness

  /** The production parameters: K per bucket, K siblings, one bucket per bit. */
  function Recommended(me: NodeId): Config {
    Config(me, K, K)
  }

  /**
   * The table of `x`: it holds only nodes, and every bucket into which some node other than the
   * searcher falls holds a contact other than the searcher.
   */
  ghost predicate Covers(l: Layers, x: NodeId, nodes: set<NodeId>, searcher: NodeId) {
    && LayersOk(l, Recommended(x)) && |l.buckets| == ID_BITS
    && Known(l) <= nodes
    && forall y :: y in nodes && y != x && y != searcher ==>
         exists c :: c in l.buckets[BucketIndex(x, y, ID_BITS)] && c.id != searcher
  }

  /** Every node but the searcher answers from such a table, which may change between answers. */
  ghost predicate Honest(net: (Contact, nat) -> seq<Contact>, nodes: set<NodeId>, searcher: NodeId, t: NodeId) {
    forall c: Contact, n: nat :: c.id in nodes && c.id != searcher ==>
      exists l :: Covers(l, c.id, nodes, searcher) && net(c, n) == CloseNodes(l, Recommended(c.id), t)
  }

  /** The answer holds the K nearest among everything scanned and all siblings. */
  lemma AnswerNearest(l: Layers, g: Config, t: NodeId) returns (pool: set<NodeId>)
    requires LayersOk(l, g)
    ensures IsNearest(Ids(CloseNodes(l, g, t)), pool, t, K)
    ensures forall c :: c in l.buckets[BucketIndex(g.me, t, |l.buckets|)] ==> c.id in pool
  {
    var b := l.buckets;
    var home := BucketIndex(g.me, t, |b|);
    var lo, hi := AnswerPool(l, g, t);
    pool := IdsIn(b, g.me, lo, hi + 1) + IdSet(l.siblings);
    forall c: Contact | c in b[home] ensures c.id in pool {
      assert BucketOk(g.me, g.size, |b|, home, b[home]);
      FlattenIn(b, g.me, g.size, c);
      IdSetMembers(Flatten(b));
    }
  }

  lemma NotFartherSharesAsMuch(w: NodeId, c: NodeId, t: NodeId)
    requires Dist(w, t) < Dist(c, t)
    ensures Shared(w, t) >= Shared(c, t)
  {
    if Shared(c, t) > Shared(w, t) { LongerPrefixIsNearer(c, w, t); }
  }

  /** Of the K nearest in a pool with `c` in it, one that is not the searcher shares as much as `c`. */
  lemma OneAsNear(r: seq<NodeId>, pool: set<NodeId>, t: NodeId, c: NodeId, searcher: NodeId) returns (w: NodeId)
    requires IsNearest(r, pool, t, K) && c in pool && c != searcher
    ensures w in r && w != searcher && Shared(w, t) >= Shared(c, t)
  {
    if c in r {
      w := c;
    } else {
      assert Dist(r[0], t) < Dist(r[1], t);
      w := if r[0] == searcher then r[1] else r[0];
      assert w in r;
      NotFartherSharesAsMuch(w, c, t);
    }
  }

  /** A node whose bucket towards `t` should hold `y` knows a contact sharing more with `t` than it does. */
  lemma BucketTowards(l: Layers, x: NodeId, t: NodeId, nodes: set<NodeId>, searcher: NodeId, y: NodeId) returns (c: Contact)
    requires Covers(l, x, nodes, searcher)
    requires y in nodes && y != searcher && Shared(y, t) > Shared(x, t)
    ensures c in l.buckets[BucketIndex(x, t, ID_BITS)] && c.id != searcher && Shared(c.id, t) > Shared(x, t)
  {
    SharedMin(x, y, t);
    SharedSymmetric(x, y);
    SharedSymmetric(x, t);
    SharedSpec(x, y);
    var k := Shared(x, t);
    assert BucketIndex(x, y, ID_BITS) == k == BucketIndex(x, t, ID_BITS);
    c :| c in l.buckets[k] && c.id != searcher;
    assert BucketOk(x, K, ID_BITS, k, l.buckets[k]);
    SharedOfBucket(x, c.id, ID_BITS, k);
    SharedTogether(c.id, t, x);
  }

  /** Whoever is asked and is not yet best names someone better than itself. */
  lemma Progress(l: Layers, x: NodeId, t: NodeId, nodes: set<NodeId>, searcher: NodeId, y: NodeId) returns (w: Contact)
    requires Covers(l, x, nodes, searcher)
    requires y in nodes && y != searcher && Shared(y, t) > Shared(x, t)
    ensures w in CloseNodes(l, Recommended(x), t) && w.id != searcher && Shared(w.id, t) > Shared(x, t)
  {
    var r := CloseNodes(l, Recommended(x), t);
    var c := BucketTowards(l, x, t, nodes, searcher, y);
    var pool := AnswerNearest(l, Recommended(x), t);
    var id := OneAsNear(Ids(r), pool, t, c.id, searcher);
    var i :| 0 <= i < |r| && Ids(r)[i] == id;
    w := r[i];
  }

  /* ---- what the log contains ---- */

  lemma {:induction false} NeverOurselves(initial: seq<Contact>, me: NodeId, log: seq<Event>)
    requires me !in IdSet(initial)
    ensures me !in Seen(initial, me, log)
  {
    if log != [] {
      NeverOurselves(initial, me, log[..|log| - 1]);
      if log[|log| - 1].Reply? { IdSetMembers(Without(log[|log| - 1].contacts, me)); }
    }
  }

  lemma TableAnswerIds(l: Layers, x: NodeId, nodes: set<NodeId>, searcher: NodeId, t: NodeId)
    requires Covers(l, x, nodes, searcher)
    ensures forall c :: c in CloseNodes(l, Recommended(x), t) ==> c.id in nodes
  {
    AnswerFromTable(l, Recommended(x), t);
    IdSetMembers(Listing(l));
  }

  lemma ReplyNamesNodes(c: Contact, k: nat, net: (Contact, nat) -> seq<Contact>, nodes: set<NodeId>, me: NodeId, t: NodeId)
    requires Honest(net, nodes, me, t) && c.id in nodes && c.id != me
    ensures IdSet(Without(net(c, k), me)) <= nodes
  {
    var answer := net(c, k);
    var l :| Covers(l, c.id, nodes, me) && answer == CloseNodes(l, Recommended(c.id), t);
    TableAnswerIds(l, c.id, nodes, me, t);
  }

  lemma LastReplyNamesNodes(initial: seq<Contact>, me: NodeId, t: NodeId, log: seq<Event>,
                            net: (Contact, nat) -> seq<Contact>, nodes: set<NodeId>)
    requires log != [] && log[|log| - 1].Reply?
    requires log[|log| - 1].contact.id in Queried(log[..|log| - 1])
    requires WellPaced(initial, me, t, log[..|log| - 1]) && Answers(log, net) && Honest(net, nodes, me, t)
    requires Seen(initial, me, log[..|log| - 1]) <= nodes && me !in IdSet(initial)
    ensures IdSet(Without(log[|log| - 1].contacts, me)) <= nodes
  {
    var n := |log| - 1;
    QueriedSeen(initial, me, t, log[..n]);
    NeverOurselves(initial, me, log[..n]);
    var k :| log[n].contacts == net(log[n].contact, k);
    ReplyNamesNodes(log[n].contact, k, net, nodes, me, t);
  }

  lemma AnswersBefore(log: seq<Event>, net: (Contact, nat) -> seq<Contact>)
    requires log != [] && Answers(log, net)
    ensures Answers(log[..|log| - 1], net)
  {
  }

  lemma {:induction false} SeenAreNodes(initial: seq<Contact>, me: NodeId, t: NodeId, log: seq<Event>,
                                        net: (Contact, nat) -> seq<Contact>, nodes: set<NodeId>)
    requires WellPaced(initial, me, t, log) && Answers(log, net) && Honest(net, nodes, me, t)
    requires IdSet(initial) <= nodes && me !in IdSet(initial)
    ensures Seen(initial, me, log) <= nodes
  {
    if log != [] {
      AnswersBefore(log, net);
      SeenAreNodes(initial, me, t, log[..|log| - 1], net, nodes);
      if log[|log| - 1].Reply? { LastReplyNamesNodes(initial, me, t, log, net, nodes); }
    }
  }

  /** An answered id has a reply, and what it named was heard. */
  lemma {:induction false} ReplyHeard(initial: seq<Contact>, me: NodeId, log: seq<Event>, x: NodeId) returns (i: nat)
    requires x in Answered(log)
    ensures i < |log| && log[i].Reply? && log[i].contact.id == x
    ensures forall c :: c in log[i].contacts && c.id != me ==> c.id in Seen(initial, me, log)
  {
    var n := |log| - 1;
    if log[n].Reply? && log[n].contact.id == x {
      i := n;
      IdSetMembers(Without(log[n].contacts, me));
    } else {
      i := ReplyHeard(initial, me, log[..n], x);
    }
  }

  lemma FirstIsNearest(r: seq<NodeId>, pool: set<NodeId>, t: NodeId, k: nat, x: NodeId)
    requires IsNearest(r, pool, t, k) && k > 0 && x in pool
    ensures r != [] && r[0] in pool && Dist(r[0], t) <= Dist(x, t)
  {
    NearestLength(r, pool, t, k);
    assert pool != {};
    assert r[0] in r;
  }

  /** The first result shares at least as many bits with the target as any node but the searcher. */
  lemma FirstSharesMost(me: NodeId, t: NodeId, initial: seq<Contact>, net: (Contact, nat) -> seq<Contact>,
                        nodes: set<NodeId>, log: seq<Event>, r: seq<NodeId>, y: NodeId)
    requires WellPaced(initial, me, t, log) && Answers(log, net) && Honest(net, nodes, me, t)
    requires initial != [] && IdSet(initial) <= nodes && me !in IdSet(initial)
    requires IsNearest(r, Seen(initial, me, log), t, K) && forall x :: x in r ==> x in Answered(log)
    requires y in nodes && y != me
    ensures r != [] && r[0] in nodes && Shared(r[0], t) >= Shared(y, t)
  {
    SeenAreNodes(initial, me, t, log, net, nodes);
    SeenGrows(initial, me, log);
    NeverOurselves(initial, me, log);
    FirstIsNearest(r, Seen(initial, me, log), t, K, initial[0].id);
    if Shared(y, t) > Shared(r[0], t) {
      var w := BetterHeard(me, t, initial, net, nodes, log, r[0], y);
      LongerPrefixIsNearer(w, r[0], t);
      FirstIsNearest(r, Seen(initial, me, log), t, K, w);
    }
  }

  lemma {:induction false} SeenGrows(initial: seq<Contact>, me: NodeId, log: seq<Event>)
    ensures IdSet(initial) <= Seen(initial, me, log)
  {
    if log != [] { SeenGrows(initial, me, log[..|log| - 1]); }
  }

  lemma BetterHeard(me: NodeId, t: NodeId, initial: seq<Contact>, net: (Contact, nat) -> seq<Contact>,
                    nodes: set<NodeId>, log: seq<Event>, x: NodeId, y: NodeId) returns (w: NodeId)
    requires Answers(log, net) && Honest(net, nodes, me, t)
    requires x in nodes && x != me && x in Answered(log)
    requires y in nodes && y != me && Shared(y, t) > Shared(x, t)
    ensures w in Seen(initial, me, log) && Shared(w, t) > Shared(x, t)
  {
    var i := ReplyHeard(initial, me, log, x);
    var c := log[i].contact;
    var k :| log[i].contacts == net(c, k);
    var l :| Covers(l, c.id, nodes, me) && net(c, k) == CloseNodes(l, Recommended(c.id), t);
    var better := Progress(l, x, t, nodes, me, y);
    w := better.id;
  }

  /**
   * The lookup returns first a node that shares the longest prefix with the target, whatever the
   * order of the replies; when the target is itself such a node, it is found.
   */
  method FindClosest(me: NodeId, target: NodeId, initial: seq<Contact>, ghost nodes: set<NodeId>,
                     net: (Contact, nat) -> seq<Contact>, order: nat -> nat)
    returns (candidates: seq<Contact>)
    requires DistinctIds(initial) && me !in IdSet(initial) && initial != [] && IdSet(initial) <= nodes
    requires Honest(net, nodes, me, target)
    ensures candidates != [] && candidates[0].id in nodes && candidates[0].id != me
    ensures forall y :: y in nodes && y != me ==> Shared(candidates[0].id, target) >= Shared(y, target)
    ensures target in nodes && target != me ==> candidates[0].id == target
  {
    ghost var log;
    candidates, log := LookupNode(me, target, initial, net, order);
    ghost var r := Ids(candidates);
    forall y | y in nodes && y != me
      ensures r != [] && r[0] in nodes && Shared(r[0], target) >= Shared(y, target)
    {
      FirstSharesMost(me, target, initial, net, nodes, log, r, y);
    }
    FirstSharesMost(me, target, initial, net, nodes, log, r, initial[0].id);
    assert r[0] == candidates[0].id && r[0] in r;
    SharedSpec(target, target);
    SharedSpec(candidates[0].id, target);
  }
}
