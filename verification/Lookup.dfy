/** The iterative node lookup: ALPHA calls in flight, replies in any order. */
module Lookup {
  import opened Keys
  import opened Metric
  import opened Nearest

  /** How many calls a lookup keeps in flight at once. */
  const ALPHA: nat := 3

  /** What a lookup does on the network, in the order it happens. */
  datatype Event = Query(contact: Contact) | Reply(contact: Contact, contacts: seq<Contact>)

  /** Our own id is never a candidate. */
  function Without(s: seq<Contact>, me: NodeId): (r: seq<Contact>)
    ensures forall c :: c in r <==> c in s && c.id != me
  {
    if s == [] then []
    else (if s[0].id == me then [] else [s[0]]) + Without(s[1..], me)
  }

  /** All ids heard of: the ones started from and those in every reply so far, ours excepted. */
  ghost function Seen(initial: seq<Contact>, me: NodeId, log: seq<Event>): set<NodeId> {
    if log == [] then IdSet(initial)
    else
      var n := |log| - 1;
      Seen(initial, me, log[..n]) + if log[n].Reply? then IdSet(Without(log[n].contacts, me)) else {}
  }

  /** All contacts heard of, in order, ourselves excepted. */
  ghost function Heard(initial: seq<Contact>, me: NodeId, log: seq<Event>): seq<Contact> {
    if log == [] then initial
    else
      var n := |log| - 1;
      Heard(initial, me, log[..n]) + if log[n].Reply? then Without(log[n].contacts, me) else []
  }

  lemma {:induction false} HeardIds(initial: seq<Contact>, me: NodeId, log: seq<Event>)
    ensures IdSet(Heard(initial, me, log)) == Seen(initial, me, log)
  {
    if log != [] {
      var n := |log| - 1;
      HeardIds(initial, me, log[..n]);
      IdSetConcat(Heard(initial, me, log[..n]), if log[n].Reply? then Without(log[n].contacts, me) else []);
    }
  }

  ghost function Queried(log: seq<Event>): set<NodeId> {
    if log == [] then {}
    else
      var n := |log| - 1;
      Queried(log[..n]) + if log[n].Query? then {log[n].contact.id} else {}
  }

  ghost function Answered(log: seq<Event>): set<NodeId> {
    if log == [] then {}
    else
      var n := |log| - 1;
      Answered(log[..n]) + if log[n].Reply? then {log[n].contact.id} else {}
  }

  /**
   * No id is queried twice, at most ALPHA queries are open at any time, only open queries are
   * answered, by the contact queried, and each query goes to the nearest id heard of that was not queried before.
   */
  ghost predicate WellPaced(initial: seq<Contact>, me: NodeId, target: NodeId, log: seq<Event>) {
    log == [] ||
    var n := |log| - 1;
    var past := log[..n];
    var id := log[n].contact.id;
    && WellPaced(initial, me, target, past)
    && (log[n].Query? ==>
          && id !in Queried(past)
          && |Queried(past) - Answered(past)| < ALPHA
          && id in Seen(initial, me, past)
          && forall x :: x in Seen(initial, me, past) && Dist(x, target) < Dist(id, target) ==> x in Queried(past))
    && (log[n].Reply? ==> id in Queried(past) - Answered(past) && Query(log[n].contact) in past)
  }

  /** Every reply in the log is what `net` answered for that contact at some moment. */
  ghost predicate Answers(log: seq<Event>, net: (Contact, nat) -> seq<Contact>) {
    forall i :: 0 <= i < |log| && log[i].Reply? ==> exists n :: log[i].contacts == net(log[i].contact, n)
  }

  /** The first candidate not yet asked, as `iter().find(..)` picks it. */
  function NextUnqueried(candidates: seq<Contact>, queried: set<NodeId>): (i: nat)
    ensures i <= |candidates|
    ensures i < |candidates| ==> candidates[i].id !in queried
    ensures forall j :: 0 <= j < i ==> candidates[j].id in queried
  {
    if candidates == [] || candidates[0].id !in queried then 0
    else
      var r := NextUnqueried(candidates[1..], queried);
      assert forall j :: 1 <= j < r + 1 ==> candidates[j] == candidates[1..][j - 1];
      1 + r
  }

  /* ---- there are only finitely many ids ---- */

  function Pow256(n: nat): nat {
    if n == 0 then 1 else 256 * Pow256(n - 1)
  }

  lemma {:induction false} NumberBound(d: Bytes, n: nat)
    requires n <= |d|
    ensures Number(d, n) < Pow256(n)
  {
    if n > 0 { NumberBound(d, n - 1); }
  }

  ghost function UpTo(n: nat): (s: set<nat>)
    ensures |s| == n
    ensures forall i: nat :: i in s <==> i < n
  {
    if n == 0 then {} else UpTo(n - 1) + {n - 1}
  }

  lemma {:induction false} DistImage(s: set<NodeId>, t: NodeId)
    ensures |set x | x in s :: Dist(x, t)| == |s|
    decreases |s|
  {
    if s != {} {
      var y :| y in s;
      var rest := s - {y};
      DistImage(rest, t);
      assert (set x | x in s :: Dist(x, t)) == (set x | x in rest :: Dist(x, t)) + {Dist(y, t)};
      forall x | x in rest ensures Dist(x, t) != Dist(y, t) {
        if Dist(x, t) == Dist(y, t) { DistInjective(x, y, t); }
      }
    }
  }

  lemma NatSubsetSize(a: set<nat>, b: set<nat>)
    requires a <= b
    ensures |a| <= |b|
  {
    assert b == a + (b - a);
  }

  lemma IdCount(s: set<NodeId>, t: NodeId)
    ensures |s| <= Pow256(ID_BYTES)
  {
    var image: set<nat> := set x | x in s :: Dist(x, t);
    forall x | x in s ensures Dist(x, t) < Pow256(ID_BYTES) {
      DistIsNumber(x, t);
      NumberBound(XorDistance(x, t), ID_BYTES);
    }
    DistImage(s, t);
    NatSubsetSize(image, UpTo(Pow256(ID_BYTES)));
  }

  /* ---- the lookup ---- */

  method SettleContacts(s: seq<Contact>, t: NodeId) returns (r: seq<Contact>)
    ensures r == Settle(s, t, K)
  {
    r := SortContacts(s, t);
    r := DedupById(r);
    r := Truncate(r, K);
  }

  /** Merging a reply into the candidates is settling everything heard so far, in order. */
  lemma MergeReply(initial: seq<Contact>, me: NodeId, t: NodeId, log: seq<Event>, e: Event)
    requires e.Reply?
    ensures Settle(Settle(Heard(initial, me, log), t, K) + Without(e.contacts, me), t, K)
            == Settle(Heard(initial, me, log + [e]), t, K)
  {
    assert (log + [e])[..|log|] == log;
    SettleMerge(Heard(initial, me, log), Without(e.contacts, me), t, K);
  }

  /** So the candidates are always the K nearest ids heard of. */
  lemma CandidatesNearest(initial: seq<Contact>, me: NodeId, t: NodeId, log: seq<Event>)
    ensures IsNearest(Ids(Settle(Heard(initial, me, log), t, K)), Seen(initial, me, log), t, K)
  {
    SettleNearest(Heard(initial, me, log), t, K);
    HeardIds(initial, me, log);
  }

  /** Asking the first unqueried candidate is asking the nearest unqueried id heard of. */
  lemma QueryIsGreedy(cands: seq<Contact>, pool: set<NodeId>, queried: set<NodeId>, t: NodeId, i: nat)
    requires IsNearest(Ids(cands), pool, t, K)
    requires i < |cands| && forall j :: 0 <= j < i ==> cands[j].id in queried
    ensures cands[i].id in pool
    ensures forall x :: x in pool && Dist(x, t) < Dist(cands[i].id, t) ==> x in queried
  {
    var r := Ids(cands);
    assert r[i] in r;
    forall x | x in pool && Dist(x, t) < Dist(r[i], t)
      ensures x in queried
    {
      assert x in r;
      var j :| 0 <= j < |r| && r[j] == x;
      assert j < i;
    }
  }

  lemma LogQuery(initial: seq<Contact>, me: NodeId, log: seq<Event>, c: Contact)
    ensures var e := log + [Query(c)];
            && Seen(initial, me, e) == Seen(initial, me, log)
            && Heard(initial, me, e) == Heard(initial, me, log)
            && Queried(e) == Queried(log) + {c.id}
            && Answered(e) == Answered(log)
  {
    assert (log + [Query(c)])[..|log|] == log;
  }

  lemma LogReply(initial: seq<Contact>, me: NodeId, log: seq<Event>, e: Event)
    requires e.Reply?
    ensures var next := log + [e];
            && Seen(initial, me, next) == Seen(initial, me, log) + IdSet(Without(e.contacts, me))
            && Heard(initial, me, next) == Heard(initial, me, log) + Without(e.contacts, me)
            && Queried(next) == Queried(log)
            && Answered(next) == Answered(log) + {e.contact.id}
  {
    assert (log + [e])[..|log|] == log;
  }

  ghost predicate InFlight(open: seq<Contact>, log: seq<Event>) {
    && DistinctIds(open) && |open| <= ALPHA && IdSet(open) == Queried(log) - Answered(log)
    && forall c :: c in open ==> Query(c) in log
  }

  /** What holds whenever the loop is entered. */
  ghost predicate Running(initial: seq<Contact>, me: NodeId, t: NodeId, net: (Contact, nat) -> seq<Contact>,
                          log: seq<Event>, cands: seq<Contact>, queried: set<NodeId>, open: seq<Contact>) {
    && WellPaced(initial, me, t, log) && Answers(log, net)
    && cands == Settle(Heard(initial, me, log), t, K)
    && queried == Queried(log) && InFlight(open, log)
    && me !in Seen(initial, me, log)
    && forall c :: c in cands && c.id in queried ==> Query(c) in log
  }

  lemma OpenMore(open: seq<Contact>, log: seq<Event>, c: Contact)
    requires InFlight(open, log) && |open| < ALPHA && c.id !in Queried(log)
    requires Answered(log) <= Queried(log)
    ensures InFlight(open + [c], log + [Query(c)])
  {
    LogQuery([], c.id, log, c);
    IdSetConcat(open, [c]);
    IdSetOne(c);
  }

  lemma {:induction false} AnsweredWereQueried(initial: seq<Contact>, me: NodeId, t: NodeId, log: seq<Event>)
    requires WellPaced(initial, me, t, log)
    ensures Answered(log) <= Queried(log)
  {
    if log != [] { AnsweredWereQueried(initial, me, t, log[..|log| - 1]); }
  }

  lemma {:induction false} QueriedSeen(initial: seq<Contact>, me: NodeId, t: NodeId, log: seq<Event>)
    requires WellPaced(initial, me, t, log)
    ensures Queried(log) <= Seen(initial, me, log)
  {
    if log != [] { QueriedSeen(initial, me, t, log[..|log| - 1]); }
  }

  lemma CloseOne(open: seq<Contact>, log: seq<Event>, k: nat, e: Event)
    requires InFlight(open, log) && k < |open| && e.Reply? && e.contact == open[k]
    ensures InFlight(open[..k] + open[k + 1..], log + [e])
    ensures e.contact.id in Queried(log) - Answered(log)
  {
    LogReply([], e.contact.id, log, e);
    WithoutOne(open, k);
  }

  lemma AnswersMore(log: seq<Event>, e: Event, net: (Contact, nat) -> seq<Contact>, n: nat)
    requires Answers(log, net) && (e.Reply? ==> e.contacts == net(e.contact, n))
    ensures Answers(log + [e], net)
  {
  }

  lemma PacedQuery(initial: seq<Contact>, me: NodeId, t: NodeId, log: seq<Event>, c: Contact)
    requires WellPaced(initial, me, t, log) && c.id !in Queried(log) && |Queried(log) - Answered(log)| < ALPHA
    requires c.id in Seen(initial, me, log)
    requires forall x :: x in Seen(initial, me, log) && Dist(x, t) < Dist(c.id, t) ==> x in Queried(log)
    ensures WellPaced(initial, me, t, log + [Query(c)])
  {
    var next := log + [Query(c)];
    assert next[..|log|] == log && next[|log|] == Query(c);
  }

  /** The first unqueried candidate may be asked. */
  lemma MayAsk(initial: seq<Contact>, me: NodeId, t: NodeId, log: seq<Event>, cands: seq<Contact>, open: seq<Contact>, i: nat)
    requires WellPaced(initial, me, t, log) && cands == Settle(Heard(initial, me, log), t, K)
    requires InFlight(open, log) && |open| < ALPHA && i == NextUnqueried(cands, Queried(log)) < |cands|
    ensures WellPaced(initial, me, t, log + [Query(cands[i])])
  {
    CandidatesNearest(initial, me, t, log);
    QueryIsGreedy(cands, Seen(initial, me, log), Queried(log), t, i);
    IdSetSize(open);
    PacedQuery(initial, me, t, log, cands[i]);
  }

  lemma AskedAsHeard(log: seq<Event>, cands: seq<Contact>, queried: set<NodeId>, i: nat)
    requires DistinctIds(cands) && i < |cands|
    requires forall c :: c in cands && c.id in queried ==> Query(c) in log
    ensures forall c :: c in cands && c.id in queried + {cands[i].id} ==> Query(c) in log + [Query(cands[i])]
  {
    var next := log + [Query(cands[i])];
    assert next[|log|] == Query(cands[i]);
    forall c | c in cands && c.id in queried + {cands[i].id} ensures Query(c) in next {
      if c.id in queried {
        assert Query(c) in log;
      } else {
        var j :| 0 <= j < |cands| && cands[j] == c;
        assert j == i;
      }
    }
  }

  lemma CandidatesDistinct(initial: seq<Contact>, me: NodeId, t: NodeId, log: seq<Event>)
    ensures DistinctIds(Settle(Heard(initial, me, log), t, K))
  {
    SettleNearest(Heard(initial, me, log), t, K);
  }

  /** Starting one more call keeps the loop's invariant. */
  lemma StartCall(initial: seq<Contact>, me: NodeId, t: NodeId, net: (Contact, nat) -> seq<Contact>,
                  log: seq<Event>, cands: seq<Contact>, queried: set<NodeId>, open: seq<Contact>, i: nat)
    requires Running(initial, me, t, net, log, cands, queried, open) && |open| < ALPHA
    requires i == NextUnqueried(cands, queried) < |cands|
    ensures Running(initial, me, t, net, log + [Query(cands[i])], cands, queried + {cands[i].id}, open + [cands[i]])
  {
    var c := cands[i];
    MayAsk(initial, me, t, log, cands, open, i);
    CandidatesDistinct(initial, me, t, log);
    AskedAsHeard(log, cands, queried, i);
    AnsweredWereQueried(initial, me, t, log);
    LogQuery(initial, me, log, c);
    OpenMore(open, log, c);
    AnswersMore(log, Query(c), net, 0);
  }

  /** Merging a reply keeps it. */
  lemma FinishCall(initial: seq<Contact>, me: NodeId, t: NodeId, net: (Contact, nat) -> seq<Contact>,
                   log: seq<Event>, cands: seq<Contact>, queried: set<NodeId>, open: seq<Contact>, k: nat, n: nat)
    requires Running(initial, me, t, net, log, cands, queried, open) && k < |open|
    ensures var e := Reply(open[k], net(open[k], n));
            Running(initial, me, t, net, log + [e], Settle(cands + Without(e.contacts, me), t, K),
                    queried, open[..k] + open[k + 1..])
  {
    var e := Reply(open[k], net(open[k], n));
    var next := log + [e];
    MergeReply(initial, me, t, log, e);
    CloseOne(open, log, k, e);
    LogReply(initial, me, log, e);
    AnswersMore(log, e, net, n);
    IdSetMembers(Without(e.contacts, me));
    assert next[..|log|] == log && next[|log|] == e;
    QueriedSeen(initial, me, t, log);
    HeardIds(initial, me, log);
    forall c | c in Settle(Heard(initial, me, next), t, K) && c.id in queried ensures Query(c) in next {
      SettledBefore(Heard(initial, me, log), Without(e.contacts, me), t, K, c);
    }
  }

  lemma Started(initial: seq<Contact>, me: NodeId, t: NodeId, net: (Contact, nat) -> seq<Contact>)
    requires DistinctIds(initial) && me !in IdSet(initial)
    ensures Running(initial, me, t, net, [], Truncate(SortByDistance(initial, t), K), {}, [])
  {
    SortTruncateIsSettle(initial, t, K);
  }

  lemma AllSettled(initial: seq<Contact>, me: NodeId, t: NodeId, net: (Contact, nat) -> seq<Contact>,
                   log: seq<Event>, cands: seq<Contact>, queried: set<NodeId>)
    requires Running(initial, me, t, net, log, cands, queried, [])
    requires NextUnqueried(cands, queried) == |cands|
    ensures IsNearest(Ids(cands), Seen(initial, me, log), t, K)
    ensures forall c :: c in cands ==> Query(c) in log && c.id in Answered(log) && c.id != me
  {
    assert IdSet([]) == {};
    CandidatesNearest(initial, me, t, log);
    forall c | c in cands ensures c.id in queried && c.id in Seen(initial, me, log) {
      InIds(cands, c);
    }
  }

  lemma OneMore(s: set<NodeId>, x: NodeId)
    requires x !in s
    ensures |s + {x}| == |s| + 1
  {
  }

  /** Starts calls to the nearest unqueried candidates until ALPHA are open or none is left. */
  method TopUp(ghost initial: seq<Contact>, ghost me: NodeId, ghost t: NodeId, ghost net: (Contact, nat) -> seq<Contact>,
               log: seq<Event>, candidates: seq<Contact>, queried: set<NodeId>, inFlight: seq<Contact>)
    returns (nowQueried: set<NodeId>, nowInFlight: seq<Contact>, nowLog: seq<Event>)
    requires Running(initial, me, t, net, log, candidates, queried, inFlight)
    ensures Running(initial, me, t, net, nowLog, candidates, nowQueried, nowInFlight)
    ensures |queried| <= |nowQueried| && (|queried| == |nowQueried| ==> nowInFlight == inFlight)
    ensures |nowInFlight| == ALPHA || NextUnqueried(candidates, nowQueried) == |candidates|
  {
    nowQueried, nowInFlight, nowLog := queried, inFlight, log;
    while |nowInFlight| < ALPHA
      invariant Running(initial, me, t, net, nowLog, candidates, nowQueried, nowInFlight)
      invariant |queried| <= |nowQueried| && (|queried| == |nowQueried| ==> nowInFlight == inFlight)
      decreases ALPHA - |nowInFlight|
    {
      var i := NextUnqueried(candidates, nowQueried);
      if i == |candidates| { return; }
      StartCall(initial, me, t, net, nowLog, candidates, nowQueried, nowInFlight, i);
      var next := candidates[i];
      OneMore(nowQueried, next.id);
      nowQueried := nowQueried + {next.id};
      nowInFlight := nowInFlight + [next];
      nowLog := nowLog + [Query(next)];
    }
  }

  /**
   * `lookup_node`. `net(c, n)` is what `c` answers to reply number `n`, empty when the call fails;
   * `order` decides which open call finishes next. `log` is everything sent and received.
   */
  method LookupNode(me: NodeId, target: NodeId, initial: seq<Contact>,
                    net: (Contact, nat) -> seq<Contact>, order: nat -> nat)
    returns (candidates: seq<Contact>, log: seq<Event>)
    requires DistinctIds(initial) && me !in IdSet(initial)
    ensures WellPaced(initial, me, target, log) && Answers(log, net)
    ensures candidates == Settle(Heard(initial, me, log), target, K)
    ensures IsNearest(Ids(candidates), Seen(initial, me, log), target, K)
    ensures forall c :: c in candidates ==> Query(c) in log && c.id in Answered(log) && c.id != me
  {
    log := [];
    candidates := SortContacts(initial, target);
    candidates := Truncate(candidates, K);
    Started(initial, me, target, net);

    var queried: set<NodeId> := {};
    var inFlight: seq<Contact> := [];
    var replies := 0;
    while true
      invariant Running(initial, me, target, net, log, candidates, queried, inFlight)
      decreases Pow256(ID_BYTES) - |queried|, |inFlight|
    {
      ghost var before, open := queried, inFlight;
      queried, inFlight, log := TopUp(initial, me, target, net, log, candidates, queried, inFlight);
      if inFlight == [] {
        AllSettled(initial, me, target, net, log, candidates, queried);
        break;
      }
      IdCount(queried, target);
      var k := order(replies) % |inFlight|;
      var done := inFlight[k];
      var contacts := net(done, replies);
      FinishCall(initial, me, target, net, log, candidates, queried, inFlight, k, replies);
      inFlight := inFlight[..k] + inFlight[k + 1..];
      log := log + [Reply(done, contacts)];
      candidates := SettleContacts(candidates + Without(contacts, me), target);
      replies := replies + 1;
    }
  }
}
