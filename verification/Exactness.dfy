/** When the two-layer table answers with the K nearest ids it knows. */
module Exactness {
  import opened Keys
  import opened Metric
  import opened Nearest
  import opened StaticBucket
  import opened SiblingList
  import opened RoutingTable

  /** The ids of `pool` nearer to `t` than all of `rest`. */
  ghost function Front(pool: set<NodeId>, rest: set<NodeId>, t: NodeId): set<NodeId> {
    set x | x in pool && forall u :: u in rest ==> Dist(x, t) < Dist(u, t)
  }

  /** The k nearest of a pool stay so when `rest` joins it exactly when k of the pool are nearer than all of `rest`. */
  lemma NearestIffFront(r: seq<NodeId>, pool: set<NodeId>, rest: set<NodeId>, t: NodeId, k: nat)
    requires IsNearest(r, pool, t, k) && pool !! rest
    ensures IsNearest(r, pool + rest, t, k) <==> rest == {} || |Front(pool, rest, t)| >= k
  {
    var front := Front(pool, rest, t);
    AscendingSize(r, t);
    if IsNearest(r, pool + rest, t, k) && rest != {} {
      var u :| u in rest;
      assert u in pool + rest && u !in r;
      forall y | y in r ensures y in front {
        assert forall v :: v in rest ==> v in pool + rest && v !in r;
      }
      SubsetSize(Elems(r), front);
    }
    if rest == {} { assert pool + rest == pool; }
    if |front| >= k {
      NearestInside(r, pool, front, t, k);
      NearestLength(r, pool, t, k);
      SubsetSize(front, pool);
    }
  }

  /** The answer is the K nearest of what was scanned and the siblings. */
  lemma AnswerPool(l: Layers, g: Config, t: NodeId) returns (lo: nat, hi: nat)
    requires LayersOk(l, g)
    ensures var home := BucketIndex(g.me, t, |l.buckets|); lo <= home <= hi && (lo, hi) == Widen(l.buckets, home, home)
    ensures IsNearest(Ids(CloseNodes(l, g, t)), IdsIn(l.buckets, g.me, lo, hi + 1) + IdSet(l.siblings), t, K)
    ensures lo == 0 || |IdsIn(l.buckets, g.me, lo, hi + 1)| >= K
  {
    var b := l.buckets;
    var f := CloseNodesOf(b, g.me, t);
    lo, hi := CloseNodesNearest(b, g.me, g.size, t);
    var scanned := IdsIn(b, g.me, lo, hi + 1);
    NearestLength(Ids(f), scanned, t, K);
    SettleNearest(f + l.siblings, t, K);
    IdSetConcat(f, l.siblings);
    IdsAreIdSet(f);
    NearestMerge(Ids(f), scanned, IdSet(l.siblings), Ids(CloseNodes(l, g, t)), t, K);
  }

  /** Every id of the buckets is below, in or above the scanned range. */
  lemma ThreeParts(b: Buckets, me: NodeId, lo: nat, hi: nat)
    requires lo <= hi < |b|
    ensures IdSet(Flatten(b)) == IdsIn(b, me, 0, lo) + IdsIn(b, me, lo, hi + 1) + IdsIn(b, me, hi + 1, |b|)
    ensures IdsIn(b, me, 0, lo) !! IdsIn(b, me, lo, hi + 1) !! IdsIn(b, me, hi + 1, |b|)
  {
  }

  /** Ids farther than K of the pool change nothing. */
  lemma FartherNeverMatter(r: seq<NodeId>, part: set<NodeId>, scanned: set<NodeId>, pool: set<NodeId>, below: set<NodeId>, t: NodeId)
    requires IsNearest(r, part, t, K) && scanned <= part <= pool && pool !! below
    requires below == {} || |scanned| >= K
    requires forall x, y :: x in scanned && y in below ==> Dist(x, t) < Dist(y, t)
    ensures IsNearest(r, pool, t, K) <==> IsNearest(r, pool + below, t, K)
  {
    if IsNearest(r, pool, t, K) {
      SubsetSize(scanned, Front(pool, below, t));
      NearestIffFront(r, pool, below, t, K);
    }
    if IsNearest(r, pool + below, t, K) {
      assert Elems(r) <= pool;
      NearestOfLess(r, pool + below, pool, t, K);
    }
  }

  /** The ids known: scanned, siblings, and those above and below the range that are no siblings. */
  lemma KnownParts(l: Layers, g: Config, lo: nat, hi: nat)
    requires lo <= hi < |l.buckets|
    ensures var sib := IdSet(l.siblings);
            var pool := IdsIn(l.buckets, g.me, lo, hi + 1) + sib + (IdsIn(l.buckets, g.me, hi + 1, |l.buckets|) - sib);
            var below := IdsIn(l.buckets, g.me, 0, lo) - sib;
            pool !! below && Known(l) == pool + below
  {
    ThreeParts(l.buckets, g.me, lo, hi);
    KnownLayers(l);
  }

  /** What lies below the scanned range never matters. */
  lemma BelowNeverMatters(l: Layers, g: Config, t: NodeId, lo: nat, hi: nat, r: seq<NodeId>)
    requires LayersOk(l, g) && lo <= BucketIndex(g.me, t, |l.buckets|) <= hi < |l.buckets|
    requires lo == 0 || |IdsIn(l.buckets, g.me, lo, hi + 1)| >= K
    requires IsNearest(r, IdsIn(l.buckets, g.me, lo, hi + 1) + IdSet(l.siblings), t, K)
    ensures var sib := IdSet(l.siblings);
            IsNearest(r, IdsIn(l.buckets, g.me, lo, hi + 1) + sib + (IdsIn(l.buckets, g.me, hi + 1, |l.buckets|) - sib), t, K)
            <==> IsNearest(r, Known(l), t, K)
  {
    var sib := IdSet(l.siblings);
    var scanned := IdsIn(l.buckets, g.me, lo, hi + 1);
    var below := IdsIn(l.buckets, g.me, 0, lo) - sib;
    forall x, y | x in scanned && y in below ensures Dist(x, t) < Dist(y, t) {
      BelowOrder(l.buckets, g.me, g.size, t, lo, hi + 1, x, y);
    }
    KnownParts(l, g, lo, hi);
    FartherNeverMatter(r, scanned + sib, scanned, scanned + sib + (IdsIn(l.buckets, g.me, hi + 1, |l.buckets|) - sib), below, t);
  }

  /**
   * Every id above the scanned range is a sibling, or the scanned buckets on the target's side
   * and the siblings nearer than all such ids that are none together hold K.
   */
  ghost predicate LayersSuffice(l: Layers, g: Config, t: NodeId)
    requires 0 < |l.buckets| <= ID_BITS
  {
    var home := BucketIndex(g.me, t, |l.buckets|);
    FoundAbove(l, g, t, Widen(l.buckets, home, home).1)
  }

  ghost predicate FoundAbove(l: Layers, g: Config, t: NodeId, hi: nat)
    requires hi < |l.buckets| <= ID_BITS
  {
    var missed := IdsIn(l.buckets, g.me, hi + 1, |l.buckets|) - IdSet(l.siblings);
    missed == {} || |IdsOn(l.buckets, g.me, TargetSide(g.me, t, |l.buckets|), hi + 1) + Front(IdSet(l.siblings), missed, t)| >= K
  }

  /** Of the scanned ids, exactly those on the target's side are nearer than what was missed above. */
  lemma FrontOfScanned(l: Layers, g: Config, t: NodeId, lo: nat, hi: nat, missed: set<NodeId>)
    requires LayersOk(l, g) && lo <= BucketIndex(g.me, t, |l.buckets|) <= hi < |l.buckets|
    requires missed != {} && missed <= IdsIn(l.buckets, g.me, hi + 1, |l.buckets|)
    ensures Front(IdsIn(l.buckets, g.me, lo, hi + 1) + IdSet(l.siblings), missed, t)
            == IdsOn(l.buckets, g.me, TargetSide(g.me, t, |l.buckets|), hi + 1) + Front(IdSet(l.siblings), missed, t)
  {
    var b := l.buckets;
    var side := IdsOn(b, g.me, TargetSide(g.me, t, |b|), hi + 1);
    var scanned := IdsIn(b, g.me, lo, hi + 1);
    assert side <= scanned;
    forall x, u | x in side && u in missed ensures Dist(x, t) < Dist(u, t) {
      SideOrder(b, g.me, g.size, t, hi, x, u);
    }
    var u :| u in missed;
    forall x | x in scanned - side ensures !(Dist(x, t) < Dist(u, t)) {
      AboveOrder(b, g.me, g.size, t, lo, hi, u, x);
    }
  }

  /** The two-layer table answers with the K nearest ids it knows exactly when the scan and the siblings suffice. */
  lemma LayersExactIff(l: Layers, g: Config, t: NodeId)
    requires LayersOk(l, g)
    ensures IsNearest(Ids(CloseNodes(l, g, t)), Known(l), t, K) <==> LayersSuffice(l, g, t)
  {
    var lo, hi := AnswerPool(l, g, t);
    var r := Ids(CloseNodes(l, g, t));
    var pool := IdsIn(l.buckets, g.me, lo, hi + 1) + IdSet(l.siblings);
    var missed := IdsIn(l.buckets, g.me, hi + 1, |l.buckets|) - IdSet(l.siblings);
    BelowNeverMatters(l, g, t, lo, hi, r);
    NearestIffFront(r, pool, missed, t, K);
    if missed != {} { FrontOfScanned(l, g, t, lo, hi, missed); }
  }

  lemma SufficeAbove(l: Layers, g: Config, t: NodeId, hi: nat)
    requires hi < |l.buckets| <= ID_BITS && IdsSuffice(l.buckets, g.me, t, hi)
    ensures FoundAbove(l, g, t, hi)
  {
    var side := IdsOn(l.buckets, g.me, TargetSide(g.me, t, |l.buckets|), hi + 1);
    var missed := IdsIn(l.buckets, g.me, hi + 1, |l.buckets|) - IdSet(l.siblings);
    SubsetSize(side, side + Front(IdSet(l.siblings), missed, t));
  }

  /** Whenever the buckets alone answer exactly, so does the table. */
  lemma ExactBucketsSuffice(l: Layers, g: Config, t: NodeId)
    requires LayersOk(l, g)
    requires CloseNodesOf(l.buckets, g.me, t) == FullAnswer(Flatten(l.buckets), t)
    ensures IsNearest(Ids(CloseNodes(l, g, t)), Known(l), t, K)
  {
    var home := BucketIndex(g.me, t, |l.buckets|);
    var hi := Widen(l.buckets, home, home).1;
    ExactIff(l.buckets, g.me, g.size, t);
    RangeSufficesIds(l.buckets, g.me, g.size, t, hi);
    SufficeAbove(l, g, t, hi);
    LayersExactIff(l, g, t);
  }

  /** So it does for our own id, and for every target whose home bucket holds K. */
  lemma LayersExactWhen(l: Layers, g: Config, t: NodeId)
    requires LayersOk(l, g)
    requires t == g.me || |l.buckets[BucketIndex(g.me, t, |l.buckets|)]| >= K
    ensures IsNearest(Ids(CloseNodes(l, g, t)), Known(l), t, K)
  {
    ExactWhen(l.buckets, g.me, g.size, t);
    ExactBucketsSuffice(l, g, t);
  }
}
