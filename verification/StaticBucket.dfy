/** The fixed array of buckets, one per shared-prefix length (`SEARCH_SHIFT` 0). */
module StaticBucket {
  import opened Keys
  import opened Metric
  import opened Nearest

  type Buckets = seq<seq<Contact>>

  /** The bucket `id` lives in: bits shared with `me`, clamped into the last bucket. */
  ghost function BucketIndex(me: NodeId, id: NodeId, buckets: nat): (i: nat)
    requires buckets > 0
    ensures i < buckets
  {
    if Shared(id, me) < buckets then Shared(id, me) else buckets - 1
  }

  /** `bucket_index`: counts the leading zeros of the distance. */
  method FindBucket(me: NodeId, id: NodeId, buckets: nat) returns (i: nat)
    requires buckets > 0
    ensures i == BucketIndex(me, id, buckets)
  {
    var shared := LeadingZeros(XorDistance(id, me));
    SharedIsLeadingZeros(id, me);
    i := if shared < buckets then shared else buckets - 1;
  }

  function IndexOf(s: seq<Contact>, c: Contact): (i: nat)
    ensures i <= |s|
    ensures i < |s| ==> s[i] == c
    ensures i == |s| <==> c !in s
  {
    if s == [] || s[0] == c then 0 else 1 + IndexOf(s[1..], c)
  }

  /** `swap_remove`: the last element takes the freed place. */
  function SwapRemove(s: seq<Contact>, i: nat): seq<Contact>
    requires i < |s|
  {
    s[i := s[|s| - 1]][..|s| - 1]
  }

  ghost function AddContact(b: Buckets, me: NodeId, size: nat, c: Contact): (r: Buckets)
    requires |b| > 0
    ensures |r| == |b|
  {
    if c.id == me then b
    else
      var i := BucketIndex(me, c.id, |b|);
      var p := Position(b[i], c.id);
      if p < |b[i]| then b[i := b[i][p := c]]
      else if |b[i]| < size then b[i := b[i] + [c]]
      else b
  }

  ghost function RemoveContact(b: Buckets, me: NodeId, c: Contact): (r: Buckets)
    requires |b| > 0
    ensures |r| == |b|
  {
    var i := BucketIndex(me, c.id, |b|);
    var p := IndexOf(b[i], c);
    if p < |b[i]| then b[i := SwapRemove(b[i], p)] else b
  }

  /** All contacts of a run of buckets, as `contacts_iter` chains them. */
  function Flatten(b: Buckets): seq<Contact> {
    if b == [] then [] else b[0] + Flatten(b[1..])
  }

  /** What every add and remove keeps. */
  ghost predicate BucketsOk(me: NodeId, size: nat, b: Buckets) {
    && 0 < |b| <= ID_BITS
    && forall i :: 0 <= i < |b| ==> BucketOk(me, size, |b|, i, b[i])
  }

  ghost predicate BucketOk(me: NodeId, size: nat, buckets: nat, i: nat, s: seq<Contact>)
    requires buckets > 0
  {
    && |s| <= size
    && DistinctIds(s)
    && forall c :: c in s ==> c.id != me && BucketIndex(me, c.id, buckets) == i
  }

  lemma SwapRemoveElements(s: seq<Contact>, i: nat)
    requires i < |s| && DistinctIds(s)
    ensures DistinctIds(SwapRemove(s, i))
    ensures forall c :: c in SwapRemove(s, i) <==> c in s && c != s[i]
  {
    var r := SwapRemove(s, i);
    var n := |s| - 1;
    forall c | c in s && c != s[i]
      ensures c in r
    {
      var j :| 0 <= j < |s| && s[j] == c;
      assert if j < n then r[j] == c else r[i] == c;
    }
    assert forall j :: 0 <= j < n ==> r[j] == if j == i then s[n] else s[j];
  }

  /** What adding does to one bucket's contacts. */
  lemma AddEffect(b: Buckets, me: NodeId, size: nat, c: Contact)
    requires BucketsOk(me, size, b)
    ensures BucketsOk(me, size, AddContact(b, me, size, c))
    ensures var i, r := BucketIndex(me, c.id, |b|), AddContact(b, me, size, c);
            && (forall j :: 0 <= j < |b| && j != i ==> r[j] == b[j])
            && (c.id == me ==> r == b)
            && (c.id != me && (c.id in IdSet(b[i]) || |b[i]| < size) ==>
                  c in r[i] && forall x: Contact :: x.id != c.id ==> (x in r[i] <==> x in b[i]))
            && (c.id != me && c.id !in IdSet(b[i]) && |b[i]| >= size ==> r == b)
  {
    if c.id != me {
      var i := BucketIndex(me, c.id, |b|);
      var p := Position(b[i], c.id);
      assert BucketOk(me, size, |b|, i, b[i]);
      var s := AddContact(b, me, size, c)[i];
      if p < |b[i]| {
        assert s == b[i][p := c];
        assert s[p] == c;
        forall x | x in b[i] && x.id != c.id
          ensures x in s
        {
          var j :| 0 <= j < |b[i]| && b[i][j] == x;
          assert s[j] == x;
        }
      } else if |b[i]| < size {
        assert s == b[i] + [c];
        assert forall j :: 0 <= j < |b[i]| ==> b[i][j].id != c.id;
      }
      assert BucketOk(me, size, |b|, i, s);
    }
  }

  /** Removing takes out exactly that contact, and only when id and address both match. */
  lemma RemoveEffect(b: Buckets, me: NodeId, size: nat, c: Contact)
    requires BucketsOk(me, size, b)
    ensures BucketsOk(me, size, RemoveContact(b, me, c))
    ensures var i, r := BucketIndex(me, c.id, |b|), RemoveContact(b, me, c);
            && (forall j :: 0 <= j < |b| && j != i ==> r[j] == b[j])
            && (forall x :: x in r[i] <==> x in b[i] && x != c)
  {
    var i := BucketIndex(me, c.id, |b|);
    var p := IndexOf(b[i], c);
    assert BucketOk(me, size, |b|, i, b[i]);
    if p < |b[i]| {
      SwapRemoveElements(b[i], p);
      assert BucketOk(me, size, |b|, i, SwapRemove(b[i], p));
    }
  }

  /* ---- contents of a range of buckets ---- */

  lemma {:induction false} FlattenConcat(a: Buckets, b: Buckets)
    ensures Flatten(a + b) == Flatten(a) + Flatten(b)
  {
    if a == [] {
      assert a + b == b;
    } else {
      FlattenConcat(a[1..], b);
      assert (a + b)[0] == a[0] && (a + b)[1..] == a[1..] + b;
      assert a[0] + (Flatten(a[1..]) + Flatten(b)) == (a[0] + Flatten(a[1..])) + Flatten(b);
    }
  }

  lemma {:induction false} FlattenMembers(b: Buckets, c: Contact)
    ensures c in Flatten(b) <==> exists i :: 0 <= i < |b| && c in b[i]
  {
    if b != [] {
      FlattenMembers(b[1..], c);
      if c in Flatten(b[1..]) {
        var i :| 0 <= i < |b[1..]| && c in b[1..][i];
        assert c in b[i + 1];
      }
      if exists i :: 0 < i < |b| && c in b[i] {
        var i :| 0 < i < |b| && c in b[i];
        assert c in b[1..][i - 1];
      }
    }
  }

  /** Buckets `lo` to `hi`, both included. */
  function Scan(b: Buckets, lo: nat, hi: nat): seq<Contact>
    requires lo <= hi < |b|
  {
    Flatten(b[lo..hi + 1])
  }

  lemma ScanMembers(b: Buckets, lo: nat, hi: nat, me: NodeId, size: nat, c: Contact)
    requires BucketsOk(me, size, b) && lo <= hi < |b|
    ensures c in Scan(b, lo, hi) <==> lo <= BucketIndex(me, c.id, |b|) <= hi && c in b[BucketIndex(me, c.id, |b|)]
  {
    FlattenMembers(b[lo..hi + 1], c);
    var i := BucketIndex(me, c.id, |b|);
    if c in Scan(b, lo, hi) {
      var j :| 0 <= j < hi + 1 - lo && c in b[lo..hi + 1][j];
      assert BucketOk(me, size, |b|, lo + j, b[lo + j]);
    }
    if lo <= i <= hi && c in b[i] {
      assert b[lo..hi + 1][i - lo] == b[i];
    }
  }

  lemma ScanAll(b: Buckets)
    requires |b| > 0
    ensures Scan(b, 0, |b| - 1) == Flatten(b)
  {
    assert b[0..|b|] == b;
  }

  lemma ScanGrowHigh(b: Buckets, lo: nat, hi: nat)
    requires lo <= hi && hi + 1 < |b|
    ensures Scan(b, lo, hi + 1) == Scan(b, lo, hi) + b[hi + 1]
  {
    assert b[lo..hi + 2] == b[lo..hi + 1] + [b[hi + 1]];
    FlattenConcat(b[lo..hi + 1], [b[hi + 1]]);
    assert Flatten([b[hi + 1]]) == b[hi + 1];
  }

  lemma ScanGrowLow(b: Buckets, lo: nat, hi: nat)
    requires 0 < lo <= hi < |b|
    ensures Scan(b, lo - 1, hi) == b[lo - 1] + Scan(b, lo, hi)
  {
    assert b[lo - 1..hi + 1][1..] == b[lo..hi + 1];
  }

  lemma {:induction false} ScanDistinct(b: Buckets, lo: nat, hi: nat, me: NodeId, size: nat)
    requires BucketsOk(me, size, b) && lo <= hi < |b|
    ensures DistinctIds(Scan(b, lo, hi))
    decreases hi - lo
  {
    assert BucketOk(me, size, |b|, hi, b[hi]);
    if lo == hi {
      assert b[lo..hi + 1] == [b[hi]];
      assert Flatten([b[hi]]) == b[hi];
    } else {
      ScanDistinct(b, lo, hi - 1, me, size);
      ScanGrowHigh(b, lo, hi - 1);
      var s := Scan(b, lo, hi - 1);
      forall i, j | 0 <= i < |s| && 0 <= j < |b[hi]|
        ensures s[i].id != b[hi][j].id
      {
        ScanMembers(b, lo, hi - 1, me, size, s[i]);
      }
    }
  }

  /* ---- close_nodes ---- */

  /** Where the widening loop stops when it has reached `lo` and `hi`. */
  function Widen(b: Buckets, lo: nat, hi: nat): (r: (nat, nat))
    requires lo <= hi < |b|
    ensures r.0 <= lo && hi <= r.1 < |b|
    decreases lo + |b| - hi
  {
    if |Scan(b, lo, hi)| < K && (lo > 0 || hi + 1 < |b|) then
      Widen(b, if lo > 0 then lo - 1 else lo, if hi + 1 < |b| then hi + 1 else hi)
    else (lo, hi)
  }

  /** It stops only with K contacts or with the whole table. */
  lemma {:induction false} WidenStops(b: Buckets, lo: nat, hi: nat)
    requires lo <= hi < |b|
    ensures var r := Widen(b, lo, hi); |Scan(b, r.0, r.1)| >= K || (r.0 == 0 && r.1 == |b| - 1)
    decreases lo + |b| - hi
  {
    if |Scan(b, lo, hi)| < K && (lo > 0 || hi + 1 < |b|) {
      WidenStops(b, if lo > 0 then lo - 1 else lo, if hi + 1 < |b| then hi + 1 else hi);
    }
  }

  /** The contacts a query for `t` looks at. */
  ghost function Scanned(b: Buckets, me: NodeId, t: NodeId): seq<Contact>
    requires |b| > 0
  {
    var home := BucketIndex(me, t, |b|);
    var r := Widen(b, home, home);
    Scan(b, r.0, r.1)
  }

  ghost function CloseNodesOf(b: Buckets, me: NodeId, t: NodeId): seq<Contact>
    requires |b| > 0
  {
    Settle(Scanned(b, me, t), t, K)
  }

  /** Sort the whole table and truncate: the answer of the one-list `DumbBucket`. */
  ghost function FullAnswer(all: seq<Contact>, t: NodeId): seq<Contact> {
    Truncate(SortByDistance(all, t), K)
  }

  /** In whatever order a range was collected, sorting and truncating it settles it. */
  lemma ScanSettles(b: Buckets, me: NodeId, size: nat, lo: nat, hi: nat, out: seq<Contact>, t: NodeId)
    requires BucketsOk(me, size, b) && lo <= hi < |b|
    requires multiset(out) == multiset(Scan(b, lo, hi))
    ensures Truncate(SortByDistance(out, t), K) == Settle(Scan(b, lo, hi), t, K)
  {
    ScanDistinct(b, lo, hi, me, size);
    DistinctPermutation(Scan(b, lo, hi), out);
    SettlePermutation(out, Scan(b, lo, hi), t, K);
    SortTruncateIsSettle(out, t, K);
  }

  lemma WidenStep(b: Buckets, lo: nat, hi: nat, out: seq<Contact>) returns (nextLo: nat, nextHi: nat)
    requires lo <= hi < |b| && multiset(out) == multiset(Scan(b, lo, hi))
    requires |out| < K && (lo > 0 || hi + 1 < |b|)
    ensures nextLo == (if lo > 0 then lo - 1 else lo) && nextHi == (if hi + 1 < |b| then hi + 1 else hi)
    ensures Widen(b, nextLo, nextHi) == Widen(b, lo, hi)
  {
    SameLength(out, Scan(b, lo, hi));
    nextLo, nextHi := if lo > 0 then lo - 1 else lo, if hi + 1 < |b| then hi + 1 else hi;
  }

  lemma WidenDone(b: Buckets, lo: nat, hi: nat, out: seq<Contact>)
    requires lo <= hi < |b| && multiset(out) == multiset(Scan(b, lo, hi))
    requires !(|out| < K && (lo > 0 || hi + 1 < |b|))
    ensures Widen(b, lo, hi) == (lo, hi)
  {
    SameLength(out, Scan(b, lo, hi));
  }

  lemma CollectHigh(b: Buckets, lo: nat, hi: nat, out: seq<Contact>)
    requires lo <= hi && hi + 1 < |b| && multiset(out) == multiset(Scan(b, lo, hi))
    ensures multiset(out + b[hi + 1]) == multiset(Scan(b, lo, hi + 1))
  {
    ScanGrowHigh(b, lo, hi);
  }

  lemma CollectLow(b: Buckets, lo: nat, hi: nat, out: seq<Contact>)
    requires 0 < lo <= hi < |b| && multiset(out) == multiset(Scan(b, lo, hi))
    ensures multiset(out + b[lo - 1]) == multiset(Scan(b, lo - 1, hi))
  {
    ScanGrowLow(b, lo, hi);
  }

  lemma ScanOne(b: Buckets, i: nat)
    requires i < |b|
    ensures Scan(b, i, i) == b[i]
  {
    assert b[i..i + 1] == [b[i]];
    assert Flatten([b[i]]) == b[i];
  }

  /** The widening loop: one bucket at a time in both directions, starting from `home`. */
  method Collect(b: Buckets, home: nat) returns (out: seq<Contact>)
    requires home < |b|
    ensures var r := Widen(b, home, home); multiset(out) == multiset(Scan(b, r.0, r.1))
  {
    out := b[home];
    var low, high := home, home;
    ghost var stop := Widen(b, home, home);
    ScanOne(b, home);
    while |out| < K && (low > 0 || high + 1 < |b|)
      invariant low <= home <= high < |b|
      invariant multiset(out) == multiset(Scan(b, low, high))
      invariant Widen(b, low, high) == stop
      decreases low + |b| - high
    {
      ghost var nextLow, nextHigh := WidenStep(b, low, high, out);
      if high + 1 < |b| {
        CollectHigh(b, low, high, out);
        high := high + 1;
        out := out + b[high];
      }
      if low > 0 {
        CollectLow(b, low, high, out);
        low := low - 1;
        out := out + b[low];
      }
      assert low == nextLow && high == nextHigh;
    }
    WidenDone(b, low, high, out);
  }

  /** The routing table's bottom layer. */
  class Table {
    const me: NodeId
    const size: nat
    var buckets: Buckets

    ghost predicate Valid()
      reads this
    {
      BucketsOk(me, size, buckets)
    }

    constructor (me: NodeId, size: nat, count: nat)
      requires 0 < count <= ID_BITS
      ensures Valid() && this.me == me && this.size == size
      ensures buckets == seq(count, _ => [])
    {
      this.me := me;
      this.size := size;
      buckets := seq(count, _ => []);
    }

    method MaybeAddContact(c: Contact)
      requires Valid()
      modifies this
      ensures Valid() && buckets == AddContact(old(buckets), me, size, c)
    {
      AddEffect(buckets, me, size, c);
      if c.id == me { return; }
      var i := FindBucket(me, c.id, |buckets|);
      var bucket := buckets[i];
      var p := Position(bucket, c.id);
      if p < |bucket| {
        buckets := buckets[i := bucket[p := c]];
        return;
      }
      if |bucket| < size {
        buckets := buckets[i := bucket + [c]];
      }
    }

    method Remove(c: Contact)
      requires Valid()
      modifies this
      ensures Valid() && buckets == RemoveContact(old(buckets), me, c)
    {
      RemoveEffect(buckets, me, size, c);
      var i := FindBucket(me, c.id, |buckets|);
      var p := IndexOf(buckets[i], c);
      if p < |buckets[i]| {
        buckets := buckets[i := SwapRemove(buckets[i], p)];
      }
    }

    /** Widens around the home bucket, then sorts and truncates. */
    method CloseNodes(t: NodeId) returns (out: seq<Contact>)
      requires Valid()
      ensures out == CloseNodesOf(buckets, me, t)
    {
      var home := FindBucket(me, t, |buckets|);
      out := Collect(buckets, home);
      ghost var range := Widen(buckets, home, home);
      ScanSettles(buckets, me, size, range.0, range.1, out, t);
      out := SortContacts(out, t);
      out := Truncate(out, K);
    }
  }

  /** Settling duplicate-free contacts does not depend on the order they come in. */
  lemma SettlePermutation(s: seq<Contact>, u: seq<Contact>, t: NodeId, k: nat)
    requires multiset(s) == multiset(u) && DistinctIds(u)
    ensures Settle(s, t, k) == Settle(u, t, k)
  {
    SameElements(s, u);
    SettleNearest(s, t, k);
    SettleNearest(u, t, k);
    NearestUnique(Ids(Settle(s, t, k)), Ids(Settle(u, t, k)), IdSet(u), t, k);
    SameContacts(Settle(s, t, k), Settle(u, t, k), u);
  }

  /* ---- how buckets are ordered around a target ---- */

  ghost predicate LivesIn(me: NodeId, x: NodeId, buckets: nat, i: nat)
    requires buckets > 0
  {
    x != me && BucketIndex(me, x, buckets) == i
  }

  lemma SharedOfBucket(me: NodeId, x: NodeId, buckets: nat, i: nat)
    requires 0 < buckets <= ID_BITS && LivesIn(me, x, buckets, i)
    ensures Shared(x, me) >= i
    ensures i < buckets - 1 ==> Shared(x, me) == i
    ensures Shared(x, me) < ID_BITS
  {
    SharedSpec(x, me);
  }

  /** How many bits a contact of bucket `i` shares with a target whose home bucket is `home`. */
  lemma SharedWithTarget(me: NodeId, t: NodeId, x: NodeId, buckets: nat, i: nat)
    requires 0 < buckets <= ID_BITS && LivesIn(me, x, buckets, i)
    ensures var home := BucketIndex(me, t, buckets);
            && (i < home ==> Shared(x, t) == i)
            && (i > home ==> Shared(x, t) == home)
            && (i == home ==> Shared(x, t) >= home)
            && (i == home && home < buckets - 1 ==> Shared(x, t) > home)
  {
    var home := BucketIndex(me, t, buckets);
    SharedOfBucket(me, x, buckets, i);
    assert home < buckets - 1 ==> Shared(t, me) == home;
    assert home == buckets - 1 ==> Shared(t, me) >= home;
    SharedSymmetric(x, t);
    if Shared(x, me) < Shared(t, me) {
      SharedMin(x, t, me);
    } else if Shared(t, me) < Shared(x, me) {
      SharedMin(t, x, me);
    } else {
      SharedTogether(x, t, me);
    }
  }

  /** Home is nearest, then everything above home, then the buckets below from the top down. */
  lemma BucketOrder(me: NodeId, t: NodeId, x: NodeId, y: NodeId, buckets: nat, i: nat, j: nat)
    requires 0 < buckets <= ID_BITS && LivesIn(me, x, buckets, i) && LivesIn(me, y, buckets, j)
    requires var home := BucketIndex(me, t, buckets);
             i != j && (i == home || (i > home && j < home) || j < i < home)
    ensures Dist(x, t) < Dist(y, t)
  {
    SharedWithTarget(me, t, x, buckets, i);
    SharedWithTarget(me, t, y, buckets, j);
    LongerPrefixIsNearer(x, y, t);
  }

  /** Above home, bucket `i` is nearer than all later buckets exactly when `t` leaves `me` at bit `i`. */
  lemma BucketOrderAbove(me: NodeId, t: NodeId, x: NodeId, y: NodeId, buckets: nat, i: nat, j: nat)
    requires 0 < buckets <= ID_BITS && LivesIn(me, x, buckets, i) && LivesIn(me, y, buckets, j)
    requires BucketIndex(me, t, buckets) < i < j
    ensures Dist(x, t) < Dist(y, t) <==> Bit(t, i) != Bit(me, i)
    ensures Dist(y, t) < Dist(x, t) <==> Bit(t, i) == Bit(me, i)
  {
    assert j < buckets;
    SharedOfBucket(me, x, buckets, i);
    SharedOfBucket(me, y, buckets, j);
    SharedMin(x, y, me);
    SharedSpec(x, me);
    SharedSpec(x, y);
    NearerByBit(x, y, t);
    if Dist(x, t) == Dist(y, t) { DistInjective(x, y, t); }
  }

  /* ---- when the widened answer is the full answer ---- */

  /** Buckets on the target's side: home, and those above home at a bit where `t` leaves `me`. */
  ghost function TargetSide(me: NodeId, t: NodeId, buckets: nat): set<nat>
    requires 0 < buckets <= ID_BITS
  {
    var home := BucketIndex(me, t, buckets);
    set i: nat | i < buckets && (i == home || (i > home && Bit(t, i) != Bit(me, i)))
  }

  /** The contacts of the first `n` buckets whose index is in `side`. */
  function Select(b: Buckets, side: set<nat>, n: nat): seq<Contact>
    requires n <= |b|
  {
    if n == 0 then []
    else Select(b, side, n - 1) + (if n - 1 in side then b[n - 1] else [])
  }

  /**
   * What a caller can read off the bucket sizes and the target: nothing is left unscanned above,
   * or the scanned buckets on the target's side already hold K.
   */
  ghost predicate ScanSuffices(b: Buckets, me: NodeId, t: NodeId)
    requires 0 < |b| <= ID_BITS
  {
    var home := BucketIndex(me, t, |b|);
    RangeSuffices(b, me, t, Widen(b, home, home).1)
  }

  ghost predicate RangeSuffices(b: Buckets, me: NodeId, t: NodeId, hi: nat)
    requires hi < |b| <= ID_BITS
  {
    || (forall j :: hi < j < |b| ==> b[j] == [])
    || |Select(b, TargetSide(me, t, |b|), hi + 1)| >= K
  }

  lemma {:induction false} SelectMembers(b: Buckets, side: set<nat>, n: nat, me: NodeId, size: nat, c: Contact)
    requires BucketsOk(me, size, b) && n <= |b|
    ensures var i := BucketIndex(me, c.id, |b|);
            c in Select(b, side, n) <==> i < n && i in side && c in b[i]
  {
    if n > 0 {
      assert BucketOk(me, size, |b|, n - 1, b[n - 1]);
      SelectMembers(b, side, n - 1, me, size, c);
    }
  }

  lemma {:induction false} SelectDistinct(b: Buckets, side: set<nat>, n: nat, me: NodeId, size: nat)
    requires BucketsOk(me, size, b) && n <= |b|
    ensures DistinctIds(Select(b, side, n))
  {
    if n > 0 {
      assert BucketOk(me, size, |b|, n - 1, b[n - 1]);
      SelectDistinct(b, side, n - 1, me, size);
      var s := Select(b, side, n - 1);
      forall i | 0 <= i < |s|
        ensures BucketIndex(me, s[i].id, |b|) < n - 1
      {
        SelectMembers(b, side, n - 1, me, size, s[i]);
      }
    }
  }

  /** A scanned target-side bucket is nearer than every bucket that is not one. */
  lemma TargetSideNearer(me: NodeId, t: NodeId, p: NodeId, c: NodeId, buckets: nat, i: nat, j: nat, hi: nat)
    requires 0 < buckets <= ID_BITS && LivesIn(me, p, buckets, i) && LivesIn(me, c, buckets, j)
    requires i in TargetSide(me, t, buckets) && i <= hi
    requires j !in TargetSide(me, t, buckets) || j > hi
    ensures Dist(p, t) < Dist(c, t)
  {
    var home := BucketIndex(me, t, buckets);
    if i == home || j < home {
      BucketOrder(me, t, p, c, buckets, i, j);
    } else if i < j {
      BucketOrderAbove(me, t, p, c, buckets, i, j);
    } else {
      BucketOrderAbove(me, t, c, p, buckets, j, i);
    }
  }

  /** A bucket above the scanned range is nearer than every scanned one not on the target's side. */
  lemma UnscannedNearer(me: NodeId, t: NodeId, u: NodeId, c: NodeId, buckets: nat, i: nat, j: nat)
    requires 0 < buckets <= ID_BITS && LivesIn(me, u, buckets, i) && LivesIn(me, c, buckets, j)
    requires BucketIndex(me, t, buckets) < i && j < i && j !in TargetSide(me, t, buckets)
    ensures Dist(u, t) < Dist(c, t)
  {
    if j < BucketIndex(me, t, buckets) {
      BucketOrder(me, t, u, c, buckets, i, j);
    } else {
      BucketOrderAbove(me, t, c, u, buckets, j, i);
    }
  }

  /* ---- the same, on the set of ids the table holds ---- */

  /** Ids of the table whose bucket index is at least `lo` and below `hi`. */
  ghost function IdsIn(b: Buckets, me: NodeId, lo: nat, hi: nat): set<NodeId>
    requires |b| > 0
  {
    set x | x in IdSet(Flatten(b)) && lo <= BucketIndex(me, x, |b|) < hi
  }

  /** Ids of the table in the buckets of `side` below `hi`. */
  ghost function IdsOn(b: Buckets, me: NodeId, side: set<nat>, hi: nat): set<NodeId>
    requires |b| > 0
  {
    set x | x in IdSet(Flatten(b)) && BucketIndex(me, x, |b|) < hi && BucketIndex(me, x, |b|) in side
  }

  lemma FlattenIn(b: Buckets, me: NodeId, size: nat, c: Contact)
    requires BucketsOk(me, size, b)
    ensures c in Flatten(b) <==> c in b[BucketIndex(me, c.id, |b|)]
    ensures c in Flatten(b) ==> LivesIn(me, c.id, |b|, BucketIndex(me, c.id, |b|))
  {
    ScanAll(b);
    ScanMembers(b, 0, |b| - 1, me, size, c);
    var i := BucketIndex(me, c.id, |b|);
    assert BucketOk(me, size, |b|, i, b[i]);
  }

  /** Whether adding `c` leaves it in the table: it was known, or its bucket has room. */
  ghost predicate Admits(b: Buckets, me: NodeId, size: nat, c: Contact)
    requires |b| > 0
  {
    var i := BucketIndex(me, c.id, |b|);
    c.id != me && (c.id in IdSet(b[i]) || |b[i]| < size)
  }

  /** Adding replaces the contact of the same id, adds a new one, or changes nothing. */
  lemma AddFlatten(b: Buckets, me: NodeId, size: nat, c: Contact)
    requires BucketsOk(me, size, b)
    ensures BucketsOk(me, size, AddContact(b, me, size, c))
    ensures Admits(b, me, size, c) ==>
              forall x: Contact :: x in Flatten(AddContact(b, me, size, c)) <==> x == c || (x.id != c.id && x in Flatten(b))
    ensures !Admits(b, me, size, c) ==> AddContact(b, me, size, c) == b && c.id !in IdSet(Flatten(b))
  {
    var r := AddContact(b, me, size, c);
    AddEffect(b, me, size, c);
    var i := BucketIndex(me, c.id, |b|);
    forall x: Contact
      ensures Admits(b, me, size, c) ==> (x in Flatten(r) <==> x == c || (x.id != c.id && x in Flatten(b)))
    {
      FlattenIn(b, me, size, x);
      FlattenIn(r, me, size, x);
      if Admits(b, me, size, c) && x.id == c.id && x in r[i] {
        FlattenIn(r, me, size, c);
        assert BucketOk(me, size, |b|, i, r[i]);
      }
    }
    if c.id in IdSet(Flatten(b)) {
      IdSetMembers(Flatten(b));
      var x :| x in Flatten(b) && x.id == c.id;
      FlattenIn(b, me, size, x);
      IdSetMembers(b[i]);
    }
  }

  lemma RemoveFlatten(b: Buckets, me: NodeId, size: nat, c: Contact)
    requires BucketsOk(me, size, b)
    ensures BucketsOk(me, size, RemoveContact(b, me, c))
    ensures forall x :: x in Flatten(RemoveContact(b, me, c)) <==> x in Flatten(b) && x != c
  {
    var r := RemoveContact(b, me, c);
    RemoveEffect(b, me, size, c);
    forall x: Contact
      ensures x in Flatten(r) <==> x in Flatten(b) && x != c
    {
      FlattenIn(b, me, size, x);
      FlattenIn(r, me, size, x);
    }
  }

  lemma HeldIdLivesIn(b: Buckets, me: NodeId, size: nat, x: NodeId)
    requires BucketsOk(me, size, b) && x in IdSet(Flatten(b))
    ensures LivesIn(me, x, |b|, BucketIndex(me, x, |b|))
  {
    IdSetMembers(Flatten(b));
    var c :| c in Flatten(b) && c.id == x;
    FlattenIn(b, me, size, c);
  }

  lemma ScanIds(b: Buckets, me: NodeId, size: nat, lo: nat, hi: nat)
    requires BucketsOk(me, size, b) && lo <= hi < |b|
    ensures IdSet(Scan(b, lo, hi)) == IdsIn(b, me, lo, hi + 1)
    ensures forall c :: c in Scan(b, lo, hi) ==> c in Flatten(b)
  {
    var s := Scan(b, lo, hi);
    forall c
      ensures c in s <==> c in Flatten(b) && lo <= BucketIndex(me, c.id, |b|) <= hi
    {
      ScanMembers(b, lo, hi, me, size, c);
      FlattenIn(b, me, size, c);
    }
    IdSetMembers(s);
    IdSetMembers(Flatten(b));
  }

  lemma SelectIds(b: Buckets, me: NodeId, size: nat, side: set<nat>, n: nat)
    requires BucketsOk(me, size, b) && n <= |b|
    ensures IdSet(Select(b, side, n)) == IdsOn(b, me, side, n)
    ensures |IdsOn(b, me, side, n)| == |Select(b, side, n)|
  {
    var s := Select(b, side, n);
    forall c
      ensures c in s <==> c in Flatten(b) && BucketIndex(me, c.id, |b|) < n && BucketIndex(me, c.id, |b|) in side
    {
      SelectMembers(b, side, n, me, size, c);
      FlattenIn(b, me, size, c);
    }
    IdSetMembers(s);
    IdSetMembers(Flatten(b));
    SelectDistinct(b, side, n, me, size);
    IdSetSize(s);
  }

  lemma TableDistinct(b: Buckets, me: NodeId, size: nat)
    requires BucketsOk(me, size, b)
    ensures DistinctIds(Flatten(b))
    ensures |IdSet(Flatten(b))| == |Flatten(b)|
  {
    ScanAll(b);
    ScanDistinct(b, 0, |b| - 1, me, size);
    IdSetSize(Flatten(b));
  }

  /** The answer is the K nearest among the scanned ids, and short only if all were scanned. */
  lemma CloseNodesNearest(b: Buckets, me: NodeId, size: nat, t: NodeId) returns (lo: nat, hi: nat)
    requires BucketsOk(me, size, b)
    ensures (lo, hi) == Widen(b, BucketIndex(me, t, |b|), BucketIndex(me, t, |b|))
    ensures IsNearest(Ids(CloseNodesOf(b, me, t)), IdsIn(b, me, lo, hi + 1), t, K)
    ensures forall c :: c in CloseNodesOf(b, me, t) ==> c in Flatten(b)
    ensures |CloseNodesOf(b, me, t)| == K || (lo == 0 && hi == |b| - 1)
    ensures DistinctIds(CloseNodesOf(b, me, t))
  {
    var home := BucketIndex(me, t, |b|);
    var w := Widen(b, home, home);
    lo, hi := w.0, w.1;
    WidenStops(b, home, home);
    RangeNearest(b, me, size, lo, hi, t);
  }

  lemma RangeNearest(b: Buckets, me: NodeId, size: nat, lo: nat, hi: nat, t: NodeId)
    requires BucketsOk(me, size, b) && lo <= hi < |b|
    ensures var r := Settle(Scan(b, lo, hi), t, K);
            && IsNearest(Ids(r), IdsIn(b, me, lo, hi + 1), t, K)
            && (forall c :: c in r ==> c in Flatten(b))
            && (|Scan(b, lo, hi)| >= K ==> |r| == K)
            && DistinctIds(r)
  {
    var s := Scan(b, lo, hi);
    SettleNearest(s, t, K);
    ScanIds(b, me, size, lo, hi);
    ScanDistinct(b, lo, hi, me, size);
    IdSetSize(s);
    NearestLength(Ids(Settle(s, t, K)), IdSet(s), t, K);
  }

  /** The answer never comes up short: it has K contacts, or all the table has. */
  lemma CloseNodesLength(b: Buckets, me: NodeId, size: nat, t: NodeId)
    requires BucketsOk(me, size, b)
    ensures var n := |Flatten(b)|; |CloseNodesOf(b, me, t)| == if n < K then n else K
  {
    var lo, hi := CloseNodesNearest(b, me, size, t);
    NearestOfRangeLength(b, me, size, Ids(CloseNodesOf(b, me, t)), lo, hi, t);
  }

  lemma NearestOfRangeLength(b: Buckets, me: NodeId, size: nat, r: seq<NodeId>, lo: nat, hi: nat, t: NodeId)
    requires BucketsOk(me, size, b)
    requires IsNearest(r, IdsIn(b, me, lo, hi + 1), t, K)
    requires |r| == K || (lo == 0 && hi == |b| - 1)
    ensures var n := |Flatten(b)|; |r| == if n < K then n else K
  {
    TableDistinct(b, me, size);
    NearestLength(r, IdsIn(b, me, lo, hi + 1), t, K);
    SubsetSize(IdsIn(b, me, lo, hi + 1), IdSet(Flatten(b)));
    if lo == 0 && hi == |b| - 1 { assert IdsIn(b, me, lo, hi + 1) == IdSet(Flatten(b)); }
  }

  lemma SideOrder(b: Buckets, me: NodeId, size: nat, t: NodeId, hi: nat, x: NodeId, y: NodeId)
    requires BucketsOk(me, size, b)
    requires x in IdsOn(b, me, TargetSide(me, t, |b|), hi + 1)
    requires y in IdSet(Flatten(b)) && y !in IdsOn(b, me, TargetSide(me, t, |b|), hi + 1)
    ensures Dist(x, t) < Dist(y, t)
  {
    HeldIdLivesIn(b, me, size, x);
    HeldIdLivesIn(b, me, size, y);
    TargetSideNearer(me, t, x, y, |b|, BucketIndex(me, x, |b|), BucketIndex(me, y, |b|), hi);
  }

  lemma BelowOrder(b: Buckets, me: NodeId, size: nat, t: NodeId, lo: nat, hi: nat, x: NodeId, y: NodeId)
    requires BucketsOk(me, size, b) && lo <= BucketIndex(me, t, |b|)
    requires x in IdsIn(b, me, lo, hi) && y in IdsIn(b, me, 0, lo)
    ensures Dist(x, t) < Dist(y, t)
  {
    HeldIdLivesIn(b, me, size, x);
    HeldIdLivesIn(b, me, size, y);
    BucketOrder(me, t, x, y, |b|, BucketIndex(me, x, |b|), BucketIndex(me, y, |b|));
  }

  lemma AboveOrder(b: Buckets, me: NodeId, size: nat, t: NodeId, lo: nat, hi: nat, u: NodeId, c: NodeId)
    requires BucketsOk(me, size, b) && BucketIndex(me, t, |b|) <= hi
    requires u in IdsIn(b, me, hi + 1, |b|)
    requires c in IdsIn(b, me, lo, hi + 1) && c !in IdsOn(b, me, TargetSide(me, t, |b|), hi + 1)
    ensures Dist(u, t) < Dist(c, t)
  {
    HeldIdLivesIn(b, me, size, u);
    HeldIdLivesIn(b, me, size, c);
    UnscannedNearer(me, t, u, c, |b|, BucketIndex(me, u, |b|), BucketIndex(me, c, |b|));
  }

  /** `RangeSuffices`, said of the ids held. */
  ghost predicate IdsSuffice(b: Buckets, me: NodeId, t: NodeId, hi: nat)
    requires hi < |b| <= ID_BITS
  {
    IdsIn(b, me, hi + 1, |b|) == {} || |IdsOn(b, me, TargetSide(me, t, |b|), hi + 1)| >= K
  }

  lemma RangeSufficesIds(b: Buckets, me: NodeId, size: nat, t: NodeId, hi: nat)
    requires BucketsOk(me, size, b) && hi < |b|
    ensures RangeSuffices(b, me, t, hi) <==> IdsSuffice(b, me, t, hi)
  {
    SelectIds(b, me, size, TargetSide(me, t, |b|), hi + 1);
    AboveEmpty(b, me, size, hi);
  }

  /** The nearest of a scanned range are the nearest of the table exactly when the range suffices. */
  lemma RangeIff(b: Buckets, me: NodeId, size: nat, t: NodeId, lo: nat, hi: nat, r: seq<NodeId>)
    requires BucketsOk(me, size, b) && lo <= BucketIndex(me, t, |b|) <= hi < |b|
    requires IsNearest(r, IdsIn(b, me, lo, hi + 1), t, K)
    requires |r| == K || (lo == 0 && hi == |b| - 1)
    ensures IsNearest(r, IdSet(Flatten(b)), t, K) <==> IdsSuffice(b, me, t, hi)
  {
    var scanned, side := IdsIn(b, me, lo, hi + 1), IdsOn(b, me, TargetSide(me, t, |b|), hi + 1);
    var below, above := IdsIn(b, me, 0, lo), IdsIn(b, me, hi + 1, |b|);
    assert forall i :: i in TargetSide(me, t, |b|) ==> lo <= i;
    assert scanned + below + above == IdSet(Flatten(b));
    forall x, y | x in side && y in (scanned - side) + below + above
      ensures Dist(x, t) < Dist(y, t)
    {
      SideOrder(b, me, size, t, hi, x, y);
    }
    forall x, y | x in scanned && y in below
      ensures Dist(x, t) < Dist(y, t)
    {
      BelowOrder(b, me, size, t, lo, hi + 1, x, y);
    }
    forall u, c | u in above && c in scanned - side
      ensures Dist(u, t) < Dist(c, t)
    {
      AboveOrder(b, me, size, t, lo, hi, u, c);
    }
    NearestDespite(r, scanned, side, below, above, t, K);
  }

  lemma NearestIff(b: Buckets, me: NodeId, size: nat, t: NodeId)
    requires BucketsOk(me, size, b)
    ensures IsNearest(Ids(CloseNodesOf(b, me, t)), IdSet(Flatten(b)), t, K) <==> ScanSuffices(b, me, t)
  {
    var lo, hi := CloseNodesNearest(b, me, size, t);
    RangeIff(b, me, size, t, lo, hi, Ids(CloseNodesOf(b, me, t)));
    RangeSufficesIds(b, me, size, t, hi);
  }

  lemma AboveEmpty(b: Buckets, me: NodeId, size: nat, hi: nat)
    requires BucketsOk(me, size, b) && hi < |b|
    ensures IdsIn(b, me, hi + 1, |b|) == {} <==> forall j :: hi < j < |b| ==> b[j] == []
  {
    forall j | hi < j < |b| && b[j] != []
      ensures b[j][0].id in IdsIn(b, me, hi + 1, |b|)
    {
      assert BucketOk(me, size, |b|, j, b[j]) && b[j][0] in b[j];
      FlattenIn(b, me, size, b[j][0]);
      IdSetMembers(Flatten(b));
    }
    forall x | x in IdsIn(b, me, hi + 1, |b|)
      ensures b[BucketIndex(me, x, |b|)] != []
    {
      IdSetMembers(Flatten(b));
      var c :| c in Flatten(b) && c.id == x;
      FlattenIn(b, me, size, c);
    }
  }

  /** The widening answer equals sorting the whole table exactly when the scan suffices. */
  lemma ExactIff(b: Buckets, me: NodeId, size: nat, t: NodeId)
    requires BucketsOk(me, size, b)
    ensures CloseNodesOf(b, me, t) == FullAnswer(Flatten(b), t) <==> ScanSuffices(b, me, t)
  {
    var all := Flatten(b);
    var r, q := CloseNodesOf(b, me, t), FullAnswer(all, t);
    NearestIff(b, me, size, t);
    var lo, hi := CloseNodesNearest(b, me, size, t);
    TableDistinct(b, me, size);
    SortTruncateIsSettle(all, t, K);
    SettleNearest(all, t, K);
    if IsNearest(Ids(r), IdSet(all), t, K) {
      NearestUnique(Ids(r), Ids(q), IdSet(all), t, K);
      SameContacts(r, q, all);
    }
  }

  lemma {:induction false} SelectHolds(b: Buckets, side: set<nat>, n: nat, i: nat)
    requires i < n <= |b| && i in side
    ensures |Select(b, side, n)| >= |b[i]|
  {
    if i < n - 1 { SelectHolds(b, side, n - 1, i); }
  }

  /** A full home bucket, or asking for our own id, is enough for the exact answer. */
  lemma ExactWhen(b: Buckets, me: NodeId, size: nat, t: NodeId)
    requires BucketsOk(me, size, b)
    requires t == me || |b[BucketIndex(me, t, |b|)]| >= K
    ensures CloseNodesOf(b, me, t) == FullAnswer(Flatten(b), t)
  {
    var home := BucketIndex(me, t, |b|);
    var hi := Widen(b, home, home).1;
    if t == me {
      SharedSpec(t, me);
    } else {
      SelectHolds(b, TargetSide(me, t, |b|), hi + 1, home);
    }
    ExactIff(b, me, size, t);
  }
}
