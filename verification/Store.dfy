/** STORE at a replica: validate without looking at the state, then commit under the entry lock. */
module Store {
  import opened Wrappers
  import opened Keys
  import opened Package
  import opened VersionChain

  datatype Value = Blob(bytes: Bytes) | Latest(pointer: Pointer)

  /** The only key a value may be stored under. */
  function ValueKey(w: World, v: Value): Key {
    match v
    case Blob(bytes) => w.hash(bytes)
    case Latest(p) => LatestKey(w, p.body.domain, p.body.package)
  }

  datatype Request = Request(key: Key, value: Value, proof: seq<Record>)

  /** A request that passed its checks and now waits for its entry in the map. */
  datatype Checked =
    | CheckedBlob(key: Key, bytes: Bytes)
    | CheckedLatest(key: Key, pointer: Pointer, owner: VerifyingKey, chain: seq<Record>)

  /** `continues_previous`: the same pointer again, or a higher version whose history holds the old record. */
  predicate ContinuesPrevious(w: World, held: Pointer, proposed: Pointer, chain: seq<Record>) {
    held == proposed ||
    (Less(held.body.version, proposed.body.version) &&
     exists r :: r in chain && RecordKey(w, r) == held.body.recordHash && r.body.version == held.body.version)
  }

  /** Everything a STORE checks before it looks at the map; `owner` is what DNS answers for the domain. */
  ghost function Check(w: World, req: Request, owner: Option<VerifyingKey>): Option<Checked> {
    if req.key != ValueKey(w, req.value) then None
    else match req.value
      case Blob(bytes) => if req.proof != [] then None else Some(CheckedBlob(req.key, bytes))
      case Latest(p) =>
        if owner.None? || !LatestIsValid(w, p, owner.value) then None
        else
          var validated := Validate(w, owner.value, p, req.proof);
          if validated.Err? then None else Some(CheckedLatest(req.key, p, owner.value, validated.value))
  }

  /** Whether the entry lets the request in, given what it holds now. */
  predicate Admits(w: World, values: map<Key, Value>, c: Checked) {
    match c
    case CheckedBlob(key, _) => !(key in values && values[key].Latest?)
    case CheckedLatest(key, p, _, chain) =>
      !(key in values && values[key].Latest? && !ContinuesPrevious(w, values[key].pointer, p, chain))
  }

  function CheckedValue(c: Checked): Value {
    match c
    case CheckedBlob(_, bytes) => Blob(bytes)
    case CheckedLatest(_, p, _, _) => Latest(p)
  }

  function CommitTo(w: World, values: map<Key, Value>, c: Checked): map<Key, Value> {
    if Admits(w, values, c) then values[c.key := CheckedValue(c)] else values
  }

  /* ---- what is let in, said without those checks ---- */

  /** Nothing is latest at `key` yet, or `p` is that pointer again, or a higher version whose history holds its record. */
  ghost predicate Succeeds(w: World, values: map<Key, Value>, key: Key, p: Pointer, chain: seq<Record>) {
    key in values && values[key].Latest? ==>
      var held := values[key].pointer;
      || held == p
      || (Rank(held.body.version) < Rank(p.body.version) &&
          exists r :: r in chain && w.hash(w.encodeRecord(r)) == held.body.recordHash && r.body.version == held.body.version)
  }

  /** The request carries the owner's pointer, under its own key, with its whole signed history in any order. */
  ghost predicate Proven(w: World, req: Request, p: Pointer, owner: VerifyingKey, chain: seq<Record>) {
    && req.key == LatestKey(w, p.body.domain, p.body.package)
    && OwnerPointed(w, owner, p.body.domain, p.body.package, p)
    && SignedHistory(w, owner, p, chain) && multiset(req.proof) == multiset(chain)
  }

  /** Some signed history proves the request and succeeds what is held. */
  ghost predicate Deserves(w: World, values: map<Key, Value>, req: Request, p: Pointer, owner: VerifyingKey) {
    exists chain :: Proven(w, req, p, owner, chain) && Succeeds(w, values, req.key, p, chain)
  }

  lemma SucceedsIff(w: World, values: map<Key, Value>, key: Key, p: Pointer, owner: VerifyingKey, chain: seq<Record>)
    ensures Admits(w, values, CheckedLatest(key, p, owner, chain)) <==> Succeeds(w, values, key, p, chain)
  {
    if key in values && values[key].Latest? {
      LessIsRank(values[key].pointer.body.version, p.body.version);
    }
  }

  lemma ProvenIff(w: World, req: Request, p: Pointer, owner: VerifyingKey, chain: seq<Record>)
    requires RoundTrips(w) && req.value == Latest(p)
    ensures Check(w, req, Some(owner)) == Some(CheckedLatest(req.key, p, owner, chain)) <==> Proven(w, req, p, owner, chain)
  {
    ValidateSigned(w, owner, p, req.proof, chain);
    ValidIsPointed(w, owner, p);
  }

  /** A latest pointer is let in exactly when DNS has an owner, the owner proved it, and it succeeds what is held. */
  lemma LatestDecision(w: World, values: map<Key, Value>, req: Request, p: Pointer, owner: Option<VerifyingKey>)
    requires RoundTrips(w) && req.value == Latest(p)
    ensures var c := Check(w, req, owner);
            c.Some? && Admits(w, values, c.value) <==>
            owner.Some? && Deserves(w, values, req, p, owner.value)
  {
    if owner.Some? {
      forall chain
        ensures Check(w, req, owner) == Some(CheckedLatest(req.key, p, owner.value, chain)) <==> Proven(w, req, p, owner.value, chain)
        ensures Admits(w, values, CheckedLatest(req.key, p, owner.value, chain)) <==> Succeeds(w, values, req.key, p, chain)
      {
        ProvenIff(w, req, p, owner.value, chain);
        SucceedsIff(w, values, req.key, p, owner.value, chain);
      }
    }
  }

  /** One replica's datastore. */
  class Replica {
    const w: World
    var values: map<Key, Value>

    constructor (w: World)
      ensures this.w == w && values == map[]
    {
      this.w := w;
      values := map[];
    }

    /** The STORE handler: `STORED` is true, declining is false. */
    method Handle(req: Request, owner: Option<VerifyingKey>) returns (stored: bool)
      modifies this
      ensures var c := Check(w, req, owner);
              && stored == (c.Some? && Admits(w, old(values), c.value))
              && values == if c.Some? then CommitTo(w, old(values), c.value) else old(values)
      ensures values == if stored then old(values)[req.key := req.value] else old(values)
      ensures req.value.Blob? ==>
                (stored <==> req.key == w.hash(req.value.bytes) && req.proof == [] && !(req.key in old(values) && old(values)[req.key].Latest?))
      ensures req.value.Latest? && RoundTrips(w) ==>
                (stored <==> owner.Some? && Deserves(w, old(values), req, req.value.pointer, owner.value))
    {
      if req.value.Latest? && RoundTrips(w) { LatestDecision(w, values, req, req.value.pointer, owner); }
      if req.key != ValueKey(w, req.value) { return false; }
      match req.value {
      case Blob(bytes) =>
        if req.proof != [] { return false; }
        if req.key in values && values[req.key].Latest? { return false; }
        values := values[req.key := req.value];
      case Latest(p) =>
        if owner.None? { return false; }
        if !LatestIsValid(w, p, owner.value) { return false; }
        var chain := ValidateChainProof(w, owner.value, p, req.proof);
        if chain.Err? { return false; }
        if req.key in values && values[req.key].Latest? {
          if !ContinuesPrevious(w, values[req.key].pointer, p, chain.value) { return false; }
        }
        values := values[req.key := req.value];
      }
      return true;
    }
  }

  /* ---- the fast check is the full comparison ---- */

  /** The suffix behind the held pointer, found by one hash and one version. */
  lemma ContinuesIsSuffix(w: World, o: VerifyingKey, held: Pointer, c: seq<Record>, n: VerifyingKey, proposed: Pointer, d: seq<Record>)
    requires Behind(w, o, held, c) && Behind(w, n, proposed, d)
    requires CollisionFree(w, Elements(c) + Elements(d))
    requires ContinuesPrevious(w, held, proposed, d)
    ensures EndsWith(d, c)
    ensures held != proposed ==> Less(held.body.version, proposed.body.version)
    ensures held.body.domain == proposed.body.domain && held.body.package == proposed.body.package
  {
    if held == proposed {
      LinksUnique(w, held.body.recordHash, c, d);
    } else {
      var r :| r in d && RecordKey(w, r) == held.body.recordHash && r.body.version == held.body.version;
      var i :| 0 <= i < |d| && d[i] == r;
      assert Elements(d) + Elements(c) == Elements(c) + Elements(d);
      SharedRecordSuffix(w, proposed.body.recordHash, d, i, c);
      assert c[0] == d[i..][0] == d[i];
      assert c[0] in c && d[i] in d;
    }
  }

  lemma SuffixContinues(w: World, o: VerifyingKey, held: Pointer, c: seq<Record>, n: VerifyingKey, proposed: Pointer, d: seq<Record>)
    requires Behind(w, o, held, c) && Behind(w, n, proposed, d)
    requires EndsWith(d, c) && c != d
    ensures ContinuesPrevious(w, held, proposed, d)
  {
    var k := |d| - |c|;
    assert d[0..] == d;
    assert c[0] == d[k..][0] == d[k];
    assert d[k] in d && Less(d[k].body.version, d[0].body.version);
  }

  lemma OnePackage(w: World, o: VerifyingKey, held: Pointer, c: seq<Record>, n: VerifyingKey, proposed: Pointer, d: seq<Record>)
    requires Behind(w, o, held, c) && Behind(w, n, proposed, d)
    requires held.body.domain == proposed.body.domain && held.body.package == proposed.body.package
    ensures CompareChains(c, d).Ok?
    ensures CompareChains(c, d) == Ok(Same) <==> c == d
    ensures CompareChains(c, d) == Ok(Extends) <==> c != d && EndsWith(d, c)
  {
    assert c[0] in c;
    assert forall r :: r in c + d ==> r in c || r in d;
  }

  /**
   * For two validated histories of one package, the replica's check on one hash and one version
   * decides exactly what comparing the whole histories decides.
   */
  lemma FastCheckIff(w: World, o: VerifyingKey, held: Pointer, c: seq<Record>, n: VerifyingKey, proposed: Pointer, d: seq<Record>)
    requires Behind(w, o, held, c) && Behind(w, n, proposed, d)
    requires held.body.domain == proposed.body.domain && held.body.package == proposed.body.package
    requires CollisionFree(w, Elements(c) + Elements(d))
    ensures ContinuesPrevious(w, held, proposed, d) <==> held == proposed || CompareChains(c, d) == Ok(Extends)
    ensures !ContinuesPrevious(w, held, proposed, d) <==>
            held != proposed && CompareChains(c, d) in {Ok(Same), Ok(Rollback), Ok(Fork)}
  {
    OnePackage(w, o, held, c, n, proposed, d);
    if ContinuesPrevious(w, held, proposed, d) && held != proposed {
      ContinuesIsSuffix(w, o, held, c, n, proposed, d);
      assert c != d;
    }
    if CompareChains(c, d) == Ok(Extends) {
      SuffixContinues(w, o, held, c, n, proposed, d);
    }
  }

  /* ---- every interleaving of checks and commits ---- */

  /** A latest pointer let in, with the history it was let in for. */
  datatype Accepted = Accepted(pointer: Pointer, owner: VerifyingKey, chain: seq<Record>)

  /** A replica in the middle of serving requests; `accepted` records what was let in under each key. */
  datatype Node = Node(values: map<Key, Value>, waiting: seq<Checked>, accepted: map<Key, seq<Accepted>>)

  /** A request arrives and is checked, or a waiting request gets its entry. DNS may answer anything. */
  datatype Event = Arrive(req: Request, owner: Option<VerifyingKey>) | Commit(index: nat)

  function Log(accepted: map<Key, seq<Accepted>>, key: Key): seq<Accepted> {
    if key in accepted then accepted[key] else []
  }

  function LogAccepted(accepted: map<Key, seq<Accepted>>, c: Checked): map<Key, seq<Accepted>> {
    match c
    case CheckedBlob(_, _) => accepted
    case CheckedLatest(key, p, owner, chain) => accepted[key := Log(accepted, key) + [Accepted(p, owner, chain)]]
  }

  ghost function Step(w: World, n: Node, e: Event): Node {
    match e
    case Arrive(req, owner) =>
      var c := Check(w, req, owner);
      if c.Some? then n.(waiting := n.waiting + [c.value]) else n
    case Commit(i) =>
      if i >= |n.waiting| then n
      else
        var c := n.waiting[i];
        Node(CommitTo(w, n.values, c), n.waiting[..i] + n.waiting[i + 1..],
             if Admits(w, n.values, c) then LogAccepted(n.accepted, c) else n.accepted)
  }

  ghost function Run(w: World, events: seq<Event>): Node {
    if events == [] then Node(map[], [], map[])
    else Step(w, Run(w, events[..|events| - 1]), events[|events| - 1])
  }

  /** All records that came with the requests. */
  ghost function Supplied(events: seq<Event>): set<Record> {
    set i, r | 0 <= i < |events| && events[i].Arrive? && r in events[i].req.proof :: r
  }

  /** What a request that passed its checks guarantees, given the records supplied so far. */
  ghost predicate CheckedOk(w: World, rs: set<Record>, c: Checked) {
    c.key == ValueKey(w, CheckedValue(c)) &&
    (c.CheckedLatest? ==> Behind(w, c.owner, c.pointer, c.chain) && Elements(c.chain) <= rs)
  }

  /** `b` was let in after `a`: it ends with the older history, and its pointer is the same or has a higher version. */
  ghost predicate Follows(a: Accepted, b: Accepted) {
    && EndsWith(b.chain, a.chain)
    && (a.pointer == b.pointer || Less(a.pointer.body.version, b.pointer.body.version))
    && a.pointer.body.domain == b.pointer.body.domain
    && a.pointer.body.package == b.pointer.body.package
  }

  /** Every entry follows every earlier one. */
  ghost predicate AppendOnly(log: seq<Accepted>) {
    forall i, j :: 0 <= i < j < |log| ==> Follows(log[i], log[j])
  }

  ghost predicate LogOk(w: World, rs: set<Record>, key: Key, log: seq<Accepted>) {
    && AppendOnly(log)
    && forall a :: a in log ==>
         && Behind(w, a.owner, a.pointer, a.chain) && Elements(a.chain) <= rs
         && LatestKey(w, a.pointer.body.domain, a.pointer.body.package) == key
  }

  /** The map and the log agree: the entry holds the last pointer let in, once there is one. */
  ghost predicate EntryOk(w: World, n: Node, key: Key) {
    var log := Log(n.accepted, key);
    && (key in n.values ==> ValueKey(w, n.values[key]) == key)
    && (log != [] ==> key in n.values && n.values[key] == Latest(log[|log| - 1].pointer))
    && (key in n.values && n.values[key].Latest? ==> log != [])
  }

  ghost predicate NodeOk(w: World, rs: set<Record>, n: Node) {
    && (forall c :: c in n.waiting ==> CheckedOk(w, rs, c))
    && (forall key :: LogOk(w, rs, key, Log(n.accepted, key)))
    && (forall key :: EntryOk(w, n, key))
  }

  lemma CheckGives(w: World, req: Request, owner: Option<VerifyingKey>)
    requires RoundTrips(w) && Check(w, req, owner).Some?
    ensures CheckedOk(w, Elements(req.proof), Check(w, req, owner).value)
    ensures CheckedValue(Check(w, req, owner).value) == req.value
  {
    var c := Check(w, req, owner).value;
    if c.CheckedLatest? {
      ValidateSound(w, owner.value, c.pointer, req.proof, c.chain);
      RecordPermutation(w, req.proof, c.chain);
    }
  }

  lemma FollowsTransitive(a: Accepted, b: Accepted, c: Accepted)
    requires Follows(a, b) && Follows(b, c)
    ensures Follows(a, c)
  {
    SuffixTransitive(a.chain, b.chain, c.chain);
  }

  lemma AppendOnlyMore(log: seq<Accepted>, a: Accepted)
    requires AppendOnly(log) && (log != [] ==> Follows(log[|log| - 1], a))
    ensures AppendOnly(log + [a])
  {
    forall i | 0 <= i < |log|
      ensures Follows(log[i], a)
    {
      if i < |log| - 1 { FollowsTransitive(log[i], log[|log| - 1], a); }
    }
  }

  lemma LogMore(w: World, rs: set<Record>, key: Key, log: seq<Accepted>, a: Accepted)
    requires LogOk(w, rs, key, log) && CollisionFree(w, rs)
    requires Behind(w, a.owner, a.pointer, a.chain) && Elements(a.chain) <= rs
    requires LatestKey(w, a.pointer.body.domain, a.pointer.body.package) == key
    requires log != [] ==> ContinuesPrevious(w, log[|log| - 1].pointer, a.pointer, a.chain)
    ensures LogOk(w, rs, key, log + [a])
  {
    if log != [] {
      var last := log[|log| - 1];
      assert last in log;
      ContinuesIsSuffix(w, last.owner, last.pointer, last.chain, a.owner, a.pointer, a.chain);
    }
    AppendOnlyMore(log, a);
  }

  lemma SuffixTransitive(a: seq<Record>, b: seq<Record>, c: seq<Record>)
    requires EndsWith(b, a) && EndsWith(c, b)
    ensures EndsWith(c, a)
  {
    assert c[|c| - |a|..] == c[|c| - |b|..][|b| - |a|..];
  }

  lemma CommitLogOk(w: World, rs: set<Record>, n: Node, c: Checked, key: Key)
    requires NodeOk(w, rs, n) && CheckedOk(w, rs, c) && CollisionFree(w, rs) && Admits(w, n.values, c)
    ensures LogOk(w, rs, key, Log(LogAccepted(n.accepted, c), key))
  {
    var log := Log(n.accepted, key);
    assert LogOk(w, rs, key, log) && EntryOk(w, n, key);
    if c.CheckedLatest? && c.key == key {
      LogMore(w, rs, key, log, Accepted(c.pointer, c.owner, c.chain));
    }
  }

  lemma CommitEntryOk(w: World, rs: set<Record>, n: Node, c: Checked, key: Key, waiting: seq<Checked>)
    requires NodeOk(w, rs, n) && CheckedOk(w, rs, c) && Admits(w, n.values, c)
    ensures EntryOk(w, Node(CommitTo(w, n.values, c), waiting, LogAccepted(n.accepted, c)), key)
  {
    assert EntryOk(w, n, key);
  }

  lemma CommitKeeps(w: World, rs: set<Record>, n: Node, i: nat)
    requires NodeOk(w, rs, n) && CollisionFree(w, rs)
    ensures NodeOk(w, rs, Step(w, n, Commit(i)))
  {
    if i < |n.waiting| {
      var c := n.waiting[i];
      var next := Step(w, n, Commit(i));
      assert c in n.waiting;
      forall x | x in next.waiting
        ensures CheckedOk(w, rs, x)
      {
        assert x in n.waiting;
      }
      forall key
        ensures LogOk(w, rs, key, Log(next.accepted, key)) && EntryOk(w, next, key)
      {
        assert LogOk(w, rs, key, Log(n.accepted, key)) && EntryOk(w, n, key);
        if Admits(w, n.values, c) {
          CommitLogOk(w, rs, n, c, key);
          CommitEntryOk(w, rs, n, c, key, next.waiting);
        }
      }
    }
  }

  lemma MoreRecords(w: World, rs: set<Record>, more: set<Record>, n: Node)
    requires NodeOk(w, rs, n) && rs <= more
    ensures NodeOk(w, more, n)
  {
    forall c | c in n.waiting ensures CheckedOk(w, more, c) {}
    forall key ensures LogOk(w, more, key, Log(n.accepted, key)) {
      assert LogOk(w, rs, key, Log(n.accepted, key));
    }
    forall key ensures EntryOk(w, n, key) {}
  }

  lemma ArriveKeeps(w: World, rs: set<Record>, n: Node, req: Request, owner: Option<VerifyingKey>)
    requires NodeOk(w, rs, n) && RoundTrips(w) && Elements(req.proof) <= rs
    ensures NodeOk(w, rs, Step(w, n, Arrive(req, owner)))
  {
    var next := Step(w, n, Arrive(req, owner));
    if Check(w, req, owner).Some? {
      CheckGives(w, req, owner);
      forall key
        ensures LogOk(w, rs, key, Log(next.accepted, key)) && EntryOk(w, next, key)
      {
        assert LogOk(w, rs, key, Log(n.accepted, key)) && EntryOk(w, n, key);
      }
    }
  }

  lemma SuppliedStep(events: seq<Event>)
    requires events != []
    ensures var n := |events| - 1;
            && Supplied(events[..n]) <= Supplied(events)
            && (events[n].Arrive? ==> Elements(events[n].req.proof) <= Supplied(events))
  {
    var n := |events| - 1;
    assert forall i :: 0 <= i < n ==> events[..n][i] == events[i];
    forall r | r in Supplied(events[..n])
      ensures r in Supplied(events)
    {
      var i :| 0 <= i < n && events[..n][i].Arrive? && r in events[..n][i].req.proof;
      assert events[i].Arrive? && r in events[i].req.proof;
    }
  }

  /** In every reachable state, under every key, what was let in is append-only. */
  lemma {:induction false} AppendOnlyReplica(w: World, events: seq<Event>)
    requires RoundTrips(w) && CollisionFree(w, Supplied(events))
    ensures NodeOk(w, Supplied(events), Run(w, events))
  {
    if events != [] {
      var n := |events| - 1;
      var before := Run(w, events[..n]);
      SuppliedStep(events);
      AppendOnlyReplica(w, events[..n]);
      MoreRecords(w, Supplied(events[..n]), Supplied(events), before);
      match events[n]
      case Arrive(req, owner) => ArriveKeeps(w, Supplied(events), before, req, owner);
      case Commit(i) => CommitKeeps(w, Supplied(events), before, i);
    }
  }

  /** A handler that runs alone is a check followed at once by its commit. */
  lemma AloneIsCheckThenCommit(w: World, n: Node, req: Request, owner: Option<VerifyingKey>)
    requires n.waiting == []
    ensures var c := Check(w, req, owner);
            var done := Step(w, Step(w, n, Arrive(req, owner)), Commit(0));
            && done.values == (if c.Some? then CommitTo(w, n.values, c.value) else n.values)
            && done.waiting == []
  {
    var c := Check(w, req, owner);
    if c.Some? {
      assert ([] + [c.value])[..0] + ([] + [c.value])[1..] == [];
    }
  }

  lemma StepLogGrows(w: World, n: Node, e: Event, key: Key)
    ensures Log(n.accepted, key) <= Log(Step(w, n, e).accepted, key)
  {
  }

  /** Entries are only ever appended to a key's log. */
  lemma {:induction false} LogGrows(w: World, events: seq<Event>, m: nat, key: Key)
    requires m <= |events|
    ensures Log(Run(w, events[..m]).accepted, key) <= Log(Run(w, events).accepted, key)
  {
    if m == |events| {
      assert events[..m] == events;
    } else {
      var n := |events| - 1;
      assert events[..n][..m] == events[..m];
      LogGrows(w, events[..n], m, key);
      StepLogGrows(w, Run(w, events[..n]), events[n], key);
    }
  }

  /**
   * A key that holds a latest pointer holds one forever: of the same domain and package, and the
   * same pointer or one of a higher version.
   */
  lemma LatestForever(w: World, events: seq<Event>, m: nat, key: Key)
    requires RoundTrips(w) && CollisionFree(w, Supplied(events)) && m <= |events|
    requires key in Run(w, events[..m]).values && Run(w, events[..m]).values[key].Latest?
    ensures key in Run(w, events).values && Run(w, events).values[key].Latest?
    ensures var p, q := Run(w, events[..m]).values[key].pointer, Run(w, events).values[key].pointer;
            && (p == q || Less(p.body.version, q.body.version))
            && p.body.domain == q.body.domain && p.body.package == q.body.package
  {
    SuppliedPrefix(events, m);
    AppendOnlyReplica(w, events[..m]);
    AppendOnlyReplica(w, events);
    LogGrows(w, events, m, key);
    LastFollows(w, Supplied(events[..m]), Run(w, events[..m]), Supplied(events), Run(w, events), key);
  }

  lemma LastFollows(w: World, rs: set<Record>, m: Node, more: set<Record>, n: Node, key: Key)
    requires NodeOk(w, rs, m) && NodeOk(w, more, n) && Log(m.accepted, key) <= Log(n.accepted, key)
    requires key in m.values && m.values[key].Latest?
    ensures key in n.values && n.values[key].Latest?
    ensures var p, q := m.values[key].pointer, n.values[key].pointer;
            && (p == q || Less(p.body.version, q.body.version))
            && p.body.domain == q.body.domain && p.body.package == q.body.package
  {
    var a, b := Log(m.accepted, key), Log(n.accepted, key);
    assert EntryOk(w, m, key) && EntryOk(w, n, key) && LogOk(w, more, key, b);
    assert a[|a| - 1] == b[|a| - 1];
    if |a| < |b| { assert Follows(b[|a| - 1], b[|b| - 1]); }
  }

  lemma SuppliedPrefix(events: seq<Event>, m: nat)
    requires m <= |events|
    ensures Supplied(events[..m]) <= Supplied(events)
  {
    forall r | r in Supplied(events[..m])
      ensures r in Supplied(events)
    {
      var i :| 0 <= i < m && events[..m][i].Arrive? && r in events[..m][i].req.proof;
      assert events[i].Arrive? && r in events[i].req.proof;
    }
  }

  /* ---- key discipline, whatever the hash does ---- */

  ghost predicate KeysOk(w: World, n: Node) {
    && (forall key :: key in n.values ==> ValueKey(w, n.values[key]) == key)
    && (forall c :: c in n.waiting ==> ValueKey(w, CheckedValue(c)) == c.key)
  }

  lemma StepKeepsKeys(w: World, n: Node, e: Event)
    requires KeysOk(w, n)
    ensures KeysOk(w, Step(w, n, e))
  {
    if e.Commit? && e.index < |n.waiting| {
      assert n.waiting[e.index] in n.waiting;
    }
  }

  /** In every reachable state each value sits under its own key. */
  lemma {:induction false} StoredUnderOwnKey(w: World, events: seq<Event>)
    ensures KeysOk(w, Run(w, events))
  {
    if events != [] {
      StoredUnderOwnKey(w, events[..|events| - 1]);
      StepKeepsKeys(w, Run(w, events[..|events| - 1]), events[|events| - 1]);
    }
  }

  /** A key that once holds a latest pointer never holds a blob again. */
  lemma {:induction false} StaysLatest(w: World, events: seq<Event>, m: nat, key: Key)
    requires m <= |events|
    requires key in Run(w, events[..m]).values && Run(w, events[..m]).values[key].Latest?
    ensures key in Run(w, events).values && Run(w, events).values[key].Latest?
  {
    if m == |events| {
      assert events[..m] == events;
    } else {
      var n := |events| - 1;
      assert events[..n][..m] == events[..m];
      StaysLatest(w, events[..n], m, key);
    }
  }
}
