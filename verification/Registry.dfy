/** Publishing a version so that replicas take it, and agreement between replicas. */
module Registry {
  import opened Wrappers
  import opened Keys
  import opened Package
  import opened VersionChain
  import opened Store

  datatype PublishError = VersionNotNewer | PreviousNotFound | PreviousNotLatest | WrongPackageHistory

  datatype Prepared = Prepared(blob: Bytes, record: Record, pointer: Pointer, proof: seq<Record>)

  /** What is being published, and how. */
  datatype Publication = Publication(
    domain: string, package: string, version: Version, blob: Bytes, signer: SigningKey,
    previous: Option<Version>, force: bool)

  /** Index of the first record of that version. */
  function FindVersion(s: seq<Record>, v: Version): (i: nat)
    ensures i <= |s|
    ensures i < |s| ==> s[i].body.version == v
    ensures i == |s| ==> forall r :: r in s ==> r.body.version != v
  {
    if s == [] || s[0].body.version == v then 0 else 1 + FindVersion(s[1..], v)
  }

  /** The record a publication links to: the requested one, else the newest, else none. */
  function Predecessor(p: Publication, existing: seq<Record>): (r: Result<Option<nat>, PublishError>)
    ensures r.Ok? && r.value.Some? ==> r.value.value < |existing|
    ensures r == Ok(None) ==> existing == []
  {
    if p.previous.Some? then
      var i := FindVersion(existing, p.previous.value);
      if i < |existing| then Ok(Some(i)) else Err(PreviousNotFound)
    else if existing == [] then Ok(None)
    else Ok(Some(0))
  }

  function MakeRecord(w: World, p: Publication, prev: Key): Record {
    SignRecord(w, VersionRecord(VERSION_RECORD_TAG, p.domain, p.package, p.version, w.hash(p.blob), prev), p.signer)
  }

  function MakePointer(w: World, p: Publication, record: Record): Pointer {
    SignPointer(w, LatestPointer(LATEST_POINTER_TAG, p.domain, p.package, p.version, RecordKey(w, record)), p.signer)
  }

  /** `prepare_publication`. */
  function PreparePublication(w: World, p: Publication, existing: seq<Record>): Result<Prepared, PublishError> {
    if exists r :: r in existing && (r.body.domain != p.domain || r.body.package != p.package) then Err(WrongPackageHistory)
    else
      var predecessor := Predecessor(p, existing);
      if predecessor.Err? then Err(predecessor.error)
      else if !p.force && existing != [] && !Less(existing[0].body.version, p.version) then Err(VersionNotNewer)
      else if !p.force && existing != [] && predecessor.value != Some(0) then Err(PreviousNotLatest)
      else
        var index := predecessor.value;
        var record := MakeRecord(w, p, if index.Some? then RecordKey(w, existing[index.value]) else END_OF_CHAIN);
        Ok(Prepared(p.blob, record, MakePointer(w, p, record),
                    [record] + if index.Some? then existing[index.value..] else []))
  }

  /* ---- when a publication is prepared, and what it holds ---- */

  /** Some record of the history is of another package. */
  ghost predicate Foreign(p: Publication, existing: seq<Record>) {
    exists i :: 0 <= i < |existing| && (existing[i].body.domain != p.domain || existing[i].body.package != p.package)
  }

  /** The version asked for as predecessor is not in the history. */
  ghost predicate Unknown(p: Publication, existing: seq<Record>) {
    p.previous.Some? && forall i :: 0 <= i < |existing| ==> existing[i].body.version != p.previous.value
  }

  lemma ForeignIff(p: Publication, existing: seq<Record>)
    ensures Foreign(p, existing) <==> exists r :: r in existing && (r.body.domain != p.domain || r.body.package != p.package)
  {
  }

  /** Each error, and success, by what the history and the publication are. */
  lemma PrepareDecides(w: World, p: Publication, existing: seq<Record>)
    ensures var res := PreparePublication(w, p, existing);
            var strict := !Foreign(p, existing) && !Unknown(p, existing) && !p.force && existing != [];
            && (res == Err(WrongPackageHistory) <==> Foreign(p, existing))
            && (res == Err(PreviousNotFound) <==> !Foreign(p, existing) && Unknown(p, existing))
            && (res == Err(VersionNotNewer) <==> strict && Rank(p.version) <= Rank(existing[0].body.version))
            && (res == Err(PreviousNotLatest) <==>
                  && strict && Rank(p.version) > Rank(existing[0].body.version)
                  && p.previous.Some? && p.previous.value != existing[0].body.version)
            && (res.Ok? <==>
                  && !Foreign(p, existing) && !Unknown(p, existing)
                  && (p.force || existing == [] ||
                      (Rank(p.version) > Rank(existing[0].body.version) &&
                       (p.previous.None? || p.previous.value == existing[0].body.version))))
  {
    ForeignIff(p, existing);
    if existing != [] { LessIsRank(existing[0].body.version, p.version); }
  }

  /** Where the new record is put: on the newest, or on the first of the version asked for. */
  ghost predicate PutOn(p: Publication, existing: seq<Record>, i: nat) {
    && i < |existing|
    && (p.previous.None? ==> i == 0)
    && (p.previous.Some? ==> existing[i].body.version == p.previous.value && forall j :: 0 <= j < i ==> existing[j].body.version != p.previous.value)
  }

  /** What was prepared: the blob itself, a signed record of it on its predecessor, a signed pointer to that, and the proof. */
  lemma PreparedParts(w: World, p: Publication, existing: seq<Record>) returns (i: nat)
    requires PreparePublication(w, p, existing).Ok?
    ensures existing != [] ==> PutOn(p, existing, i)
    ensures var r := PreparePublication(w, p, existing).value;
            && r.blob == p.blob
            && r.record.body.tag == "version-record" && r.record.body.domain == p.domain && r.record.body.package == p.package
            && r.record.body.version == p.version && r.record.body.blobHash == w.hash(p.blob)
            && r.record.sig == w.sign(p.signer, w.hash(w.encodeRecordBody(r.record.body)))
            && r.pointer.body.tag == "latest-pointer" && r.pointer.body.domain == p.domain && r.pointer.body.package == p.package
            && r.pointer.body.version == p.version && r.pointer.body.recordHash == w.hash(w.encodeRecord(r.record))
            && r.pointer.sig == w.sign(p.signer, w.hash(w.encodePointerBody(r.pointer.body)))
            && (existing == [] ==> IsZero(r.record.body.prev) && r.proof == [r.record])
            && (existing != [] ==>
                  r.record.body.prev == w.hash(w.encodeRecord(existing[i])) && r.proof == [r.record] + existing[i..])
  {
    i := 0;
    ZeroIsEnd(END_OF_CHAIN);
    if p.previous.Some? { FirstOfVersion(existing, p.previous.value); }
    if existing != [] { i := Predecessor(p, existing).value.value; }
  }

  lemma {:induction false} FirstOfVersion(s: seq<Record>, v: Version)
    ensures forall j :: 0 <= j < FindVersion(s, v) ==> s[j].body.version != v
  {
    if s != [] && s[0].body.version != v {
      FirstOfVersion(s[1..], v);
      forall j | 0 < j < FindVersion(s, v) ensures s[j].body.version != v {
        assert s[j] == s[1..][j - 1];
      }
    }
  }

  /* ---- an unforced publication is taken ---- */

  /** `existing` is the whole history of the package so far, or there is none. */
  ghost predicate HistorySoFar(w: World, owner: VerifyingKey, p: Publication, existing: seq<Record>) {
    existing == [] || History(w, owner, p.domain, p.package, RecordKey(w, existing[0]), existing)
  }

  lemma DecreasingDistinctKeys(w: World, chain: seq<Record>)
    requires Decreasing(chain) && CollisionFree(w, Elements(chain))
    ensures DistinctKeys(w, chain)
  {
    forall i, j | 0 <= i < j < |chain|
      ensures RecordKey(w, chain[i]) != RecordKey(w, chain[j])
    {
      assert chain[i] in Elements(chain) && chain[j] in Elements(chain);
      assert Less(chain[j].body.version, chain[i].body.version);
    }
  }

  lemma PreparedShape(w: World, p: Publication, existing: seq<Record>)
    requires !p.force && PreparePublication(w, p, existing).Ok?
    ensures var r := PreparePublication(w, p, existing).value;
            && r.proof == [r.record] + existing && r.pointer == MakePointer(w, p, r.record)
            && r.record == MakeRecord(w, p, if existing == [] then END_OF_CHAIN else RecordKey(w, existing[0]))
            && (existing != [] ==> Less(existing[0].body.version, p.version) && Rank(existing[0].body.version) < Rank(p.version))
  {
    if existing != [] {
      assert existing[0..] == existing;
      LessIsRank(existing[0].body.version, p.version);
    }
  }

  lemma NewRecordBelongs(w: World, p: Publication, prev: Key)
    requires SignsCorrectly(w)
    ensures Belongs(w, w.publicKey(p.signer), p.domain, p.package, MakeRecord(w, p, prev))
    ensures ':' !in p.domain ==> LatestIsValid(w, MakePointer(w, p, MakeRecord(w, p, prev)), w.publicKey(p.signer))
  {
  }

  /** The prepared proof is the history behind the prepared pointer. */
  lemma PreparedBehind(w: World, p: Publication, existing: seq<Record>)
    requires SignsCorrectly(w) && ':' !in p.domain && !p.force
    requires HistorySoFar(w, w.publicKey(p.signer), p, existing)
    requires PreparePublication(w, p, existing).Ok?
    requires RecordKey(w, PreparePublication(w, p, existing).value.record) != END_OF_CHAIN
    ensures var r := PreparePublication(w, p, existing).value; Behind(w, w.publicKey(p.signer), r.pointer, r.proof)
  {
    var owner := w.publicKey(p.signer);
    var r := PreparePublication(w, p, existing).value;
    PreparedShape(w, p, existing);
    NewRecordBelongs(w, p, r.record.body.prev);
    assert r.proof[1..] == existing;
    if existing != [] { DecreasingCons(r.record, existing); }
    assert forall x :: x in r.proof ==> x == r.record || x in existing;
  }

  /** The request that carries a prepared pointer. */
  function PointerRequest(w: World, r: Prepared): Request {
    Request(ValueKey(w, Latest(r.pointer)), Latest(r.pointer), r.proof)
  }

  /** The replica's entry is free, squatted by a blob, or holds some version of this history. */
  ghost predicate HoldsSome(w: World, values: map<Key, Value>, key: Key, existing: seq<Record>) {
    key in values && values[key].Latest? ==>
      exists i :: 0 <= i < |existing| &&
        values[key].pointer.body.recordHash == RecordKey(w, existing[i]) &&
        values[key].pointer.body.version == existing[i].body.version
  }

  /** An unforced publication on a valid history is accepted by every such replica. */
  lemma PublishAccepted(w: World, p: Publication, existing: seq<Record>, values: map<Key, Value>)
    requires RoundTrips(w) && SignsCorrectly(w) && ':' !in p.domain && !p.force
    requires HistorySoFar(w, w.publicKey(p.signer), p, existing) && |existing| < MAX_CHAIN_LENGTH
    requires PreparePublication(w, p, existing).Ok?
    requires CollisionFree(w, Elements(PreparePublication(w, p, existing).value.proof))
    requires RecordKey(w, PreparePublication(w, p, existing).value.record) != END_OF_CHAIN
    requires HoldsSome(w, values, LatestKey(w, p.domain, p.package), existing)
    ensures var r := PreparePublication(w, p, existing).value;
            var c := Check(w, PointerRequest(w, r), Some(w.publicKey(p.signer)));
            && Validate(w, w.publicKey(p.signer), r.pointer, r.proof) == Ok(r.proof)
            && c == Some(CheckedLatest(LatestKey(w, p.domain, p.package), r.pointer, w.publicKey(p.signer), r.proof))
            && Admits(w, values, c.value)
            && CommitTo(w, values, c.value) == values[LatestKey(w, p.domain, p.package) := Latest(r.pointer)]
  {
    PreparedValidates(w, p, existing);
    PreparedShape(w, p, existing);
    PublishContinues(w, p, existing, values, PreparePublication(w, p, existing).value);
  }

  /** Replicas validate the prepared proof to itself. */
  lemma PreparedValidates(w: World, p: Publication, existing: seq<Record>)
    requires RoundTrips(w) && SignsCorrectly(w) && ':' !in p.domain && !p.force
    requires HistorySoFar(w, w.publicKey(p.signer), p, existing) && |existing| < MAX_CHAIN_LENGTH
    requires PreparePublication(w, p, existing).Ok?
    requires CollisionFree(w, Elements(PreparePublication(w, p, existing).value.proof))
    requires RecordKey(w, PreparePublication(w, p, existing).value.record) != END_OF_CHAIN
    ensures var r := PreparePublication(w, p, existing).value;
            && Behind(w, w.publicKey(p.signer), r.pointer, r.proof)
            && DistinctKeys(w, r.proof) && |r.proof| <= MAX_CHAIN_LENGTH
            && Validate(w, w.publicKey(p.signer), r.pointer, r.proof) == Ok(r.proof)
  {
    var r := PreparePublication(w, p, existing).value;
    PreparedBehind(w, p, existing);
    PreparedShape(w, p, existing);
    DecreasingDistinctKeys(w, r.proof);
    ValidateComplete(w, w.publicKey(p.signer), r.pointer, r.proof, r.proof);
  }

  lemma PublishContinues(w: World, p: Publication, existing: seq<Record>, values: map<Key, Value>, r: Prepared)
    requires r.proof == [r.record] + existing && r.pointer.body.version == p.version && Decreasing(r.proof)
    requires existing != [] ==> Less(existing[0].body.version, p.version)
    requires r.record.body.version == p.version
    requires HoldsSome(w, values, LatestKey(w, p.domain, p.package), existing)
    ensures var key := LatestKey(w, p.domain, p.package);
            key in values && values[key].Latest? ==> ContinuesPrevious(w, values[key].pointer, r.pointer, r.proof)
  {
    var key := LatestKey(w, p.domain, p.package);
    if key in values && values[key].Latest? {
      var held := values[key].pointer;
      var i :| 0 <= i < |existing| && held.body.recordHash == RecordKey(w, existing[i]) &&
               held.body.version == existing[i].body.version;
      assert r.proof[i + 1] == existing[i] && existing[i] in r.proof;
      assert Less(r.proof[i + 1].body.version, r.proof[0].body.version);
    }
  }

  /* ---- what a replica holding the head makes of any publication ---- */

  lemma ForcedShape(w: World, p: Publication, existing: seq<Record>)
    requires PreparePublication(w, p, existing).Ok? && existing != []
    ensures Predecessor(p, existing).Ok? && Predecessor(p, existing).value.Some?
    ensures var i := Predecessor(p, existing).value.value;
            i < |existing| && PreparePublication(w, p, existing).value.proof
                              == [PreparePublication(w, p, existing).value.record] + existing[i..]
  {
  }

  /**
   * Forced or not: the replica that holds the head lets the pointer in exactly when it is the
   * stored pointer again or a higher version linked to the head. Rollbacks and forks stay out.
   */
  lemma HeadHolderDecides(w: World, p: Publication, existing: seq<Record>, held: Pointer, chain: seq<Record>)
    requires PreparePublication(w, p, existing).Ok? && existing != [] && Decreasing(existing)
    requires held.body.recordHash == RecordKey(w, existing[0]) && held.body.version == existing[0].body.version
    requires multiset(chain) == multiset(PreparePublication(w, p, existing).value.proof)
    ensures ContinuesPrevious(w, held, PreparePublication(w, p, existing).value.pointer, chain) <==>
            || held == PreparePublication(w, p, existing).value.pointer
            || (Less(existing[0].body.version, p.version) && Predecessor(p, existing) == Ok(Some(0)))
  {
    var r := PreparePublication(w, p, existing).value;
    ForcedShape(w, p, existing);
    var i := Predecessor(p, existing).value.value;
    RecordPermutation(w, chain, r.proof);
    assert existing[i..][0] == existing[i];
    assert r.proof[1] == existing[i] && existing[i] in r.proof;
    forall x | x in r.proof && x.body.version == held.body.version && Less(held.body.version, p.version)
      ensures i == 0
    {
      assert x != r.record;
      assert x in existing[i..];
      var j :| i <= j < |existing| && existing[j] == x;
      assert j > 0 ==> Less(existing[j].body.version, existing[0].body.version);
    }
  }

  lemma ForcedIsRefused(w: World, p: Publication, existing: seq<Record>, values: map<Key, Value>, owner: Option<VerifyingKey>)
    requires RoundTrips(w) && PreparePublication(w, p, existing).Ok? && existing != [] && Decreasing(existing)
    requires !Less(existing[0].body.version, p.version) || Predecessor(p, existing) != Ok(Some(0))
    requires var key := LatestKey(w, p.domain, p.package);
             && key in values && values[key].Latest?
             && values[key].pointer.body.recordHash == RecordKey(w, existing[0])
             && values[key].pointer.body.version == existing[0].body.version
    requires values[LatestKey(w, p.domain, p.package)].pointer != PreparePublication(w, p, existing).value.pointer
    ensures var c := Check(w, PointerRequest(w, PreparePublication(w, p, existing).value), owner);
            c.Some? ==> !Admits(w, values, c.value) && CommitTo(w, values, c.value) == values
  {
    var r := PreparePublication(w, p, existing).value;
    var c := Check(w, PointerRequest(w, r), owner);
    if c.Some? {
      ValidateSound(w, owner.value, r.pointer, r.proof, c.value.chain);
      HeadHolderDecides(w, p, existing, values[LatestKey(w, p.domain, p.package)].pointer, c.value.chain);
    }
  }

  /** The same publication, unforced, on the history without its newest record. */
  function OnOlder(p: Publication): Publication {
    p.(previous := None, force := false)
  }

  /** Forking off below the head prepares what publishing on the older history would. */
  lemma ForkIsOlderPublication(w: World, p: Publication, existing: seq<Record>)
    requires |existing| >= 2 && Decreasing(existing) && p.force && p.previous == Some(existing[1].body.version)
    requires forall r :: r in existing ==> r.body.domain == p.domain && r.body.package == p.package
    requires Less(existing[0].body.version, p.version)
    ensures PreparePublication(w, p, existing).Ok? && Predecessor(p, existing) == Ok(Some(1))
    ensures PreparePublication(w, OnOlder(p), existing[1..]) == PreparePublication(w, p, existing)
  {
    assert existing[0].body.version != existing[1].body.version;
    assert FindVersion(existing, existing[1].body.version) == 1 by { assert existing[1..][0] == existing[1]; }
    assert Less(existing[1].body.version, existing[0].body.version);
    assert Predecessor(OnOlder(p), existing[1..]) == Ok(Some(0));
    assert existing[1..][0..] == existing[1..];
  }

  /**
   * A higher version is not enough: forced onto the record before the head, it validates, and the
   * head holder still declines it.
   */
  lemma HigherForkIsRefused(w: World, p: Publication, existing: seq<Record>, values: map<Key, Value>)
    requires RoundTrips(w) && SignsCorrectly(w) && ':' !in p.domain && p.force
    requires 2 <= |existing| <= MAX_CHAIN_LENGTH && HistorySoFar(w, w.publicKey(p.signer), p, existing)
    requires p.previous == Some(existing[1].body.version) && Less(existing[0].body.version, p.version)
    requires PreparePublication(w, p, existing).Ok? ==>
               && CollisionFree(w, Elements(PreparePublication(w, p, existing).value.proof))
               && RecordKey(w, PreparePublication(w, p, existing).value.record) != END_OF_CHAIN
    requires var key := LatestKey(w, p.domain, p.package);
             && key in values && values[key].Latest?
             && values[key].pointer.body.recordHash == RecordKey(w, existing[0])
             && values[key].pointer.body.version == existing[0].body.version
    ensures PreparePublication(w, p, existing).Ok?
    ensures var r := PreparePublication(w, p, existing).value;
            var c := Check(w, PointerRequest(w, r), Some(w.publicKey(p.signer)));
            && Validate(w, w.publicKey(p.signer), r.pointer, r.proof) == Ok(r.proof)
            && c.Some? && !Admits(w, values, c.value) && CommitTo(w, values, c.value) == values
  {
    var owner := w.publicKey(p.signer);
    ForkIsOlderPublication(w, p, existing);
    HistoryTail(w, owner, p.domain, p.package, RecordKey(w, existing[0]), existing);
    OlderHistory(w, owner, p, existing);
    PreparedValidates(w, OnOlder(p), existing[1..]);
    var r := PreparePublication(w, p, existing).value;
    assert r.pointer.body.version == p.version;
    ForcedIsRefused(w, p, existing, values, Some(owner));
  }

  lemma OlderHistory(w: World, owner: VerifyingKey, p: Publication, existing: seq<Record>)
    requires |existing| >= 2 && HistorySoFar(w, owner, p, existing)
    ensures HistorySoFar(w, owner, OnOlder(p), existing[1..])
  {
    HistoryTail(w, owner, p.domain, p.package, RecordKey(w, existing[0]), existing);
  }

  /* ---- replicas of one package agree ---- */

  /** The keys DNS answered with while serving these events. */
  ghost function Owners(events: seq<Event>): set<VerifyingKey> {
    set i | 0 <= i < |events| && events[i].Arrive? && events[i].owner.Some? :: events[i].owner.value
  }

  ghost predicate OwnersOk(n: Node, owners: set<VerifyingKey>) {
    && (forall c :: c in n.waiting && c.CheckedLatest? ==> c.owner in owners)
    && (forall key, a :: a in Log(n.accepted, key) ==> a.owner in owners)
  }

  lemma OwnersStep(w: World, n: Node, e: Event, owners: set<VerifyingKey>)
    requires OwnersOk(n, owners) && (e.Arrive? && e.owner.Some? ==> e.owner.value in owners)
    ensures OwnersOk(Step(w, n, e), owners)
  {
    if e.Commit? && e.index < |n.waiting| {
      var c := n.waiting[e.index];
      assert c in n.waiting;
      var next := Step(w, n, e);
      forall key, a | a in Log(next.accepted, key)
        ensures a.owner in owners
      {
        assert a in Log(n.accepted, key) || (c.CheckedLatest? && a.owner == c.owner);
      }
    }
  }

  lemma {:induction false} OwnersKept(w: World, events: seq<Event>, owners: set<VerifyingKey>)
    requires Owners(events) <= owners
    ensures OwnersOk(Run(w, events), owners)
  {
    if events != [] {
      var n := |events| - 1;
      forall o | o in Owners(events[..n]) ensures o in owners {
        var i :| 0 <= i < n && events[..n][i].Arrive? && events[..n][i].owner.Some? && events[..n][i].owner.value == o;
        assert events[i].Arrive? && events[i].owner.Some? && events[i].owner.value == o;
        assert o in Owners(events);
      }
      OwnersKept(w, events[..n], owners);
      if events[n].Arrive? && events[n].owner.Some? {
        assert events[n].owner.value in Owners(events);
      }
      OwnersStep(w, Run(w, events[..n]), events[n], owners);
    }
  }

  /** Every record of the package that an owner signed and a replica was sent lies on `master`. */
  ghost predicate OneChain(w: World, events: seq<Event>, domain: string, package: string, master: seq<Record>) {
    forall o, r :: o in Owners(events) && r in Supplied(events) && Belongs(w, o, domain, package, r) ==> r in master
  }

  /** Then every history a replica let in for the package is an older part of `master`. */
  lemma AcceptedOnMaster(w: World, events: seq<Event>, domain: string, package: string, head: Key, master: seq<Record>,
                         key: Key, a: Accepted)
    requires RoundTrips(w) && Links(w, head, master) && OneChain(w, events, domain, package, master)
    requires CollisionFree(w, Supplied(events) + Elements(master))
    requires a in Log(Run(w, events).accepted, key)
    requires a.pointer.body.domain == domain && a.pointer.body.package == package
    ensures EndsWith(master, a.chain) && Behind(w, a.owner, a.pointer, a.chain)
  {
    AppendOnlyReplica(w, events);
    OwnersKept(w, events, Owners(events));
    assert LogOk(w, Supplied(events), key, Log(Run(w, events).accepted, key));
    var r := a.chain[0];
    assert r in a.chain && r in Elements(a.chain);
    assert r in master;
    var i :| 0 <= i < |master| && master[i] == r;
    assert Elements(a.chain) <= Supplied(events);
    SharedRecordSuffix(w, head, master, i, a.chain);
  }

  lemma SuffixesCompare(m: seq<Record>, a: seq<Record>, b: seq<Record>)
    requires EndsWith(m, a) && EndsWith(m, b) && |a| <= |b|
    ensures EndsWith(b, a)
  {
    assert b[|b| - |a|..] == m[|m| - |b|..][|b| - |a|..] == m[|m| - |a|..];
  }

  /** Two replicas, each through any run of its own, let in histories one of which ends with the other. */
  lemma ReplicasAgree(w: World, e: seq<Event>, f: seq<Event>, domain: string, package: string, head: Key, master: seq<Record>,
                      k: Key, a: Accepted, l: Key, b: Accepted)
    requires RoundTrips(w) && Links(w, head, master)
    requires OneChain(w, e, domain, package, master) && OneChain(w, f, domain, package, master)
    requires CollisionFree(w, Supplied(e) + Supplied(f) + Elements(master))
    requires a in Log(Run(w, e).accepted, k) && b in Log(Run(w, f).accepted, l)
    requires a.pointer.body.domain == domain && a.pointer.body.package == package
    requires b.pointer.body.domain == domain && b.pointer.body.package == package
    ensures EndsWith(a.chain, b.chain) || EndsWith(b.chain, a.chain)
    ensures !Less(a.pointer.body.version, b.pointer.body.version) ==> EndsWith(a.chain, b.chain)
  {
    AcceptedOnMaster(w, e, domain, package, head, master, k, a);
    AcceptedOnMaster(w, f, domain, package, head, master, l, b);
    if |a.chain| <= |b.chain| { SuffixesCompare(master, a.chain, b.chain); } else { SuffixesCompare(master, b.chain, a.chain); }
    if EndsWith(b.chain, a.chain) && |a.chain| < |b.chain| { LongerIsNewer(a.chain, b.chain); }
  }

  lemma LongerIsNewer(a: seq<Record>, b: seq<Record>)
    requires EndsWith(b, a) && 0 < |a| < |b| && Decreasing(b)
    ensures Less(a[0].body.version, b[0].body.version)
  {
    var k := |b| - |a|;
    assert a[0] == b[k..][0] == b[k];
  }
}
