/** Reading from untrusted peers: value lookups, the newest pointer, and installing a version. */
module Install {
  import opened Wrappers
  import opened Keys
  import opened Package
  import opened VersionChain
  import opened Store
  import opened Registry
  import opened ValueLookup

  predicate IsBlobFor(w: World, key: Key, v: Value) {
    v.Blob? && w.hash(v.bytes) == key
  }

  /** `lookup_value`: the first blob that hashes to the key. */
  method LookupValue(w: World, replies: seq<Reply>, key: Key) returns (bytes: Option<Bytes>)
    ensures bytes.Some? ==> w.hash(bytes.value) == key && Found(Blob(bytes.value)) in replies
    ensures bytes.None? <==> forall b :: Found(Blob(b)) in replies ==> w.hash(b) != key
  {
    var accept := (v: Value) => IsBlobFor(w, key, v);
    var found := AcceptedValues(replies, accept, true);
    AcceptedValuesSpec(replies, accept, true);
    if found == [] { return None; }
    assert found[0] in found;
    return Some(found[0].bytes);
  }

  predicate IsPointerFor(w: World, owner: VerifyingKey, domain: string, package: string, v: Value) {
    v.Latest? && v.pointer.body.domain == domain && v.pointer.body.package == package && LatestIsValid(w, v.pointer, owner)
  }

  /** `p` is a valid pointer among the replies, and none of them has a higher version. */
  ghost predicate Newest(w: World, owner: VerifyingKey, domain: string, package: string, replies: seq<Reply>, p: Pointer) {
    && Found(Latest(p)) in replies && IsPointerFor(w, owner, domain, package, Latest(p))
    && forall v :: Found(v) in replies && IsPointerFor(w, owner, domain, package, v) ==>
         !Less(p.body.version, v.pointer.body.version)
  }

  /** `p` is answered, and every valid pointer answered after it has a lower version. */
  ghost predicate LastOfItsVersion(w: World, owner: VerifyingKey, domain: string, package: string, replies: seq<Reply>, p: Pointer) {
    exists i :: 0 <= i < |replies| && replies[i] == Found(Latest(p)) && NoneAfter(w, owner, domain, package, replies, i, p.body.version)
  }

  ghost predicate NoneAfter(w: World, owner: VerifyingKey, domain: string, package: string, replies: seq<Reply>, i: nat, v: Version) {
    forall j :: i < j < |replies| && replies[j].Found? && IsPointerFor(w, owner, domain, package, replies[j].value) ==>
      Less(replies[j].value.pointer.body.version, v)
  }

  /** Accepted values come in the order of the replies. */
  lemma {:induction false} AcceptedOrder(replies: seq<Reply>, accept: Value -> bool, b: nat) returns (i: nat)
    requires b < |AcceptedValues(replies, accept, false)|
    ensures i < |replies| && replies[i] == Found(AcceptedValues(replies, accept, false)[b])
    ensures forall j :: i < j < |replies| && replies[j].Found? && accept(replies[j].value) ==>
              replies[j].value in AcceptedValues(replies, accept, false)[b + 1..]
  {
    var all, rest := AcceptedValues(replies, accept, false), AcceptedValues(replies[1..], accept, false);
    var first := replies[0].Found? && accept(replies[0].value);
    if first && b == 0 {
      i := 0;
      AcceptedValuesSpec(replies[1..], accept, false);
      assert all[1..] == rest;
      forall j | 0 < j < |replies| && replies[j].Found? && accept(replies[j].value) ensures replies[j].value in all[1..] {
        assert replies[j] == replies[1..][j - 1] && replies[j] in replies[1..];
      }
    } else {
      var c := if first then b - 1 else b;
      var k := AcceptedOrder(replies[1..], accept, c);
      i := k + 1;
      assert rest[c + 1..] == all[b + 1..];
      forall j | i < j < |replies| && replies[j].Found? && accept(replies[j].value) ensures replies[j].value in all[b + 1..] {
        assert replies[j] == replies[1..][j - 1];
      }
    }
  }

  /** `max_by_key(version)`: the last pointer of the highest version. */
  method MaxByVersion(found: seq<Value>) returns (best: nat)
    requires found != [] && forall v :: v in found ==> v.Latest?
    ensures best < |found|
    ensures forall j :: 0 <= j < |found| ==> found[j].Latest? && Rank(found[j].pointer.body.version) <= Rank(found[best].pointer.body.version)
    ensures forall j :: best < j < |found| ==> Rank(found[j].pointer.body.version) < Rank(found[best].pointer.body.version)
  {
    assert forall j :: 0 <= j < |found| ==> found[j] in found && found[j].Latest?;
    best := 0;
    for i := 1 to |found|
      invariant best < i
      invariant forall j :: 0 <= j < i ==> Rank(found[j].pointer.body.version) <= Rank(found[best].pointer.body.version)
      invariant forall j :: best < j < i ==> Rank(found[j].pointer.body.version) < Rank(found[best].pointer.body.version)
    {
      LessIsRank(found[i].pointer.body.version, found[best].pointer.body.version);
      if !Less(found[i].pointer.body.version, found[best].pointer.body.version) { best := i; }
    }
  }

  /** A pointer peers answered that the owner signed for this package. */
  ghost predicate Offered(w: World, owner: VerifyingKey, domain: string, package: string, replies: seq<Reply>, p: Pointer) {
    Found(Latest(p)) in replies && OwnerPointed(w, owner, domain, package, p)
  }

  lemma PointerForIff(w: World, owner: VerifyingKey, domain: string, package: string, p: Pointer)
    ensures IsPointerFor(w, owner, domain, package, Latest(p)) <==> OwnerPointed(w, owner, domain, package, p)
  {
    ValidIsPointed(w, owner, p);
  }

  /** `get_latest`: of all pointers answered that the owner signed, the last one of the highest version. */
  method GetLatest(w: World, owner: VerifyingKey, domain: string, package: string, replies: seq<Reply>)
    returns (latest: Option<Pointer>)
    ensures latest.None? <==> forall v :: Found(v) in replies ==> !IsPointerFor(w, owner, domain, package, v)
    ensures latest.Some? ==>
              Newest(w, owner, domain, package, replies, latest.value) && LastOfItsVersion(w, owner, domain, package, replies, latest.value)
    ensures latest.None? <==> forall p :: !Offered(w, owner, domain, package, replies, p)
    ensures latest.Some? ==>
              && Offered(w, owner, domain, package, replies, latest.value)
              && forall p :: Offered(w, owner, domain, package, replies, p) ==> Rank(p.body.version) <= Rank(latest.value.body.version)
    ensures (forall h, sig :: !w.sigOk(owner, h, sig)) ==> latest.None?
  {
    var accept := (v: Value) => IsPointerFor(w, owner, domain, package, v);
    var found := AcceptedValues(replies, accept, false);
    AcceptedValuesSpec(replies, accept, false);
    NoneOffered(w, owner, domain, package, replies);
    if found == [] {
      assert forall v :: Found(v) in replies ==> !accept(v);
      return None;
    }
    var best := MaxByVersion(found);
    assert found[best] in found;
    latest := Some(found[best].pointer);
    BestIsNewest(w, owner, domain, package, replies, found, best);
    OfferedIff(w, owner, domain, package, replies, latest.value);
    forall p | Offered(w, owner, domain, package, replies, p) ensures Rank(p.body.version) <= Rank(latest.value.body.version) {
      OfferedIff(w, owner, domain, package, replies, p);
    }
  }

  lemma OfferedIff(w: World, owner: VerifyingKey, domain: string, package: string, replies: seq<Reply>, p: Pointer)
    ensures Offered(w, owner, domain, package, replies, p) <==>
            Found(Latest(p)) in replies && IsPointerFor(w, owner, domain, package, Latest(p))
  {
    PointerForIff(w, owner, domain, package, p);
  }

  lemma NoneOffered(w: World, owner: VerifyingKey, domain: string, package: string, replies: seq<Reply>)
    ensures (forall v :: Found(v) in replies ==> !IsPointerFor(w, owner, domain, package, v)) <==>
            forall p :: !Offered(w, owner, domain, package, replies, p)
  {
    forall p
      ensures Offered(w, owner, domain, package, replies, p) <==>
              Found(Latest(p)) in replies && IsPointerFor(w, owner, domain, package, Latest(p))
    {
      OfferedIff(w, owner, domain, package, replies, p);
    }
    forall v | Found(v) in replies && IsPointerFor(w, owner, domain, package, v)
      ensures Offered(w, owner, domain, package, replies, v.pointer)
    {
      assert v == Latest(v.pointer);
    }
  }

  /** The last of the highest version among the accepted values is so among the replies. */
  lemma BestIsNewest(w: World, owner: VerifyingKey, domain: string, package: string, replies: seq<Reply>, found: seq<Value>, best: nat)
    requires found == AcceptedValues(replies, (v: Value) => IsPointerFor(w, owner, domain, package, v), false)
    requires best < |found| && forall v :: v in found ==> v.Latest?
    requires forall j :: 0 <= j < |found| ==> found[j].Latest? && Rank(found[j].pointer.body.version) <= Rank(found[best].pointer.body.version)
    requires forall j :: best < j < |found| ==> Rank(found[j].pointer.body.version) < Rank(found[best].pointer.body.version)
    ensures var p := found[best].pointer;
            && Newest(w, owner, domain, package, replies, p) && LastOfItsVersion(w, owner, domain, package, replies, p)
            && forall q :: Found(Latest(q)) in replies && IsPointerFor(w, owner, domain, package, Latest(q)) ==>
                 Rank(q.body.version) <= Rank(p.body.version)
  {
    var accept := (v: Value) => IsPointerFor(w, owner, domain, package, v);
    var p := found[best].pointer;
    AcceptedValuesSpec(replies, accept, false);
    assert found[best] in found;
    forall v | Found(v) in replies && IsPointerFor(w, owner, domain, package, v)
      ensures !Less(p.body.version, v.pointer.body.version) && Rank(v.pointer.body.version) <= Rank(p.body.version)
    {
      assert accept(v);
      var j :| 0 <= j < |found| && found[j] == v;
      LessIsRank(p.body.version, v.pointer.body.version);
    }
    var i := AcceptedOrder(replies, accept, best);
    forall j | i < j < |replies| && replies[j].Found? && IsPointerFor(w, owner, domain, package, replies[j].value)
      ensures Less(replies[j].value.pointer.body.version, p.body.version)
    {
      assert accept(replies[j].value);
      var m :| 0 <= m < |found[best + 1..]| && found[best + 1..][m] == replies[j].value;
      assert found[best + 1 + m] == replies[j].value;
      LessIsRank(replies[j].value.pointer.body.version, p.body.version);
    }
    assert NoneAfter(w, owner, domain, package, replies, i, p.body.version);
  }

  datatype InstallError = InvalidHistory(error: ChainError) | VersionNotFound(version: Version) | BlobUnavailable(key: Key)

  datatype Installed = Installed(version: Version, blobKey: Key, blob: Bytes)

  /** What peers answer during one install: for the pointer, for each record key, and for the blob. */
  datatype Peers = Peers(latest: seq<Reply>, records: map<Key, seq<Reply>>, blob: seq<Reply>)

  /** For each key, `answers` holds a blob some peer answered that hashes to it, if there is one. */
  ghost predicate Fetched(w: World, replies: map<Key, seq<Reply>>, answers: map<Key, Bytes>) {
    && (forall k :: k in answers ==> k in replies && w.hash(answers[k]) == k && Found(Blob(answers[k])) in replies[k])
    && (forall k :: k in replies && k !in answers ==> forall b :: Found(Blob(b)) in replies[k] ==> w.hash(b) != k)
  }

  /** The record bytes a reader gets: for each key, what `lookup_value` accepts. */
  method FetchAll(w: World, replies: map<Key, seq<Reply>>) returns (answers: map<Key, Bytes>)
    ensures Fetched(w, replies, answers)
  {
    answers := map[];
    var todo := replies.Keys;
    while todo != {}
      invariant todo <= replies.Keys && answers.Keys <= replies.Keys - todo
      invariant forall k :: k in answers ==> w.hash(answers[k]) == k && Found(Blob(answers[k])) in replies[k]
      invariant forall k :: k in replies && k !in todo && k !in answers ==> forall b :: Found(Blob(b)) in replies[k] ==> w.hash(b) != k
      decreases todo
    {
      var k :| k in todo;
      todo := todo - {k};
      var bytes := LookupValue(w, replies[k], k);
      if bytes.Some? { answers := answers[k := bytes.value]; }
    }
  }

  /** What a successful install rests on. */
  ghost predicate Justifies(w: World, owner: VerifyingKey, domain: string, package: string, latest: Pointer, chain: seq<Record>,
                            record: Record, result: Installed) {
    && Behind(w, owner, latest, chain) && latest.body.domain == domain && latest.body.package == package
    && record in chain
    && record.body.version == result.version && record.body.blobHash == result.blobKey
    && w.hash(result.blob) == result.blobKey
    && forall r :: r in chain && r.body.version == result.version ==> r == record
  }

  lemma OnlyOneOfVersion(chain: seq<Record>, i: nat)
    requires Decreasing(chain) && i < |chain|
    ensures forall r :: r in chain && r.body.version == chain[i].body.version ==> r == chain[i]
  {
    forall r | r in chain && r.body.version == chain[i].body.version
      ensures r == chain[i]
    {
      var j :| 0 <= j < |chain| && chain[j] == r;
    }
  }

  lemma WalkErrorKinds(w: World, owner: VerifyingKey, latest: Pointer, domain: string, package: string, answers: map<Key, Bytes>)
    requires WalkFrom(w, owner, latest, domain, package, answers).Err?
    ensures WalkFrom(w, owner, latest, domain, package, answers).error !in {NoDnsKey, NoLatestPointer, EmptyChain}
  {
    if PointerFits(w, owner, latest, domain, package) {
      var path, end := WalkErr(w, owner, latest, domain, package, answers, latest.body.recordHash, None, {}, MAX_CHAIN_LENGTH);
    }
  }

  /** The newest pointer and some admissible record answers give this history or error. */
  ghost predicate Loads(w: World, owner: VerifyingKey, domain: string, package: string, peers: Peers, latest: Pointer,
                        answers: map<Key, Bytes>, history: Result<seq<Record>, ChainError>) {
    && Newest(w, owner, domain, package, peers.latest, latest) && Fetched(w, peers.records, answers)
    && history == WalkFrom(w, owner, latest, domain, package, answers)
  }

  /** `load_chain`: the newest valid pointer answered, and the whole history behind it. */
  method LoadChain(w: World, owner: Option<VerifyingKey>, domain: string, package: string, peers: Peers)
    returns (res: Result<seq<Record>, ChainError>, latest: Option<Pointer>)
    ensures res.Ok? ==> owner.Some? && latest.Some? && Behind(w, owner.value, latest.value, res.value)
    ensures latest.Some? ==>
              owner.Some? && exists answers :: Loads(w, owner.value, domain, package, peers, latest.value, answers, res)
    ensures latest.None? ==> res == Err(NoDnsKey) || res == Err(NoLatestPointer)
    ensures res == Err(NoDnsKey) <==> owner.None?
    ensures res == Err(NoLatestPointer) <==>
            owner.Some? && forall v :: Found(v) in peers.latest ==> !IsPointerFor(w, owner.value, domain, package, v)
  {
    latest := None;
    if owner.None? { return Err(NoDnsKey), latest; }
    latest := GetLatest(w, owner.value, domain, package, peers.latest);
    if latest.None? { return Err(NoLatestPointer), latest; }
    var answers := FetchAll(w, peers.records);
    res := WalkChain(w, owner.value, latest.value, domain, package, answers);
    assert Loads(w, owner.value, domain, package, peers, latest.value, answers, res);
    if res.Ok? {
      WalkFromIff(w, owner.value, latest.value, domain, package, answers, res.value);
    } else {
      WalkErrorKinds(w, owner.value, latest.value, domain, package, answers);
    }
  }

  /** Picks the record of the requested version, or the newest. */
  method ChooseRecord(chain: seq<Record>, requested: Option<Version>) returns (record: Option<Record>)
    requires chain != [] && Decreasing(chain)
    ensures record.Some? ==> record.value in chain
    ensures record.Some? ==> forall r :: r in chain && r.body.version == record.value.body.version ==> r == record.value
    ensures requested.None? ==> record == Some(chain[0])
    ensures requested.Some? && record.Some? ==> record.value.body.version == requested.value
    ensures record.None? <==> requested.Some? && forall r :: r in chain ==> r.body.version != requested.value
  {
    var i := 0;
    if requested.Some? { i := FindVersion(chain, requested.value); }
    if i == |chain| { return None; }
    assert chain[i] in chain;
    OnlyOneOfVersion(chain, i);
    return Some(chain[i]);
  }

  /** What an install error says about the answers it was given. */
  ghost predicate Blames(w: World, owner: Option<VerifyingKey>, domain: string, package: string, requested: Option<Version>,
                         peers: Peers, e: InstallError) {
    match e
    case InvalidHistory(c) =>
      || owner.None?
      || (c == NoLatestPointer && forall v :: Found(v) in peers.latest ==> !IsPointerFor(w, owner.value, domain, package, v))
      || exists latest, answers :: Loads(w, owner.value, domain, package, peers, latest, answers, Err(c))
    case VersionNotFound(v) =>
      && requested == Some(v) && owner.Some?
      && exists latest, answers, chain: seq<Record> :: Loads(w, owner.value, domain, package, peers, latest, answers, Ok(chain)) &&
           forall r :: r in chain ==> r.body.version != v
    case BlobUnavailable(key) =>
      && owner.Some?
      && (forall b :: Found(Blob(b)) in peers.blob ==> w.hash(b) != key)
      && exists latest, answers, chain: seq<Record>, r :: Loads(w, owner.value, domain, package, peers, latest, answers, Ok(chain)) &&
           r in chain && r.body.blobHash == key && (requested.None? ==> r == chain[0])
  }

  /** A success rests on a loaded history and the record in it that justifies the bytes. */
  ghost predicate Rests(w: World, owner: VerifyingKey, domain: string, package: string, requested: Option<Version>, peers: Peers,
                        latest: Pointer, answers: map<Key, Bytes>, chain: seq<Record>, record: Record, result: Installed) {
    && Loads(w, owner, domain, package, peers, latest, answers, Ok(chain))
    && Justifies(w, owner, domain, package, latest, chain, record, result)
    && Found(Blob(result.blob)) in peers.blob
    && (requested.None? ==> record == chain[0])
  }

  ghost predicate Outcome(w: World, owner: Option<VerifyingKey>, domain: string, package: string, requested: Option<Version>,
                          peers: Peers, res: Result<Installed, InstallError>) {
    match res
    case Ok(result) =>
      owner.Some? && exists latest, answers, chain, record ::
        Rests(w, owner.value, domain, package, requested, peers, latest, answers, chain, record, result)
    case Err(e) => Blames(w, owner, domain, package, requested, peers, e)
  }

  /** The owner signed a pointer and a record for exactly these bytes of this version. */
  ghost predicate Vouches(w: World, owner: VerifyingKey, domain: string, package: string, peers: Peers, p: Pointer, r: Record, result: Installed) {
    && Offered(w, owner, domain, package, peers.latest, p)
    && OwnerRecorded(w, owner, domain, package, r)
    && r.body.version == result.version && r.body.blobHash == result.blobKey && w.hash(result.blob) == r.body.blobHash
  }

  lemma RestsOnSignatures(w: World, owner: VerifyingKey, domain: string, package: string, requested: Option<Version>, peers: Peers,
                          latest: Pointer, answers: map<Key, Bytes>, chain: seq<Record>, record: Record, result: Installed)
    requires Rests(w, owner, domain, package, requested, peers, latest, answers, chain, record, result)
    ensures Vouches(w, owner, domain, package, peers, latest, record, result)
  {
    PointerForIff(w, owner, domain, package, latest);
    assert Belongs(w, owner, domain, package, record);
  }

  /** `install_package`, against arbitrary answers; `owner` is what DNS answers for the domain. */
  method InstallPackage(w: World, owner: Option<VerifyingKey>, domain: string, package: string,
                        requested: Option<Version>, peers: Peers)
    returns (res: Result<Installed, InstallError>)
    ensures Outcome(w, owner, domain, package, requested, peers, res)
    ensures res.Ok? && requested.Some? ==> res.value.version == requested.value
    ensures owner.None? <==> res == Err(InvalidHistory(NoDnsKey))
    ensures res.Ok? ==> owner.Some? && exists p, r :: Vouches(w, owner.value, domain, package, peers, p, r, res.value)
  {
    var history, latest := LoadChain(w, owner, domain, package, peers);
    if history.Err? { return Err(InvalidHistory(history.error)); }
    ghost var answers :| Loads(w, owner.value, domain, package, peers, latest.value, answers, history);
    var record := ChooseRecord(history.value, requested);
    if record.None? { return Err(VersionNotFound(requested.value)); }
    var key := record.value.body.blobHash;
    var blob := LookupValue(w, peers.blob, key);
    if blob.None? { return Err(BlobUnavailable(key)); }
    var installed := Installed(record.value.body.version, key, blob.value);
    assert Rests(w, owner.value, domain, package, requested, peers, latest.value, answers, history.value, record.value, installed);
    RestsOnSignatures(w, owner.value, domain, package, requested, peers, latest.value, answers, history.value, record.value, installed);
    return Ok(installed);
  }

  /* ---- what was published is what is installed ---- */

  /** Peers hold the publication: its pointer is the newest valid one, and its records and blob can be had. */
  ghost predicate Holding(w: World, owner: VerifyingKey, p: Publication, r: Prepared, peers: Peers) {
    && Found(Latest(r.pointer)) in peers.latest
    && (forall v :: Found(v) in peers.latest && IsPointerFor(w, owner, p.domain, p.package, v) ==>
          v.pointer == r.pointer || Less(v.pointer.body.version, p.version))
    && (forall x :: x in r.proof ==>
          RecordKey(w, x) in peers.records && Found(Blob(w.encodeRecord(x))) in peers.records[RecordKey(w, x)])
    && Found(Blob(p.blob)) in peers.blob
  }

  /** Among what peers answered, only the real bytes hash to the keys of this publication. */
  ghost predicate NoForgedBytes(w: World, p: Publication, r: Prepared, peers: Peers) {
    && (forall x, b ::
          (x in r.proof && RecordKey(w, x) in peers.records && Found(Blob(b)) in peers.records[RecordKey(w, x)] &&
           w.hash(b) == RecordKey(w, x)) ==> b == w.encodeRecord(x))
    && (forall b :: Found(Blob(b)) in peers.blob && w.hash(b) == w.hash(p.blob) ==> b == p.blob)
  }

  lemma PublishedLoads(w: World, p: Publication, r: Prepared, peers: Peers, latest: Pointer, answers: map<Key, Bytes>)
    requires RoundTrips(w) && Behind(w, w.publicKey(p.signer), r.pointer, r.proof)
    requires DistinctKeys(w, r.proof) && |r.proof| <= MAX_CHAIN_LENGTH
    requires r.pointer.body.domain == p.domain && r.pointer.body.package == p.package && r.pointer.body.version == p.version
    requires Holding(w, w.publicKey(p.signer), p, r, peers) && NoForgedBytes(w, p, r, peers)
    requires Newest(w, w.publicKey(p.signer), p.domain, p.package, peers.latest, latest) && Fetched(w, peers.records, answers)
    ensures WalkFrom(w, w.publicKey(p.signer), latest, p.domain, p.package, answers) == Ok(r.proof)
  {
    assert IsPointerFor(w, w.publicKey(p.signer), p.domain, p.package, Latest(r.pointer));
    assert latest == r.pointer;
    forall x | x in r.proof
      ensures Fetches(w, answers, x)
    {
      var k := RecordKey(w, x);
      assert k in peers.records && Found(Blob(w.encodeRecord(x))) in peers.records[k];
      assert k in answers;
    }
    WalkFromIff(w, w.publicKey(p.signer), latest, p.domain, p.package, answers, r.proof);
  }

  /** The history behind what was published is the only one an install can load. */
  ghost predicate OnlyLoads(w: World, owner: VerifyingKey, domain: string, package: string, peers: Peers, chain: seq<Record>) {
    && (exists v :: Found(v) in peers.latest && IsPointerFor(w, owner, domain, package, v))
    && forall latest, answers, h :: Loads(w, owner, domain, package, peers, latest, answers, h) ==> h == Ok(chain)
  }

  /** No install of the newest version can fail when that history loads and its blob can be had. */
  lemma CannotFail(w: World, owner: VerifyingKey, domain: string, package: string, peers: Peers, chain: seq<Record>,
                   blob: Bytes, e: InstallError)
    requires OnlyLoads(w, owner, domain, package, peers, chain) && chain != []
    requires chain[0].body.blobHash == w.hash(blob) && Found(Blob(blob)) in peers.blob
    ensures !Blames(w, Some(owner), domain, package, None, peers, e)
  {
  }

  /** And what it yields is the newest record's version and blob. */
  lemma MustYield(w: World, owner: VerifyingKey, domain: string, package: string, peers: Peers, chain: seq<Record>,
                  blob: Bytes, res: Result<Installed, InstallError>)
    requires OnlyLoads(w, owner, domain, package, peers, chain) && chain != []
    requires chain[0].body.blobHash == w.hash(blob) && Found(Blob(blob)) in peers.blob
    requires forall b :: Found(Blob(b)) in peers.blob && w.hash(b) == w.hash(blob) ==> b == blob
    requires Outcome(w, Some(owner), domain, package, None, peers, res)
    ensures res == Ok(Installed(chain[0].body.version, w.hash(blob), blob))
  {
    if res.Err? {
      CannotFail(w, owner, domain, package, peers, chain, blob, res.error);
    } else {
      var latest, answers, c, record :|
        Rests(w, owner, domain, package, None, peers, latest, answers, c, record, res.value);
    }
  }

  /** Installing the newest version after publishing it yields exactly the published bytes. */
  method PublishThenInstall(w: World, p: Publication, existing: seq<Record>, peers: Peers)
    returns (res: Result<Installed, InstallError>)
    requires RoundTrips(w) && SignsCorrectly(w) && ':' !in p.domain && !p.force
    requires HistorySoFar(w, w.publicKey(p.signer), p, existing) && |existing| < MAX_CHAIN_LENGTH
    requires PreparePublication(w, p, existing).Ok?
    requires CollisionFree(w, Elements(PreparePublication(w, p, existing).value.proof))
    requires RecordKey(w, PreparePublication(w, p, existing).value.record) != END_OF_CHAIN
    requires Holding(w, w.publicKey(p.signer), p, PreparePublication(w, p, existing).value, peers)
    requires NoForgedBytes(w, p, PreparePublication(w, p, existing).value, peers)
    ensures res == Ok(Installed(p.version, w.hash(p.blob), p.blob))
  {
    ghost var r := PreparePublication(w, p, existing).value;
    PublishedOnly(w, p, existing, peers);
    res := InstallPackage(w, Some(w.publicKey(p.signer)), p.domain, p.package, None, peers);
    MustYield(w, w.publicKey(p.signer), p.domain, p.package, peers, r.proof, p.blob, res);
  }

  lemma PublishedOnly(w: World, p: Publication, existing: seq<Record>, peers: Peers)
    requires RoundTrips(w) && SignsCorrectly(w) && ':' !in p.domain && !p.force
    requires HistorySoFar(w, w.publicKey(p.signer), p, existing) && |existing| < MAX_CHAIN_LENGTH
    requires PreparePublication(w, p, existing).Ok?
    requires CollisionFree(w, Elements(PreparePublication(w, p, existing).value.proof))
    requires RecordKey(w, PreparePublication(w, p, existing).value.record) != END_OF_CHAIN
    requires Holding(w, w.publicKey(p.signer), p, PreparePublication(w, p, existing).value, peers)
    requires NoForgedBytes(w, p, PreparePublication(w, p, existing).value, peers)
    ensures var r := PreparePublication(w, p, existing).value;
            && OnlyLoads(w, w.publicKey(p.signer), p.domain, p.package, peers, r.proof)
            && r.proof[0] == r.record && r.record.body.blobHash == w.hash(p.blob) && r.record.body.version == p.version
  {
    var owner := w.publicKey(p.signer);
    var r := PreparePublication(w, p, existing).value;
    PreparedBehind(w, p, existing);
    PreparedShape(w, p, existing);
    DecreasingDistinctKeys(w, r.proof);
    forall latest, answers, h | Loads(w, owner, p.domain, p.package, peers, latest, answers, h)
      ensures h == Ok(r.proof)
    {
      PublishedLoads(w, p, r, peers, latest, answers);
    }
    assert IsPointerFor(w, owner, p.domain, p.package, Latest(r.pointer));
  }

  /* ---- the newest pointer among agreeing replicas has the longest history ---- */

  /** A replica's answer for the package: its run, the entry's key, and what it let in there. */
  datatype Answer = Answer(events: seq<Event>, key: Key, accepted: Accepted)

  ghost predicate FromReplica(w: World, domain: string, package: string, master: seq<Record>, x: Answer) {
    && OneChain(w, x.events, domain, package, master)
    && x.accepted in Log(Run(w, x.events).accepted, x.key)
    && x.accepted.pointer.body.domain == domain && x.accepted.pointer.body.package == package
  }

  /** Whichever answer has the highest version, its history ends with every other answer's history. */
  lemma NewestIsLongest(w: World, domain: string, package: string, head: Key, master: seq<Record>, best: Answer, other: Answer)
    requires RoundTrips(w) && Links(w, head, master)
    requires FromReplica(w, domain, package, master, best) && FromReplica(w, domain, package, master, other)
    requires CollisionFree(w, Supplied(best.events) + Supplied(other.events) + Elements(master))
    requires !Less(best.accepted.pointer.body.version, other.accepted.pointer.body.version)
    ensures EndsWith(best.accepted.chain, other.accepted.chain)
  {
    ReplicasAgree(w, best.events, other.events, domain, package, head, master, best.key, best.accepted, other.key, other.accepted);
  }

  /** `answers` are what lies behind the valid pointers among the replies; the other replies may be anything. */
  ghost predicate AllFromReplicas(w: World, owner: VerifyingKey, domain: string, package: string, replies: seq<Reply>,
                                  answers: seq<Answer>, master: seq<Record>, records: set<Record>) {
    && (forall a :: a in answers ==>
          && Found(Latest(a.accepted.pointer)) in replies && IsPointerFor(w, owner, domain, package, Latest(a.accepted.pointer))
          && FromReplica(w, domain, package, master, a) && Supplied(a.events) <= records)
    && (forall v :: Found(v) in replies && IsPointerFor(w, owner, domain, package, v) ==>
          exists a :: a in answers && v == Latest(a.accepted.pointer))
  }

  /** The history of `best` ends with the history of every answer. */
  ghost predicate Longest(answers: seq<Answer>, best: Answer) {
    best in answers && forall a :: a in answers ==> EndsWith(best.accepted.chain, a.accepted.chain)
  }

  /** When replicas of one history answer, `get_latest` returns the pointer with the longest of their histories. */
  method GetLongest(w: World, owner: VerifyingKey, domain: string, package: string, replies: seq<Reply>,
                    ghost answers: seq<Answer>, ghost head: Key, ghost master: seq<Record>, ghost records: set<Record>)
    returns (latest: Option<Pointer>)
    requires RoundTrips(w) && Links(w, head, master) && CollisionFree(w, records + Elements(master))
    requires AllFromReplicas(w, owner, domain, package, replies, answers, master, records)
    ensures latest.None? <==> answers == []
    ensures latest.Some? ==> exists best :: Longest(answers, best) && best.accepted.pointer == latest.value
  {
    latest := GetLatest(w, owner, domain, package, replies);
    if answers != [] { assert answers[0] in answers; }
    if latest.Some? {
      ghost var best :| best in answers && Latest(latest.value) == Latest(best.accepted.pointer);
      HighestIsLongest(w, owner, domain, package, replies, head, master, records, answers, best);
    }
  }

  lemma HighestIsLongest(w: World, owner: VerifyingKey, domain: string, package: string, replies: seq<Reply>, head: Key,
                         master: seq<Record>, records: set<Record>, answers: seq<Answer>, best: Answer)
    requires RoundTrips(w) && Links(w, head, master) && CollisionFree(w, records + Elements(master)) && best in answers
    requires AllFromReplicas(w, owner, domain, package, replies, answers, master, records)
    requires Newest(w, owner, domain, package, replies, best.accepted.pointer)
    ensures Longest(answers, best)
  {
    forall a | a in answers ensures EndsWith(best.accepted.chain, a.accepted.chain) {
      assert !Less(best.accepted.pointer.body.version, Latest(a.accepted.pointer).pointer.body.version);
      NewestIsLongest(w, domain, package, head, master, best, a);
    }
  }
}
