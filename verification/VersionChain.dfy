/** Hash-linked version histories: following, validating and comparing them. */
module VersionChain {
  import opened Wrappers
  import opened Keys
  import opened Package

  const END_OF_CHAIN: Key := [0, 0, 0, 0, 0, 0, 0, 0, 0, 0, 0, 0, 0, 0, 0, 0,
                              0, 0, 0, 0, 0, 0, 0, 0, 0, 0, 0, 0, 0, 0, 0, 0]
  const MAX_CHAIN_LENGTH: nat := 10_000

  datatype ChainError =
    | NoDnsKey | NoLatestPointer | InvalidLatestPointer
    | MissingRecord(key: Key) | HashMismatch(key: Key) | InvalidEncoding(key: Key) | InvalidRecord(key: Key)
    | HeadVersionMismatch | NonDecreasingVersion | Cycle(key: Key) | TooManyVersions
    | EmptyChain | DifferentPackage | UnexpectedRecords

  /* ---- what a history is ---- */

  /** Each record names the next one by hash, from `head` down to the first version. */
  ghost predicate Links(w: World, head: Key, chain: seq<Record>)
    decreases |chain|
  {
    && chain != [] && head != END_OF_CHAIN && RecordKey(w, chain[0]) == head
    && if |chain| == 1 then chain[0].body.prev == END_OF_CHAIN
       else Links(w, chain[0].body.prev, chain[1..])
  }

  /** Versions strictly decrease from newest to oldest. */
  ghost predicate Decreasing(chain: seq<Record>) {
    forall i, j :: 0 <= i < j < |chain| ==> Less(chain[j].body.version, chain[i].body.version)
  }

  /** `r` is a version record of this package, signed by `owner`. */
  predicate Belongs(w: World, owner: VerifyingKey, domain: string, package: string, r: Record) {
    && r.body.tag == VERSION_RECORD_TAG
    && r.body.domain == domain
    && r.body.package == package
    && RecordVerifies(w, r, owner)
  }

  /** `chain` is a complete history of the package, newest first, from the record `head` names. */
  ghost predicate History(w: World, owner: VerifyingKey, domain: string, package: string, head: Key, chain: seq<Record>) {
    && Links(w, head, chain)
    && Decreasing(chain)
    && forall r :: r in chain ==> Belongs(w, owner, domain, package, r)
  }

  /** `chain` is the history behind the pointer `latest`. */
  ghost predicate Behind(w: World, owner: VerifyingKey, latest: Pointer, chain: seq<Record>) {
    && LatestIsValid(w, latest, owner)
    && History(w, owner, latest.body.domain, latest.body.package, latest.body.recordHash, chain)
    && chain[0].body.version == latest.body.version
  }

  ghost predicate DistinctKeys(w: World, s: seq<Record>) {
    forall i, j :: 0 <= i < j < |s| ==> RecordKey(w, s[i]) != RecordKey(w, s[j])
  }

  /** No two of these records share a hash. */
  ghost predicate CollisionFree(w: World, rs: set<Record>) {
    forall a, b :: a in rs && b in rs && RecordKey(w, a) == RecordKey(w, b) ==> a == b
  }

  ghost function Elements(s: seq<Record>): set<Record> {
    set r | r in s
  }

  /** `t` is the older part of `s`. */
  predicate EndsWith(s: seq<Record>, t: seq<Record>) {
    |t| <= |s| && s[|s| - |t|..] == t
  }

  /* ---- following a history ---- */

  /** What fetching `key` yields. */
  function Fetch(answers: map<Key, Bytes>, key: Key): Option<Bytes> {
    if key in answers then Some(answers[key]) else None
  }

  /** The checks on one record; `newer` is the version of the record before it, if any. */
  function CheckRecord(w: World, owner: VerifyingKey, latest: Pointer, domain: string, package: string,
                       bytes: Option<Bytes>, current: Key, newer: Option<Version>): Result<Record, ChainError>
  {
    if bytes.None? then Err(MissingRecord(current))
    else if w.hash(bytes.value) != current then Err(HashMismatch(current))
    else
      var decoded := w.decodeRecord(bytes.value);
      if decoded.None? then Err(InvalidEncoding(current))
      else
        var r := decoded.value;
        if RecordKey(w, r) != current || !Belongs(w, owner, domain, package, r) then Err(InvalidRecord(current))
        else if newer.None? && r.body.version != latest.body.version then Err(HeadVersionMismatch)
        else if newer.Some? && !Less(r.body.version, newer.value) then Err(NonDecreasingVersion)
        else Ok(r)
  }

  /** The walk from `current`, having visited `seen` and with room for `left` more records. */
  ghost function Walk(w: World, owner: VerifyingKey, latest: Pointer, domain: string, package: string,
                answers: map<Key, Bytes>, current: Key, newer: Option<Version>, seen: set<Key>, left: nat)
    : Result<seq<Record>, ChainError>
    decreases left
  {
    if left == 0 then Err(TooManyVersions)
    else if current in seen then Err(Cycle(current))
    else
      var checked := CheckRecord(w, owner, latest, domain, package, Fetch(answers, current), current, newer);
      if checked.Err? then Err(checked.error)
      else
        var r := checked.value;
        if r.body.prev == END_OF_CHAIN then Ok([r])
        else
          var rest := Walk(w, owner, latest, domain, package, answers, r.body.prev, Some(r.body.version), seen + {current}, left - 1);
          if rest.Err? then rest else Ok([r] + rest.value)
  }

  predicate PointerFits(w: World, owner: VerifyingKey, latest: Pointer, domain: string, package: string) {
    && latest.body.domain == domain && latest.body.package == package
    && LatestIsValid(w, latest, owner) && latest.body.recordHash != END_OF_CHAIN
  }

  ghost function WalkFrom(w: World, owner: VerifyingKey, latest: Pointer, domain: string, package: string,
                    answers: map<Key, Bytes>): Result<seq<Record>, ChainError>
  {
    if !PointerFits(w, owner, latest, domain, package) then Err(InvalidLatestPointer)
    else Walk(w, owner, latest, domain, package, answers, latest.body.recordHash, None, {}, MAX_CHAIN_LENGTH)
  }

  /**
   * `walk_chain`. No key is fetched twice and finitely many are, so one finite map stands for
   * whatever the network answers during one walk.
   */
  method WalkChain(w: World, owner: VerifyingKey, latest: Pointer, domain: string, package: string,
                   answers: map<Key, Bytes>) returns (res: Result<seq<Record>, ChainError>)
    ensures res == WalkFrom(w, owner, latest, domain, package, answers)
  {
    if !PointerFits(w, owner, latest, domain, package) {
      return Err(InvalidLatestPointer);
    }
    var current := latest.body.recordHash;
    var seen: set<Key> := {};
    var newer: Option<Version> := None;
    var chain: seq<Record> := [];
    ghost var whole := WalkFrom(w, owner, latest, domain, package, answers);
    assert whole.Ok? ==> [] + whole.value == whole.value;
    while true
      invariant |chain| <= MAX_CHAIN_LENGTH
      invariant whole == Prepend(chain, Walk(w, owner, latest, domain, package, answers, current, newer, seen,
                                             MAX_CHAIN_LENGTH - |chain|))
      decreases MAX_CHAIN_LENGTH - |chain|
    {
      LoopStops(w, owner, latest, domain, package, answers, chain, current, newer, seen);
      if |chain| == MAX_CHAIN_LENGTH { return Err(TooManyVersions); }
      if current in seen { return Err(Cycle(current)); }
      ghost var before := seen;
      seen := seen + {current};
      var checked := CheckRecord(w, owner, latest, domain, package, Fetch(answers, current), current, newer);
      if checked.Err? { return Err(checked.error); }
      var r := checked.value;
      LoopStep(w, owner, latest, domain, package, answers, chain, current, newer, before, r);
      newer := Some(r.body.version);
      chain := chain + [r];
      if r.body.prev == END_OF_CHAIN { return Ok(chain); }
      current := r.body.prev;
    }
  }

  ghost function Prepend(chain: seq<Record>, rest: Result<seq<Record>, ChainError>): Result<seq<Record>, ChainError> {
    if rest.Err? then rest else Ok(chain + rest.value)
  }

  lemma PrependStep(chain: seq<Record>, r: Record, rest: Result<seq<Record>, ChainError>)
    ensures Prepend(chain, Prepend([r], rest)) == Prepend(chain + [r], rest)
  {
    if rest.Ok? { assert chain + ([r] + rest.value) == chain + [r] + rest.value; }
  }

  /** One record that passes its checks: the walk ends with it, or goes on at the one before it. */
  lemma WalkStep(w: World, owner: VerifyingKey, latest: Pointer, domain: string, package: string,
                 answers: map<Key, Bytes>, current: Key, newer: Option<Version>, seen: set<Key>, left: nat, r: Record)
    requires left > 0 && current !in seen
    requires CheckRecord(w, owner, latest, domain, package, Fetch(answers, current), current, newer) == Ok(r)
    ensures Walk(w, owner, latest, domain, package, answers, current, newer, seen, left) ==
            if r.body.prev == END_OF_CHAIN then Ok([r])
            else Prepend([r], Walk(w, owner, latest, domain, package, answers, r.body.prev, Some(r.body.version),
                                   seen + {current}, left - 1))
  {
  }

  lemma LoopStep(w: World, owner: VerifyingKey, latest: Pointer, domain: string, package: string, answers: map<Key, Bytes>,
                 chain: seq<Record>, current: Key, newer: Option<Version>, seen: set<Key>, r: Record)
    requires |chain| < MAX_CHAIN_LENGTH && current !in seen
    requires CheckRecord(w, owner, latest, domain, package, Fetch(answers, current), current, newer) == Ok(r)
    ensures Prepend(chain, Walk(w, owner, latest, domain, package, answers, current, newer, seen, MAX_CHAIN_LENGTH - |chain|)) ==
            if r.body.prev == END_OF_CHAIN then Ok(chain + [r])
            else Prepend(chain + [r], Walk(w, owner, latest, domain, package, answers, r.body.prev, Some(r.body.version),
                                           seen + {current}, MAX_CHAIN_LENGTH - |chain + [r]|))
  {
    var left := MAX_CHAIN_LENGTH - |chain|;
    WalkStep(w, owner, latest, domain, package, answers, current, newer, seen, left, r);
    PrependStep(chain, r, Walk(w, owner, latest, domain, package, answers, r.body.prev, Some(r.body.version), seen + {current}, left - 1));
    assert MAX_CHAIN_LENGTH - |chain + [r]| == left - 1;
  }

  /** The errors the loop returns are the walk's. */
  lemma LoopStops(w: World, owner: VerifyingKey, latest: Pointer, domain: string, package: string, answers: map<Key, Bytes>,
                  chain: seq<Record>, current: Key, newer: Option<Version>, seen: set<Key>)
    requires |chain| <= MAX_CHAIN_LENGTH
    ensures var checked := CheckRecord(w, owner, latest, domain, package, Fetch(answers, current), current, newer);
            var rest := Prepend(chain, Walk(w, owner, latest, domain, package, answers, current, newer, seen, MAX_CHAIN_LENGTH - |chain|));
            && (|chain| == MAX_CHAIN_LENGTH ==> rest == Err(TooManyVersions))
            && (|chain| < MAX_CHAIN_LENGTH && current in seen ==> rest == Err(Cycle(current)))
            && (|chain| < MAX_CHAIN_LENGTH && current !in seen && checked.Err? ==> rest == Err(checked.error))
  {
  }

  /* ---- what the walk accepts ---- */

  /** `r` is what fetching its own key yields. */
  ghost predicate Fetches(w: World, answers: map<Key, Bytes>, r: Record) {
    var bytes := Fetch(answers, RecordKey(w, r));
    bytes.Some? && w.hash(bytes.value) == RecordKey(w, r) && w.decodeRecord(bytes.value) == Some(r)
  }

  ghost predicate Continues(latest: Pointer, newer: Option<Version>, chain: seq<Record>)
    requires chain != []
  {
    if newer.Some? then Less(chain[0].body.version, newer.value) else chain[0].body.version == latest.body.version
  }

  ghost predicate Fresh(w: World, chain: seq<Record>, seen: set<Key>) {
    DistinctKeys(w, chain) && forall r :: r in chain ==> RecordKey(w, r) !in seen
  }

  lemma DecreasingCons(r: Record, rest: seq<Record>)
    requires rest != [] && Decreasing(rest) && Less(rest[0].body.version, r.body.version)
    ensures Decreasing([r] + rest)
  {
    forall j | 0 <= j < |rest| ensures Less(rest[j].body.version, r.body.version) {
      if j > 0 { assert Less(rest[j].body.version, rest[0].body.version); }
    }
  }

  /** `chain` is a history from `current` that fits after `newer` and `seen`, each record as fetched. */
  ghost predicate Fits(w: World, owner: VerifyingKey, latest: Pointer, domain: string, package: string, answers: map<Key, Bytes>,
                       current: Key, newer: Option<Version>, seen: set<Key>, left: nat, chain: seq<Record>) {
    && History(w, owner, domain, package, current, chain)
    && Continues(latest, newer, chain) && Fresh(w, chain, seen) && |chain| <= left
    && forall r :: r in chain ==> Fetches(w, answers, r)
  }

  /** What passing the checks on one record means. */
  lemma Checked(w: World, owner: VerifyingKey, latest: Pointer, domain: string, package: string, answers: map<Key, Bytes>,
                current: Key, newer: Option<Version>, r: Record)
    requires CheckRecord(w, owner, latest, domain, package, Fetch(answers, current), current, newer) == Ok(r)
    ensures RecordKey(w, r) == current && Belongs(w, owner, domain, package, r)
    ensures Fetches(w, answers, r) && Continues(latest, newer, [r])
  {
  }

  lemma FitsCons(w: World, owner: VerifyingKey, latest: Pointer, domain: string, package: string, answers: map<Key, Bytes>,
                 newer: Option<Version>, seen: set<Key>, left: nat, r: Record, rest: seq<Record>)
    requires left > 0 && RecordKey(w, r) !in seen && RecordKey(w, r) != END_OF_CHAIN
    requires Belongs(w, owner, domain, package, r) && Fetches(w, answers, r) && Continues(latest, newer, [r])
    requires Fits(w, owner, latest, domain, package, answers, r.body.prev, Some(r.body.version), seen + {RecordKey(w, r)}, left - 1, rest)
    ensures Fits(w, owner, latest, domain, package, answers, RecordKey(w, r), newer, seen, left, [r] + rest)
  {
    DecreasingCons(r, rest);
    assert ([r] + rest)[1..] == rest;
  }

  /** Everything the walk returns is a history from `current`, each record as fetched. */
  lemma {:induction false} WalkSound(w: World, owner: VerifyingKey, latest: Pointer, domain: string, package: string,
                                     answers: map<Key, Bytes>, current: Key, newer: Option<Version>, seen: set<Key>, left: nat)
    requires current != END_OF_CHAIN
    requires Walk(w, owner, latest, domain, package, answers, current, newer, seen, left).Ok?
    ensures Fits(w, owner, latest, domain, package, answers, current, newer, seen, left,
                 Walk(w, owner, latest, domain, package, answers, current, newer, seen, left).value)
    decreases left
  {
    var r := CheckRecord(w, owner, latest, domain, package, Fetch(answers, current), current, newer).value;
    Checked(w, owner, latest, domain, package, answers, current, newer, r);
    WalkStep(w, owner, latest, domain, package, answers, current, newer, seen, left, r);
    if r.body.prev != END_OF_CHAIN {
      WalkSound(w, owner, latest, domain, package, answers, r.body.prev, Some(r.body.version), seen + {current}, left - 1);
      var rest := Walk(w, owner, latest, domain, package, answers, r.body.prev, Some(r.body.version), seen + {current}, left - 1).value;
      FitsCons(w, owner, latest, domain, package, answers, newer, seen, left, r, rest);
    }
  }

  lemma HistoryTail(w: World, owner: VerifyingKey, domain: string, package: string, head: Key, chain: seq<Record>)
    requires History(w, owner, domain, package, head, chain) && |chain| > 1
    ensures History(w, owner, domain, package, chain[0].body.prev, chain[1..])
    ensures Less(chain[1].body.version, chain[0].body.version)
    ensures chain[0].body.prev != END_OF_CHAIN
  {
    assert forall x :: x in chain[1..] ==> x in chain;
  }

  lemma FreshTail(w: World, chain: seq<Record>, seen: set<Key>)
    requires Fresh(w, chain, seen) && |chain| > 1
    ensures Fresh(w, chain[1..], seen + {RecordKey(w, chain[0])})
  {
    var rest := chain[1..];
    forall i | 0 <= i < |rest|
      ensures RecordKey(w, rest[i]) != RecordKey(w, chain[0])
    {
      assert rest[i] == chain[i + 1];
    }
    assert forall x :: x in rest ==> x in chain;
  }

  lemma CheckAccepts(w: World, owner: VerifyingKey, latest: Pointer, domain: string, package: string,
                     answers: map<Key, Bytes>, newer: Option<Version>, chain: seq<Record>)
    requires chain != [] && Belongs(w, owner, domain, package, chain[0]) && Continues(latest, newer, chain)
    requires Fetches(w, answers, chain[0])
    ensures var key := RecordKey(w, chain[0]);
            CheckRecord(w, owner, latest, domain, package, Fetch(answers, key), key, newer) == Ok(chain[0])
  {
  }

  /** And every history that can be fetched, is new and fits, is what the walk returns. */
  lemma {:induction false} WalkComplete(w: World, owner: VerifyingKey, latest: Pointer, domain: string, package: string,
                                        answers: map<Key, Bytes>, current: Key, newer: Option<Version>, seen: set<Key>, left: nat,
                                        chain: seq<Record>)
    requires Fits(w, owner, latest, domain, package, answers, current, newer, seen, left, chain)
    ensures Walk(w, owner, latest, domain, package, answers, current, newer, seen, left) == Ok(chain)
    decreases left
  {
    var r := chain[0];
    assert r in chain;
    CheckAccepts(w, owner, latest, domain, package, answers, newer, chain);
    if |chain| == 1 {
      assert chain == [r];
    } else {
      HistoryTail(w, owner, domain, package, current, chain);
      FreshTail(w, chain, seen);
      WalkComplete(w, owner, latest, domain, package, answers, r.body.prev, Some(r.body.version), seen + {current}, left - 1, chain[1..]);
      assert chain == [r] + chain[1..];
    }
  }

  /** The walk from a pointer returns exactly the fetchable history behind it. */
  lemma WalkFromIff(w: World, owner: VerifyingKey, latest: Pointer, domain: string, package: string,
                    answers: map<Key, Bytes>, chain: seq<Record>)
    ensures WalkFrom(w, owner, latest, domain, package, answers) == Ok(chain) <==>
            && latest.body.domain == domain && latest.body.package == package
            && Behind(w, owner, latest, chain) && DistinctKeys(w, chain) && |chain| <= MAX_CHAIN_LENGTH
            && forall r :: r in chain ==> Fetches(w, answers, r)
  {
    var head := latest.body.recordHash;
    if WalkFrom(w, owner, latest, domain, package, answers) == Ok(chain) {
      WalkSound(w, owner, latest, domain, package, answers, head, None, {}, MAX_CHAIN_LENGTH);
    }
    if && latest.body.domain == domain && latest.body.package == package
       && Behind(w, owner, latest, chain) && DistinctKeys(w, chain) && |chain| <= MAX_CHAIN_LENGTH
       && forall r :: r in chain ==> Fetches(w, answers, r) {
      WalkComplete(w, owner, latest, domain, package, answers, head, None, {}, MAX_CHAIN_LENGTH, chain);
    }
  }

  /* ---- validating a supplied proof ---- */

  /** The temporary store: every record of the proof under its key. */
  ghost function IndexProof(w: World, proof: seq<Record>): map<Key, Bytes> {
    if proof == [] then map[]
    else IndexProof(w, proof[..|proof| - 1])[RecordKey(w, proof[|proof| - 1]) := w.encodeRecord(proof[|proof| - 1])]
  }

  ghost function Validate(w: World, owner: VerifyingKey, latest: Pointer, proof: seq<Record>): Result<seq<Record>, ChainError> {
    if |proof| > MAX_CHAIN_LENGTH then Err(TooManyVersions)
    else if !DistinctKeys(w, proof) then Err(UnexpectedRecords)
    else
      var walked := WalkFrom(w, owner, latest, latest.body.domain, latest.body.package, IndexProof(w, proof));
      if walked.Ok? && |walked.value| != |proof| then Err(UnexpectedRecords) else walked
  }

  lemma {:induction false} IndexProofKeys(w: World, proof: seq<Record>, k: Key)
    ensures k in IndexProof(w, proof) <==> exists r :: r in proof && RecordKey(w, r) == k
  {
    if proof != [] {
      var n := |proof| - 1;
      IndexProofKeys(w, proof[..n], k);
      assert proof == proof[..n] + [proof[n]];
    }
  }

  lemma {:induction false} IndexProofAt(w: World, proof: seq<Record>, r: Record)
    requires DistinctKeys(w, proof) && r in proof
    ensures RecordKey(w, r) in IndexProof(w, proof)
    ensures IndexProof(w, proof)[RecordKey(w, r)] == w.encodeRecord(r)
  {
    var n := |proof| - 1;
    assert proof == proof[..n] + [proof[n]];
    if r != proof[n] {
      var i :| 0 <= i < |proof| && proof[i] == r;
      assert proof[..n][i] == r;
      IndexProofAt(w, proof[..n], r);
    }
  }

  lemma DistinctKeysStep(w: World, proof: seq<Record>, i: nat)
    requires i < |proof| && DistinctKeys(w, proof[..i])
    ensures DistinctKeys(w, proof[..i + 1]) <==> RecordKey(w, proof[i]) !in IndexProof(w, proof[..i])
  {
    IndexProofKeys(w, proof[..i], RecordKey(w, proof[i]));
    assert forall j :: 0 <= j < i ==> proof[..i][j] == proof[..i + 1][j] && proof[..i][j] in proof[..i];
    assert proof[..i + 1][i] == proof[i];
  }

  lemma DistinctKeysPrefix(w: World, proof: seq<Record>, i: nat)
    requires i <= |proof| && DistinctKeys(w, proof)
    ensures DistinctKeys(w, proof[..i])
  {
  }

  /** Puts the records under their keys, or nothing if two have the same key. */
  method IndexRecords(w: World, proof: seq<Record>) returns (records: Option<map<Key, Bytes>>)
    ensures records == if DistinctKeys(w, proof) then Some(IndexProof(w, proof)) else None
  {
    var found: map<Key, Bytes> := map[];
    for i := 0 to |proof|
      invariant DistinctKeys(w, proof[..i])
      invariant found == IndexProof(w, proof[..i])
    {
      var key := RecordKey(w, proof[i]);
      DistinctKeysStep(w, proof, i);
      if key in found {
        if DistinctKeys(w, proof) { DistinctKeysPrefix(w, proof, i + 1); }
        return None;
      }
      assert proof[..i + 1][..i] == proof[..i];
      found := found[key := w.encodeRecord(proof[i])];
    }
    assert proof[..|proof|] == proof;
    return Some(found);
  }

  /** `validate_chain_proof`. */
  method ValidateChainProof(w: World, owner: VerifyingKey, latest: Pointer, proof: seq<Record>)
    returns (res: Result<seq<Record>, ChainError>)
    ensures res == Validate(w, owner, latest, proof)
  {
    if |proof| > MAX_CHAIN_LENGTH { return Err(TooManyVersions); }
    var records := IndexRecords(w, proof);
    if records.None? { return Err(UnexpectedRecords); }
    res := WalkChain(w, owner, latest, latest.body.domain, latest.body.package, records.value);
    if res.Ok? && |res.value| != |proof| { return Err(UnexpectedRecords); }
  }

  /* ---- validation is sound, complete and independent of order ---- */

  lemma RecordPermutation(w: World, s: seq<Record>, t: seq<Record>)
    requires multiset(s) == multiset(t)
    ensures |s| == |t|
    ensures forall r :: r in s <==> r in t
    ensures DistinctKeys(w, s) ==> DistinctKeys(w, t)
  {
    assert |multiset(s)| == |s| && |multiset(t)| == |t|;
    assert forall r :: r in s <==> r in multiset(s);
    assert forall r :: r in t <==> r in multiset(t);
    if DistinctKeys(w, s) {
      forall i, j | 0 <= i < j < |t|
        ensures RecordKey(w, t[i]) != RecordKey(w, t[j])
      {
        TwoPlaces(w, s, t, i, j);
      }
    }
  }

  lemma TwoPlaces(w: World, s: seq<Record>, t: seq<Record>, i: nat, j: nat)
    requires multiset(s) == multiset(t) && DistinctKeys(w, s) && i < j < |t|
    requires forall r :: r in s <==> r in t
    ensures RecordKey(w, t[i]) != RecordKey(w, t[j])
  {
    assert t[i] in t && t[j] in t;
    var a :| 0 <= a < |s| && s[a] == t[i];
    var b :| 0 <= b < |s| && s[b] == t[j];
    OnlyOnce(w, s, b);
    assert t == t[..j] + [t[j]] + t[j + 1..];
    assert t[..j][i] == t[i];
    assert t[i] in t[..j];
  }

  lemma OnlyOnce(w: World, s: seq<Record>, n: nat)
    requires DistinctKeys(w, s) && n < |s|
    ensures multiset(s)[s[n]] == 1
  {
    assert s == s[..n] + [s[n]] + s[n + 1..];
    assert s[n] !in s[..n] && s[n] !in s[n + 1..];
  }

  lemma TakeOut(w: World, t: seq<Record>, k: nat)
    requires DistinctKeys(w, t) && k < |t|
    ensures var u := t[..k] + t[k + 1..];
            && DistinctKeys(w, u) && multiset(t) == multiset(u) + multiset{t[k]}
            && forall r :: r in t && r != t[k] ==> r in u
  {
    var u := t[..k] + t[k + 1..];
    assert t == t[..k] + [t[k]] + t[k + 1..];
    assert forall j :: 0 <= j < |u| ==> u[j] == t[if j < k then j else j + 1];
  }

  /** A duplicate-free list inside another of the same length is a permutation of it. */
  lemma {:induction false} SubsetPermutation(w: World, s: seq<Record>, t: seq<Record>)
    requires DistinctKeys(w, s) && DistinctKeys(w, t) && |s| == |t|
    requires forall r :: r in s ==> r in t
    ensures multiset(s) == multiset(t)
  {
    if s != [] {
      var n := |s| - 1;
      assert s[n] in s;
      var k :| 0 <= k < |t| && t[k] == s[n];
      TakeOut(w, t, k);
      assert s == s[..n] + [s[n]];
      forall r | r in s[..n]
        ensures r in t && r != t[k]
      {
        var i :| 0 <= i < n && s[i] == r;
        assert RecordKey(w, s[i]) != RecordKey(w, s[n]);
      }
      SubsetPermutation(w, s[..n], t[..k] + t[k + 1..]);
    }
  }

  lemma FetchesFromProof(w: World, proof: seq<Record>, r: Record)
    requires RoundTrips(w) && DistinctKeys(w, proof)
    ensures Fetches(w, IndexProof(w, proof), r) <==> r in proof
  {
    if r in proof {
      IndexProofAt(w, proof, r);
    }
    if Fetches(w, IndexProof(w, proof), r) {
      IndexProofKeys(w, proof, RecordKey(w, r));
      var x :| x in proof && RecordKey(w, x) == RecordKey(w, r);
      IndexProofAt(w, proof, x);
    }
  }

  /**
   * A proof validates to `chain` exactly when it is a permutation of it and `chain` is the
   * history behind the pointer, at most 10,000 records with distinct keys.
   */
  lemma ValidateIff(w: World, owner: VerifyingKey, latest: Pointer, proof: seq<Record>, chain: seq<Record>)
    requires RoundTrips(w)
    ensures Validate(w, owner, latest, proof) == Ok(chain) <==>
            && Behind(w, owner, latest, chain) && DistinctKeys(w, chain) && |chain| <= MAX_CHAIN_LENGTH
            && multiset(proof) == multiset(chain)
  {
    if Validate(w, owner, latest, proof) == Ok(chain) {
      ValidateSound(w, owner, latest, proof, chain);
    }
    if Behind(w, owner, latest, chain) && DistinctKeys(w, chain) && |chain| <= MAX_CHAIN_LENGTH
       && multiset(proof) == multiset(chain) {
      ValidateComplete(w, owner, latest, proof, chain);
    }
  }

  lemma ValidateSound(w: World, owner: VerifyingKey, latest: Pointer, proof: seq<Record>, chain: seq<Record>)
    requires RoundTrips(w) && Validate(w, owner, latest, proof) == Ok(chain)
    ensures Behind(w, owner, latest, chain) && DistinctKeys(w, chain) && |chain| <= MAX_CHAIN_LENGTH
    ensures multiset(proof) == multiset(chain)
  {
    WalkFromIff(w, owner, latest, latest.body.domain, latest.body.package, IndexProof(w, proof), chain);
    forall r | r in chain
      ensures r in proof
    {
      FetchesFromProof(w, proof, r);
    }
    SubsetPermutation(w, chain, proof);
  }

  lemma ValidateComplete(w: World, owner: VerifyingKey, latest: Pointer, proof: seq<Record>, chain: seq<Record>)
    requires RoundTrips(w)
    requires Behind(w, owner, latest, chain) && DistinctKeys(w, chain) && |chain| <= MAX_CHAIN_LENGTH
    requires multiset(proof) == multiset(chain)
    ensures Validate(w, owner, latest, proof) == Ok(chain)
  {
    RecordPermutation(w, chain, proof);
    forall r | r in chain
      ensures Fetches(w, IndexProof(w, proof), r)
    {
      FetchesFromProof(w, proof, r);
    }
    WalkFromIff(w, owner, latest, latest.body.domain, latest.body.package, IndexProof(w, proof), chain);
  }

  lemma IndexOrder(w: World, p: seq<Record>, q: seq<Record>)
    requires multiset(p) == multiset(q) && DistinctKeys(w, p)
    ensures IndexProof(w, p) == IndexProof(w, q)
  {
    RecordPermutation(w, p, q);
    forall k
      ensures k in IndexProof(w, p) <==> k in IndexProof(w, q)
      ensures k in IndexProof(w, p) ==> IndexProof(w, p)[k] == IndexProof(w, q)[k]
    {
      IndexProofKeys(w, p, k);
      IndexProofKeys(w, q, k);
      if k in IndexProof(w, p) {
        var r :| r in p && RecordKey(w, r) == k;
        IndexProofAt(w, p, r);
        IndexProofAt(w, q, r);
      }
    }
  }

  /** The order in which a proof lists its records does not matter, not even for the error. */
  lemma ValidateOrder(w: World, owner: VerifyingKey, latest: Pointer, p: seq<Record>, q: seq<Record>)
    requires multiset(p) == multiset(q)
    ensures Validate(w, owner, latest, p) == Validate(w, owner, latest, q)
  {
    RecordPermutation(w, p, q);
    RecordPermutation(w, q, p);
    if DistinctKeys(w, p) { IndexOrder(w, p, q); }
  }

  /* ---- one history per head ---- */

  /** Without collisions there is only one chain from a key. */
  lemma {:induction false} LinksUnique(w: World, head: Key, c: seq<Record>, d: seq<Record>)
    requires Links(w, head, c) && Links(w, head, d) && CollisionFree(w, Elements(c) + Elements(d))
    ensures c == d
    decreases |c|
  {
    assert c[0] in Elements(c) && d[0] in Elements(d);
    assert c[0] == d[0];
    assert c == [c[0]] + c[1..] && d == [d[0]] + d[1..];
    if |c| > 1 && |d| > 1 {
      assert Elements(c[1..]) <= Elements(c) && Elements(d[1..]) <= Elements(d);
      LinksUnique(w, c[0].body.prev, c[1..], d[1..]);
    }
  }

  /** From any of its records down, a history is the history from that record. */
  lemma {:induction false} LinksFrom(w: World, head: Key, chain: seq<Record>, i: nat)
    requires Links(w, head, chain) && i < |chain|
    ensures Links(w, RecordKey(w, chain[i]), chain[i..])
    decreases |chain|
  {
    if i > 0 {
      LinksFrom(w, chain[0].body.prev, chain[1..], i - 1);
      assert chain[1..][i - 1..] == chain[i..];
    } else {
      assert chain[0..] == chain;
    }
  }

  /** A history that contains the record another is from ends with that other history. */
  lemma SharedRecordSuffix(w: World, head: Key, chain: seq<Record>, i: nat, other: seq<Record>)
    requires Links(w, head, chain) && i < |chain| && Links(w, RecordKey(w, chain[i]), other)
    requires CollisionFree(w, Elements(chain) + Elements(other))
    ensures chain[i..] == other && EndsWith(chain, other)
  {
    LinksFrom(w, head, chain, i);
    assert Elements(chain[i..]) <= Elements(chain);
    LinksUnique(w, RecordKey(w, chain[i]), chain[i..], other);
  }

  /* ---- comparing histories ---- */

  datatype ChainRelation = Same | Extends | Rollback | Fork

  /** `compare_chains`. */
  function CompareChains(stored: seq<Record>, proposed: seq<Record>): Result<ChainRelation, ChainError> {
    if stored == [] || proposed == [] then Err(EmptyChain)
    else if exists r :: r in stored + proposed &&
              (r.body.domain != stored[0].body.domain || r.body.package != stored[0].body.package) then Err(DifferentPackage)
    else if stored == proposed then Ok(Same)
    else if EndsWith(proposed, stored) then Ok(Extends)
    else if EndsWith(stored, proposed) then Ok(Rollback)
    else Ok(Fork)
  }

  /** Swapping the two histories swaps extension and rollback and keeps everything else. */
  lemma CompareMirror(a: seq<Record>, b: seq<Record>)
    ensures CompareChains(a, b) == Ok(Extends) <==> CompareChains(b, a) == Ok(Rollback)
    ensures CompareChains(a, b) == Ok(Fork) <==> CompareChains(b, a) == Ok(Fork)
    ensures CompareChains(a, b) == Ok(Same) <==> CompareChains(b, a) == Ok(Same)
    ensures CompareChains(a, b).Err? ==> CompareChains(b, a) == CompareChains(a, b)
  {
    if a != [] && b != [] {
      assert a[0] in a + b && b[0] in a + b && a[0] in b + a && b[0] in b + a;
      assert forall r :: r in a + b <==> r in b + a;
      if |a| == |b| { assert a[0..] == a && b[0..] == b; }
    }
  }

  /* ---- where a walk stops ---- */

  /** `path` leads by hash links from `head` to the key `end`. */
  ghost predicate PathTo(w: World, head: Key, path: seq<Record>, end: Key)
    decreases |path|
  {
    if path == [] then head == end
    else RecordKey(w, path[0]) == head && path[0].body.prev != END_OF_CHAIN && PathTo(w, path[0].body.prev, path[1..], end)
  }

  ghost function PathKeys(w: World, path: seq<Record>): set<Key> {
    set r | r in path :: RecordKey(w, r)
  }

  ghost function LastVersion(newer: Option<Version>, path: seq<Record>): Option<Version> {
    if path == [] then newer else Some(path[|path| - 1].body.version)
  }

  /** What is wrong at `end` after `path`: no room, a repeated key, or a failed check. */
  ghost predicate FailsAt(w: World, owner: VerifyingKey, latest: Pointer, domain: string, package: string,
                          answers: map<Key, Bytes>, newer: Option<Version>, seen: set<Key>, left: nat,
                          path: seq<Record>, end: Key, e: ChainError) {
    if |path| >= left then e == TooManyVersions
    else if end in seen || end in PathKeys(w, path) then e == Cycle(end)
    else CheckRecord(w, owner, latest, domain, package, Fetch(answers, end), end, LastVersion(newer, path)) == Err(e)
  }

  /** Every record on the path passed its checks. */
  ghost predicate Verified(w: World, owner: VerifyingKey, latest: Pointer, domain: string, package: string,
                           answers: map<Key, Bytes>, newer: Option<Version>, seen: set<Key>, path: seq<Record>) {
    && (path != [] ==> Continues(latest, newer, path)) && Decreasing(path) && Fresh(w, path, seen)
    && forall r :: r in path ==> Belongs(w, owner, domain, package, r) && Fetches(w, answers, r)
  }

  lemma VerifiedCons(w: World, owner: VerifyingKey, latest: Pointer, domain: string, package: string,
                     answers: map<Key, Bytes>, newer: Option<Version>, seen: set<Key>, r: Record, tail: seq<Record>)
    requires Belongs(w, owner, domain, package, r) && Fetches(w, answers, r) && Continues(latest, newer, [r])
    requires RecordKey(w, r) !in seen
    requires Verified(w, owner, latest, domain, package, answers, Some(r.body.version), seen + {RecordKey(w, r)}, tail)
    ensures Verified(w, owner, latest, domain, package, answers, newer, seen, [r] + tail)
  {
    if tail != [] { DecreasingCons(r, tail); }
  }

  lemma FailsAtCons(w: World, owner: VerifyingKey, latest: Pointer, domain: string, package: string,
                    answers: map<Key, Bytes>, newer: Option<Version>, seen: set<Key>, left: nat,
                    r: Record, tail: seq<Record>, end: Key, e: ChainError)
    requires left > 0
    requires FailsAt(w, owner, latest, domain, package, answers, Some(r.body.version), seen + {RecordKey(w, r)}, left - 1, tail, end, e)
    ensures FailsAt(w, owner, latest, domain, package, answers, newer, seen, left, [r] + tail, end, e)
  {
    var path := [r] + tail;
    assert PathKeys(w, path) == {RecordKey(w, r)} + PathKeys(w, tail);
    assert LastVersion(newer, path) == LastVersion(Some(r.body.version), tail);
  }

  /** An error names the first thing wrong along the records that were fine. */
  lemma {:induction false} WalkErr(w: World, owner: VerifyingKey, latest: Pointer, domain: string, package: string,
                                   answers: map<Key, Bytes>, current: Key, newer: Option<Version>, seen: set<Key>, left: nat)
    returns (path: seq<Record>, end: Key)
    requires Walk(w, owner, latest, domain, package, answers, current, newer, seen, left).Err?
    ensures PathTo(w, current, path, end)
    ensures Verified(w, owner, latest, domain, package, answers, newer, seen, path)
    ensures |path| <= left
    ensures FailsAt(w, owner, latest, domain, package, answers, newer, seen, left, path, end,
                    Walk(w, owner, latest, domain, package, answers, current, newer, seen, left).error)
    decreases left
  {
    var checked := CheckRecord(w, owner, latest, domain, package, Fetch(answers, current), current, newer);
    if left == 0 || current in seen || checked.Err? {
      path, end := [], current;
    } else {
      var r := checked.value;
      var tail;
      tail, end := WalkErr(w, owner, latest, domain, package, answers, r.body.prev, Some(r.body.version), seen + {current}, left - 1);
      path := [r] + tail;
      VerifiedCons(w, owner, latest, domain, package, answers, newer, seen, r, tail);
      FailsAtCons(w, owner, latest, domain, package, answers, newer, seen, left, r, tail, end,
                  Walk(w, owner, latest, domain, package, answers, current, newer, seen, left).error);
      assert path[1..] == tail;
    }
  }

  /* ---- a history, index by index ---- */

  /** The key that stands for "no earlier version": 32 zero bytes. */
  ghost predicate IsZero(k: Key) {
    forall j :: 0 <= j < 32 ==> k[j] == 0
  }

  lemma ZeroIsEnd(k: Key)
    ensures IsZero(k) <==> k == END_OF_CHAIN
  {
    if IsZero(k) {
      assert forall j :: 0 <= j < 32 ==> END_OF_CHAIN[j] == 0;
      assert k == END_OF_CHAIN;
    }
  }

  /** What the record at `i` names as the one before it. */
  ghost predicate LinkedAt(w: World, chain: seq<Record>, i: nat)
    requires i < |chain|
  {
    && !IsZero(w.hash(w.encodeRecord(chain[i])))
    && if i + 1 < |chain| then chain[i].body.prev == w.hash(w.encodeRecord(chain[i + 1])) else IsZero(chain[i].body.prev)
  }

  /** `chain` is the owner's history from the record `p` names down to the first version, newest first. */
  ghost predicate SignedHistory(w: World, owner: VerifyingKey, p: Pointer, chain: seq<Record>) {
    && 0 < |chain| <= 10_000
    && p.body.recordHash == w.hash(w.encodeRecord(chain[0])) && p.body.version == chain[0].body.version
    && (forall i :: 0 <= i < |chain| ==> LinkedAt(w, chain, i))
    && (forall i :: 0 <= i < |chain| ==> OwnerRecorded(w, owner, p.body.domain, p.body.package, chain[i]))
    && (forall i :: 0 < i < |chain| ==> Rank(chain[i].body.version) < Rank(chain[i - 1].body.version))
    && (forall i, j :: 0 <= i < j < |chain| ==> w.hash(w.encodeRecord(chain[i])) != w.hash(w.encodeRecord(chain[j])))
  }

  lemma {:induction false} LinksByIndex(w: World, head: Key, chain: seq<Record>)
    requires chain != []
    ensures Links(w, head, chain) <==> RecordKey(w, chain[0]) == head && forall i :: 0 <= i < |chain| ==> LinkedAt(w, chain, i)
    decreases |chain|
  {
    ZeroIsEnd(RecordKey(w, chain[0]));
    ZeroIsEnd(chain[0].body.prev);
    if |chain| == 1 {
      assert LinkedAt(w, chain, 0) <==> RecordKey(w, chain[0]) != END_OF_CHAIN && chain[0].body.prev == END_OF_CHAIN;
      assert (forall i :: 0 <= i < |chain| ==> LinkedAt(w, chain, i)) <==> LinkedAt(w, chain, 0);
    } else {
      LinksByIndex(w, chain[0].body.prev, chain[1..]);
      LinkedCons(w, chain);
      assert LinkedAt(w, chain, 0) <==> RecordKey(w, chain[0]) != END_OF_CHAIN && chain[0].body.prev == RecordKey(w, chain[1..][0]);
    }
  }

  lemma LinkedCons(w: World, chain: seq<Record>)
    requires |chain| > 1
    ensures (forall i :: 0 <= i < |chain| ==> LinkedAt(w, chain, i)) <==>
            LinkedAt(w, chain, 0) && forall i :: 0 <= i < |chain[1..]| ==> LinkedAt(w, chain[1..], i)
  {
    var rest := chain[1..];
    assert forall i :: 0 <= i < |rest| ==> LinkedAt(w, rest, i) == LinkedAt(w, chain, i + 1);
    if LinkedAt(w, chain, 0) && forall i :: 0 <= i < |rest| ==> LinkedAt(w, rest, i) {
      forall i | 0 <= i < |chain| ensures LinkedAt(w, chain, i) {
        if i > 0 { assert LinkedAt(w, rest, i - 1); }
      }
    }
  }

  lemma {:induction false} RankFalls(chain: seq<Record>, i: nat, j: nat)
    requires forall k :: 0 < k < |chain| ==> Rank(chain[k].body.version) < Rank(chain[k - 1].body.version)
    requires i < j < |chain|
    ensures Rank(chain[j].body.version) < Rank(chain[i].body.version)
    decreases j
  {
    assert Rank(chain[j].body.version) < Rank(chain[j - 1].body.version);
    if i < j - 1 { RankFalls(chain, i, j - 1); }
  }

  /** Strictly decreasing versions need only be compared pairwise, as numbers. */
  lemma DecreasingByRank(chain: seq<Record>)
    ensures Decreasing(chain) <==> forall i :: 0 < i < |chain| ==> Rank(chain[i].body.version) < Rank(chain[i - 1].body.version)
  {
    forall i, j | 0 <= i < j < |chain|
      ensures Less(chain[j].body.version, chain[i].body.version) <==> Rank(chain[j].body.version) < Rank(chain[i].body.version)
    {
      LessIsRank(chain[j].body.version, chain[i].body.version);
    }
    if forall i :: 0 < i < |chain| ==> Rank(chain[i].body.version) < Rank(chain[i - 1].body.version) {
      forall i, j | 0 <= i < j < |chain| ensures Less(chain[j].body.version, chain[i].body.version) {
        RankFalls(chain, i, j);
      }
    }
  }

  /** What validation looks for is exactly a signed history, index by index. */
  lemma BehindIsSigned(w: World, owner: VerifyingKey, p: Pointer, chain: seq<Record>)
    ensures Behind(w, owner, p, chain) && DistinctKeys(w, chain) && |chain| <= MAX_CHAIN_LENGTH <==>
            OwnerPointed(w, owner, p.body.domain, p.body.package, p) && SignedHistory(w, owner, p, chain)
  {
    ValidIsPointed(w, owner, p);
    if chain != [] {
      LinksByIndex(w, p.body.recordHash, chain);
      DecreasingByRank(chain);
      BelongsByIndex(w, owner, p.body.domain, p.body.package, chain);
    }
  }

  lemma BelongsByIndex(w: World, owner: VerifyingKey, domain: string, package: string, chain: seq<Record>)
    ensures (forall r :: r in chain ==> Belongs(w, owner, domain, package, r)) <==>
            forall i :: 0 <= i < |chain| ==> OwnerRecorded(w, owner, domain, package, chain[i])
  {
    forall i | 0 <= i < |chain|
      ensures Belongs(w, owner, domain, package, chain[i]) <==> OwnerRecorded(w, owner, domain, package, chain[i])
    {
    }
  }

  /** Validation, said without the walk: the proof is the owner's signed history behind the owner's pointer, in any order. */
  lemma ValidateSigned(w: World, owner: VerifyingKey, p: Pointer, proof: seq<Record>, chain: seq<Record>)
    requires RoundTrips(w)
    ensures Validate(w, owner, p, proof) == Ok(chain) <==>
            && OwnerPointed(w, owner, p.body.domain, p.body.package, p)
            && SignedHistory(w, owner, p, chain) && multiset(proof) == multiset(chain)
  {
    ValidateIff(w, owner, p, proof, chain);
    BehindIsSigned(w, owner, p, chain);
  }

  lemma WalkProofSigned(w: World, owner: VerifyingKey, p: Pointer, proof: seq<Record>, chain: seq<Record>)
    requires RoundTrips(w) && DistinctKeys(w, proof)
    ensures WalkFrom(w, owner, p, p.body.domain, p.body.package, IndexProof(w, proof)) == Ok(chain) <==>
            && OwnerPointed(w, owner, p.body.domain, p.body.package, p)
            && SignedHistory(w, owner, p, chain) && forall r :: r in chain ==> r in proof
  {
    WalkFromIff(w, owner, p, p.body.domain, p.body.package, IndexProof(w, proof), chain);
    BehindIsSigned(w, owner, p, chain);
    forall r | r in chain ensures Fetches(w, IndexProof(w, proof), r) <==> r in proof {
      FetchesFromProof(w, proof, r);
    }
  }

  /** A proof is refused for its size, for a repeated record, or for records beside a whole signed history. */
  lemma ValidateRefuses(w: World, owner: VerifyingKey, p: Pointer, proof: seq<Record>)
    requires RoundTrips(w)
    ensures |proof| > 10_000 ==> Validate(w, owner, p, proof) == Err(TooManyVersions)
    ensures |proof| <= 10_000 ==>
              (Validate(w, owner, p, proof) == Err(UnexpectedRecords) <==>
               || (exists i, j :: 0 <= i < j < |proof| && w.hash(w.encodeRecord(proof[i])) == w.hash(w.encodeRecord(proof[j])))
               || (exists chain :: OwnerPointed(w, owner, p.body.domain, p.body.package, p) && SignedHistory(w, owner, p, chain) &&
                     (forall r :: r in chain ==> r in proof) && |chain| < |proof|))
  {
    if |proof| <= MAX_CHAIN_LENGTH && DistinctKeys(w, proof) {
      var walked := WalkFrom(w, owner, p, p.body.domain, p.body.package, IndexProof(w, proof));
      forall chain
        ensures walked == Ok(chain) <==>
                && OwnerPointed(w, owner, p.body.domain, p.body.package, p)
                && SignedHistory(w, owner, p, chain) && forall r :: r in chain ==> r in proof
      {
        WalkProofSigned(w, owner, p, proof, chain);
      }
      if walked.Ok? {
        ShorterOrAll(w, walked.value, proof);
      } else {
        WalkNeverUnexpected(w, owner, p, p.body.domain, p.body.package, IndexProof(w, proof));
      }
    }
  }

  lemma WalkNeverUnexpected(w: World, owner: VerifyingKey, p: Pointer, domain: string, package: string, answers: map<Key, Bytes>)
    requires WalkFrom(w, owner, p, domain, package, answers).Err?
    ensures WalkFrom(w, owner, p, domain, package, answers).error != UnexpectedRecords
  {
    var path, end := WalkErrorMeans(w, owner, p, domain, package, answers);
  }

  lemma KeysOfSubset(w: World, s: seq<Record>, t: seq<Record>)
    requires forall r :: r in s ==> r in t
    ensures PathKeys(w, s) <= PathKeys(w, t)
  {
  }

  lemma {:induction false} KeyCount(w: World, s: seq<Record>)
    requires DistinctKeys(w, s)
    ensures |PathKeys(w, s)| == |s|
  {
    if s != [] {
      var n := |s| - 1;
      KeyCount(w, s[..n]);
      LastKeyNew(w, s, n);
    }
  }

  lemma LastKeyNew(w: World, s: seq<Record>, n: nat)
    requires DistinctKeys(w, s) && n + 1 == |s|
    ensures |PathKeys(w, s)| == |PathKeys(w, s[..n])| + 1
  {
    assert s == s[..n] + [s[n]];
    OneMoreKey(w, s[..n], s[n]);
    forall r | r in s[..n] ensures RecordKey(w, r) != RecordKey(w, s[n]) {
      var i :| 0 <= i < n && s[..n][i] == r;
      assert s[i] == r;
    }
    assert RecordKey(w, s[n]) !in PathKeys(w, s[..n]);
  }

  lemma OneMoreKey(w: World, s: seq<Record>, r: Record)
    ensures PathKeys(w, s + [r]) == PathKeys(w, s) + {RecordKey(w, r)}
  {
    forall k | k in PathKeys(w, s) ensures k in PathKeys(w, s + [r]) {
      var t :| t in s && RecordKey(w, t) == k;
      assert t in s + [r];
    }
    assert r in s + [r];
  }

  lemma ShorterOrAll(w: World, chain: seq<Record>, proof: seq<Record>)
    requires DistinctKeys(w, chain) && DistinctKeys(w, proof) && forall r :: r in chain ==> r in proof
    ensures |chain| <= |proof|
  {
    KeyCount(w, chain);
    KeyCount(w, proof);
    KeysOfSubset(w, chain, proof);
    assert PathKeys(w, proof) == PathKeys(w, chain) + (PathKeys(w, proof) - PathKeys(w, chain));
  }

  /* ---- what an error means ---- */

  /** What fetching `key` yields can be read as the record `r` of that key. */
  ghost predicate Reads(w: World, owner: VerifyingKey, domain: string, package: string, answers: map<Key, Bytes>, key: Key, r: Record) {
    && key in answers && w.hash(answers[key]) == key && w.decodeRecord(answers[key]) == Some(r)
    && w.hash(w.encodeRecord(r)) == key && OwnerRecorded(w, owner, domain, package, r)
  }

  /** What each error says of the answers, after a path of good records that ends at the key `end`. */
  ghost predicate Explains(w: World, owner: VerifyingKey, latest: Pointer, domain: string, package: string, answers: map<Key, Bytes>,
                           path: seq<Record>, end: Key, e: ChainError) {
    match e
    case TooManyVersions => |path| == 10_000
    case Cycle(k) => |path| < 10_000 && k == end && end in PathKeys(w, path)
    case MissingRecord(k) => NewKey(w, path, end, k) && end !in answers
    case HashMismatch(k) => NewKey(w, path, end, k) && end in answers && w.hash(answers[end]) != end
    case InvalidEncoding(k) =>
      NewKey(w, path, end, k) && end in answers && w.hash(answers[end]) == end && w.decodeRecord(answers[end]).None?
    case InvalidRecord(k) =>
      && NewKey(w, path, end, k) && end in answers && w.hash(answers[end]) == end
      && exists r :: w.decodeRecord(answers[end]) == Some(r) &&
           !(w.hash(w.encodeRecord(r)) == end && OwnerRecorded(w, owner, domain, package, r))
    case HeadVersionMismatch =>
      path == [] && exists r :: Reads(w, owner, domain, package, answers, end, r) && Rank(r.body.version) != Rank(latest.body.version)
    case NonDecreasingVersion =>
      && NewKey(w, path, end, end) && path != []
      && exists r :: Reads(w, owner, domain, package, answers, end, r) && Rank(r.body.version) >= Rank(path[|path| - 1].body.version)
    case _ => false
  }

  ghost predicate NewKey(w: World, path: seq<Record>, end: Key, k: Key) {
    k == end && |path| < 10_000 && end !in PathKeys(w, path)
  }

  lemma CheckExplains(w: World, owner: VerifyingKey, latest: Pointer, domain: string, package: string, answers: map<Key, Bytes>,
                      path: seq<Record>, end: Key, e: ChainError)
    requires |path| < MAX_CHAIN_LENGTH && end !in PathKeys(w, path)
    requires CheckRecord(w, owner, latest, domain, package, Fetch(answers, end), end, LastVersion(None, path)) == Err(e)
    ensures Explains(w, owner, latest, domain, package, answers, path, end, e)
  {
    if end in answers && w.hash(answers[end]) == end && w.decodeRecord(answers[end]).Some? {
      var r := w.decodeRecord(answers[end]).value;
      assert Belongs(w, owner, domain, package, r) <==> OwnerRecorded(w, owner, domain, package, r);
      LessIsRank(r.body.version, latest.body.version);
      if path != [] { LessIsRank(r.body.version, path[|path| - 1].body.version); }
      if RecordKey(w, r) == end && Belongs(w, owner, domain, package, r) {
        assert Reads(w, owner, domain, package, answers, end, r);
      }
    }
  }

  /**
   * A walk from a pointer fails with `InvalidLatestPointer` exactly when the pointer is not the
   * owner's for this package or names no record; any other error is explained by what was fetched.
   */
  lemma WalkErrorMeans(w: World, owner: VerifyingKey, latest: Pointer, domain: string, package: string, answers: map<Key, Bytes>)
    returns (path: seq<Record>, end: Key)
    requires WalkFrom(w, owner, latest, domain, package, answers).Err?
    ensures var e := WalkFrom(w, owner, latest, domain, package, answers).error;
            && (e == InvalidLatestPointer <==> !OwnerPointed(w, owner, domain, package, latest) || IsZero(latest.body.recordHash))
            && (e != InvalidLatestPointer ==>
                  && PathTo(w, latest.body.recordHash, path, end)
                  && Verified(w, owner, latest, domain, package, answers, None, {}, path)
                  && Explains(w, owner, latest, domain, package, answers, path, end, e))
  {
    ValidIsPointed(w, owner, latest);
    ZeroIsEnd(latest.body.recordHash);
    path, end := [], latest.body.recordHash;
    if PointerFits(w, owner, latest, domain, package) {
      path, end := WalkErr(w, owner, latest, domain, package, answers, latest.body.recordHash, None, {}, MAX_CHAIN_LENGTH);
      var e := WalkFrom(w, owner, latest, domain, package, answers).error;
      if |path| < MAX_CHAIN_LENGTH && end !in PathKeys(w, path) {
        CheckExplains(w, owner, latest, domain, package, answers, path, end, e);
      }
    }
  }

  /* ---- what comparing means ---- */

  /** Both histories are there, and every record of either is of one package. */
  ghost predicate Comparable(a: seq<Record>, b: seq<Record>) {
    && a != [] && b != []
    && forall r, q :: r in a + b && q in a + b ==> r.body.domain == q.body.domain && r.body.package == q.body.package
  }

  lemma ComparableIff(stored: seq<Record>, proposed: seq<Record>)
    requires stored != [] && proposed != []
    ensures Comparable(stored, proposed) <==>
            !exists r :: r in stored + proposed &&
               (r.body.domain != stored[0].body.domain || r.body.package != stored[0].body.package)
  {
    assert stored[0] in stored + proposed;
  }

  /** Each verdict of the comparison, by what one history adds to the other. */
  lemma CompareMeans(stored: seq<Record>, proposed: seq<Record>)
    ensures var v := CompareChains(stored, proposed);
            && (v == Err(EmptyChain) <==> stored == [] || proposed == [])
            && (v.Ok? <==> Comparable(stored, proposed))
            && (v == Ok(Same) <==> Comparable(stored, proposed) && stored == proposed)
            && (v == Ok(Extends) <==> Comparable(stored, proposed) && Adds(stored, proposed))
            && (v == Ok(Rollback) <==> Comparable(stored, proposed) && Adds(proposed, stored))
            && (v.Err? ==> v.error in {EmptyChain, DifferentPackage})
  {
    if stored != [] && proposed != [] {
      ComparableIff(stored, proposed);
      AddsIff(stored, proposed);
      AddsIff(proposed, stored);
    }
  }

  /** `newer` is `older` with at least one record put before it. */
  ghost predicate Adds(older: seq<Record>, newer: seq<Record>) {
    exists front :: front != [] && newer == front + older
  }

  lemma AddsIff(older: seq<Record>, newer: seq<Record>)
    ensures Adds(older, newer) <==> older != newer && EndsWith(newer, older)
    ensures Adds(older, newer) ==> |older| < |newer|
  {
    if older != newer && EndsWith(newer, older) {
      var front := newer[..|newer| - |older|];
      assert newer == front + older;
      assert front == [] ==> newer == older;
    }
  }
}
