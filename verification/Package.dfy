/** Versions, signed records and latest pointers, and the keys they live under. */
module Package {
  import opened Wrappers
  import opened Keys

  type U32 = x: nat | x < 0x1_0000_0000

  /** `major.minor.patch`, ordered field by field. */
  datatype Version = Version(major: U32, minor: U32, patch: U32)

  predicate Less(a: Version, b: Version) {
    a.major < b.major || (a.major == b.major && (a.minor < b.minor || (a.minor == b.minor && a.patch < b.patch)))
  }

  /** A version as one number: three 32-bit digits, the major one first. */
  function Rank(v: Version): nat {
    (v.major * 0x1_0000_0000 + v.minor) * 0x1_0000_0000 + v.patch
  }

  /** The derived order compares major, then minor, then patch. */
  lemma LessIsRank(a: Version, b: Version)
    ensures Less(a, b) <==>
            (a.major * 0x1_0000_0000 + a.minor) * 0x1_0000_0000 + a.patch < (b.major * 0x1_0000_0000 + b.minor) * 0x1_0000_0000 + b.patch
    ensures Less(a, b) <==> Rank(a) < Rank(b)
    ensures a == b <==> Rank(a) == Rank(b)
  {
    var x, y := a.major * 0x1_0000_0000 + a.minor, b.major * 0x1_0000_0000 + b.minor;
    assert x < y <==> a.major < b.major || (a.major == b.major && a.minor < b.minor);
    assert Rank(a) < Rank(b) <==> x < y || (x == y && a.patch < b.patch);
  }

  datatype Signed<T> = Signed(body: T, sig: Bytes)

  datatype VersionRecord = VersionRecord(
    tag: string, domain: string, package: string, version: Version, blobHash: Key, prev: Key)

  datatype LatestPointer = LatestPointer(
    tag: string, domain: string, package: string, version: Version, recordHash: Key)

  type Record = Signed<VersionRecord>
  type Pointer = Signed<LatestPointer>

  const VERSION_RECORD_TAG: string := "version-record"
  const LATEST_POINTER_TAG: string := "latest-pointer"

  type VerifyingKey = Bytes
  type SigningKey = Bytes

  /** The library calls the registry rests on: SHA-256, bincode, UTF-8 and Ed25519. */
  datatype World = World(
    hash: Bytes -> Key,
    encodeRecord: Record -> Bytes,
    decodeRecord: Bytes -> Option<Record>,
    encodeRecordBody: VersionRecord -> Bytes,
    encodePointerBody: LatestPointer -> Bytes,
    utf8: string -> Bytes,
    publicKey: SigningKey -> VerifyingKey,
    sign: (SigningKey, Key) -> Bytes,
    sigOk: (VerifyingKey, Key, Bytes) -> bool)

  /** Serialising a record and reading it back gives the record. */
  ghost predicate RoundTrips(w: World) {
    forall r :: w.decodeRecord(w.encodeRecord(r)) == Some(r)
  }

  /** A signature made with a key verifies under its public half. */
  ghost predicate SignsCorrectly(w: World) {
    forall k, h :: w.sigOk(w.publicKey(k), h, w.sign(k, h))
  }

  /** The key a version record is stored under: the hash of its encoding. */
  function RecordKey(w: World, r: Record): Key {
    w.hash(w.encodeRecord(r))
  }

  function LatestText(domain: string, package: string): string {
    domain + ":" + package + ":latest"
  }

  /** The fixed key of a package's latest pointer. */
  function LatestKey(w: World, domain: string, package: string): Key {
    w.hash(w.utf8(LatestText(domain, package)))
  }

  predicate RecordVerifies(w: World, r: Record, owner: VerifyingKey) {
    w.sigOk(owner, w.hash(w.encodeRecordBody(r.body)), r.sig)
  }

  predicate PointerVerifies(w: World, p: Pointer, owner: VerifyingKey) {
    w.sigOk(owner, w.hash(w.encodePointerBody(p.body)), p.sig)
  }

  function SignRecord(w: World, body: VersionRecord, key: SigningKey): Record {
    Signed(body, w.sign(key, w.hash(w.encodeRecordBody(body))))
  }

  function SignPointer(w: World, body: LatestPointer, key: SigningKey): Pointer {
    Signed(body, w.sign(key, w.hash(w.encodePointerBody(body))))
  }

  predicate LatestIsValid(w: World, p: Pointer, owner: VerifyingKey) {
    p.body.tag == LATEST_POINTER_TAG && ':' !in p.body.domain && PointerVerifies(w, p, owner)
  }

  /* ---- what the owner of a domain said ---- */

  /** `p` is a pointer of this package with the owner's signature over its body. */
  ghost predicate OwnerPointed(w: World, owner: VerifyingKey, domain: string, package: string, p: Pointer) {
    && p.body.tag == "latest-pointer" && p.body.domain == domain && p.body.package == package
    && (forall i :: 0 <= i < |domain| ==> domain[i] != ':')
    && w.sigOk(owner, w.hash(w.encodePointerBody(p.body)), p.sig)
  }

  /** `r` is a version record of this package with the owner's signature over its body. */
  ghost predicate OwnerRecorded(w: World, owner: VerifyingKey, domain: string, package: string, r: Record) {
    && r.body.tag == "version-record" && r.body.domain == domain && r.body.package == package
    && w.sigOk(owner, w.hash(w.encodeRecordBody(r.body)), r.sig)
  }

  lemma ValidIsPointed(w: World, owner: VerifyingKey, p: Pointer)
    ensures LatestIsValid(w, p, owner) <==> OwnerPointed(w, owner, p.body.domain, p.body.package, p)
  {
  }

  /** The key the source computes for one of its own examples. */
  lemma LatestKeyOfExample(w: World)
    ensures LatestKey(w, "rfin.ch", "java-pair") == w.hash(w.utf8("rfin.ch:java-pair:latest"))
  {
    assert "rfin.ch" + ":" + "java-pair" == "rfin.ch:java-pair";
    assert "rfin.ch:java-pair" + ":latest" == "rfin.ch:java-pair:latest";
  }

  /** Without a colon in the domains, the joined text names one domain and package only. */
  lemma LatestTextInjective(d: string, p: string, e: string, q: string)
    requires ':' !in d && ':' !in e && LatestText(d, p) == LatestText(e, q)
    ensures d == e && p == q
  {
    var x := LatestText(d, p);
    assert x[|d|] == ':' && x[|e|] == ':';
    assert forall i :: 0 <= i < |d| ==> x[i] == d[i] && d[i] in d;
    assert forall i :: 0 <= i < |e| ==> x[i] == e[i] && e[i] in e;
    assert |d| == |e|;
    assert d == x[..|d|] && e == x[..|e|];
    assert p == x[|d| + 1..|x| - 7] && q == x[|e| + 1..|x| - 7];
  }

  /** With a colon the same text, and so the same key, can name two packages. */
  lemma ColonIsAmbiguous(a: string, b: string, c: string)
    ensures LatestText(a, b + ":" + c) == LatestText(a + ":" + b, c)
  {
  }

  /** The hash tells these two latest texts apart. */
  ghost predicate LatestKeysDistinct(w: World, d: string, p: string, e: string, q: string) {
    LatestKey(w, d, p) == LatestKey(w, e, q) ==> LatestText(d, p) == LatestText(e, q)
  }

  /** Two valid pointers under one latest key are of one domain and package. */
  lemma OneLatestKeyOnePackage(w: World, p: Pointer, o: VerifyingKey, q: Pointer, n: VerifyingKey)
    requires LatestIsValid(w, p, o) && LatestIsValid(w, q, n)
    requires LatestKeysDistinct(w, p.body.domain, p.body.package, q.body.domain, q.body.package)
    requires LatestKey(w, p.body.domain, p.body.package) == LatestKey(w, q.body.domain, q.body.package)
    ensures p.body.domain == q.body.domain && p.body.package == q.body.package
  {
    LatestTextInjective(p.body.domain, p.body.package, q.body.domain, q.body.package);
  }
}
