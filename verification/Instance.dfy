/** The hypotheses about the library calls can be met, and a higher version that is declined. */
module Instance {
  import opened Wrappers
  import opened Keys
  import opened Package
  import opened VersionChain
  import opened Store
  import opened Registry

  /* ---- an encoding of records that can be read back ---- */

  function Unary(n: nat): Bytes {
    if n == 0 then [0] else [1] + Unary(n - 1)
  }

  lemma {:induction false} UnaryPrefix(a: nat, b: nat, x: Bytes, y: Bytes)
    requires Unary(a) + x == Unary(b) + y
    ensures a == b && x == y
  {
    assert (Unary(a) + x)[0] == (Unary(b) + y)[0];
    if a > 0 && b > 0 {
      assert (Unary(a) + x)[1..] == Unary(a - 1) + x && (Unary(b) + y)[1..] == Unary(b - 1) + y;
      UnaryPrefix(a - 1, b - 1, x, y);
    } else {
      assert (Unary(a) + x)[1..] == x || a > 0;
      assert (Unary(b) + y)[1..] == y || b > 0;
    }
  }

  function Text(s: string): Bytes {
    if s == "" then [0] else [1] + Unary(s[0] as nat) + Text(s[1..])
  }

  lemma {:induction false} TextPrefix(s: string, t: string, x: Bytes, y: Bytes)
    requires Text(s) + x == Text(t) + y
    ensures s == t && x == y
    decreases |s|
  {
    assert (Text(s) + x)[0] == (Text(t) + y)[0];
    if s != "" && t != "" {
      assert (Text(s) + x)[1..] == Unary(s[0] as nat) + (Text(s[1..]) + x);
      assert (Text(t) + y)[1..] == Unary(t[0] as nat) + (Text(t[1..]) + y);
      UnaryPrefix(s[0] as nat, t[0] as nat, Text(s[1..]) + x, Text(t[1..]) + y);
      TextPrefix(s[1..], t[1..], x, y);
      assert s == [s[0]] + s[1..] && t == [t[0]] + t[1..];
    } else {
      assert (Text(s) + x)[1..] == x || s != "";
      assert (Text(t) + y)[1..] == y || t != "";
    }
  }

  function Raw(s: Bytes): Bytes {
    if s == [] then [0] else [1, s[0]] + Raw(s[1..])
  }

  lemma {:induction false} RawPrefix(s: Bytes, t: Bytes, x: Bytes, y: Bytes)
    requires Raw(s) + x == Raw(t) + y
    ensures s == t && x == y
    decreases |s|
  {
    assert (Raw(s) + x)[0] == (Raw(t) + y)[0];
    if s != [] && t != [] {
      assert (Raw(s) + x)[1] == (Raw(t) + y)[1];
      assert (Raw(s) + x)[2..] == Raw(s[1..]) + x && (Raw(t) + y)[2..] == Raw(t[1..]) + y;
      RawPrefix(s[1..], t[1..], x, y);
      assert s == [s[0]] + s[1..] && t == [t[0]] + t[1..];
    } else {
      assert (Raw(s) + x)[1..] == x || s != [];
      assert (Raw(t) + y)[1..] == y || t != [];
    }
  }

  function VersionBytes(v: Version, rest: Bytes): Bytes {
    Unary(v.major) + (Unary(v.minor) + (Unary(v.patch) + rest))
  }

  function HashBytes(r: Record): Bytes {
    Raw(r.body.blobHash) + (Raw(r.body.prev) + (Raw(r.sig) + []))
  }

  function Encode(r: Record): Bytes {
    Text(r.body.tag) + (Text(r.body.domain) + (Text(r.body.package) + VersionBytes(r.body.version, HashBytes(r))))
  }

  lemma VersionPrefix(v: Version, u: Version, x: Bytes, y: Bytes)
    requires VersionBytes(v, x) == VersionBytes(u, y)
    ensures v == u && x == y
  {
    UnaryPrefix(v.major, u.major, Unary(v.minor) + (Unary(v.patch) + x), Unary(u.minor) + (Unary(u.patch) + y));
    UnaryPrefix(v.minor, u.minor, Unary(v.patch) + x, Unary(u.patch) + y);
    UnaryPrefix(v.patch, u.patch, x, y);
  }

  lemma HashesEqual(r: Record, q: Record)
    requires HashBytes(r) == HashBytes(q)
    ensures r.body.blobHash == q.body.blobHash && r.body.prev == q.body.prev && r.sig == q.sig
  {
    RawPrefix(r.body.blobHash, q.body.blobHash, Raw(r.body.prev) + (Raw(r.sig) + []), Raw(q.body.prev) + (Raw(q.sig) + []));
    RawPrefix(r.body.prev, q.body.prev, Raw(r.sig) + [], Raw(q.sig) + []);
    RawPrefix(r.sig, q.sig, [], []);
  }

  /** Different records have different encodings. */
  lemma EncodeInjective(r: Record, q: Record)
    requires Encode(r) == Encode(q)
    ensures r == q
  {
    var x, y := VersionBytes(r.body.version, HashBytes(r)), VersionBytes(q.body.version, HashBytes(q));
    TextPrefix(r.body.tag, q.body.tag, Text(r.body.domain) + (Text(r.body.package) + x), Text(q.body.domain) + (Text(q.body.package) + y));
    TextPrefix(r.body.domain, q.body.domain, Text(r.body.package) + x, Text(q.body.package) + y);
    TextPrefix(r.body.package, q.body.package, x, y);
    VersionPrefix(r.body.version, q.body.version, HashBytes(r), HashBytes(q));
    HashesEqual(r, q);
  }

  ghost function Decode(bytes: Bytes): (d: Option<Record>)
    ensures d.Some? ==> Encode(d.value) == bytes
    ensures d.None? ==> forall r :: Encode(r) != bytes
  {
    if exists r :: Encode(r) == bytes then
      var r :| Encode(r) == bytes;
      Some(r)
    else None
  }

  lemma DecodeEncode(r: Record)
    ensures Decode(Encode(r)) == Some(r)
  {
    EncodeInjective(Decode(Encode(r)).value, r);
  }

  /* ---- a fork of a higher version ---- */

  function KeyOf(first: Byte): (k: Key)
    ensures k[0] == first
  {
    [first, 0, 0, 0, 0, 0, 0, 0, 0, 0, 0, 0, 0, 0, 0, 0, 0, 0, 0, 0, 0, 0, 0, 0, 0, 0, 0, 0, 0, 0, 0, 0]
  }

  /** Three records with keys of their own: a first version, the next, and a later one forked off the first. */
  datatype Trio = Trio(base: Record, head: Record, fork: Record)

  ghost function HashOf(t: Trio, bytes: Bytes): Key {
    if bytes == Encode(t.base) then KeyOf(1)
    else if bytes == Encode(t.head) then KeyOf(2)
    else if bytes == Encode(t.fork) then KeyOf(3)
    else KeyOf(9)
  }

  /** A world in which they hash to those keys and every signature is good. */
  ghost function WorldOf(t: Trio): World {
    World(bytes => HashOf(t, bytes), Encode, Decode, _ => [], _ => [], _ => [], k => k, (_, _) => [], (_, _, _) => true)
  }

  lemma WorldOk(t: Trio)
    ensures RoundTrips(WorldOf(t)) && SignsCorrectly(WorldOf(t))
  {
    forall r ensures WorldOf(t).decodeRecord(WorldOf(t).encodeRecord(r)) == Some(r) {
      DecodeEncode(r);
    }
  }

  lemma EncodeNotEmpty(r: Record)
    ensures Encode(r) != []
  {
    assert Text(r.body.tag) != [];
  }

  /** In `w` the three records have these keys, and every signature is empty and good. */
  ghost predicate Keyed(w: World, t: Trio) {
    && RecordKey(w, t.base) == KeyOf(1) && RecordKey(w, t.head) == KeyOf(2) && RecordKey(w, t.fork) == KeyOf(3)
    && w.hash([]) == KeyOf(9)
    && (forall k, h :: w.sign(k, h) == []) && (forall v, h, s :: w.sigOk(v, h, s))
  }

  lemma WorldKeys(t: Trio)
    requires t.base != t.head && t.base != t.fork && t.head != t.fork
    ensures Keyed(WorldOf(t), t)
  {
    if Encode(t.head) == Encode(t.base) { EncodeInjective(t.head, t.base); }
    if Encode(t.fork) == Encode(t.base) { EncodeInjective(t.fork, t.base); }
    if Encode(t.fork) == Encode(t.head) { EncodeInjective(t.fork, t.head); }
    EncodeNotEmpty(t.base);
    EncodeNotEmpty(t.head);
    EncodeNotEmpty(t.fork);
  }

  /** The hypotheses about the library calls can be met together. */
  lemma SomeWorld(t: Trio) returns (w: World)
    requires t.base != t.head && t.base != t.fork && t.head != t.fork
    ensures RoundTrips(w) && SignsCorrectly(w) && Keyed(w, t)
  {
    w := WorldOf(t);
    WorldOk(t);
    WorldKeys(t);
  }

  /** The record of version `major.0.0` of a package, linked to `prev`. */
  function RecordOf(domain: string, package: string, major: U32, prev: Key): Record {
    Signed(VersionRecord(VERSION_RECORD_TAG, domain, package, Version(major, 0, 0), KeyOf(9), prev), [])
  }

  function TrioOf(domain: string, package: string): Trio {
    Trio(RecordOf(domain, package, 1, END_OF_CHAIN), RecordOf(domain, package, 2, KeyOf(1)), RecordOf(domain, package, 3, KeyOf(1)))
  }

  /** Version 3 is forced onto version 1 although version 2 exists. */
  function Forced(domain: string, package: string): Publication {
    Publication(domain, package, Version(3, 0, 0), [], [], Some(Version(1, 0, 0)), true)
  }

  /** What a replica that holds version 2 has stored. */
  ghost function HoldsHead(w: World, p: Publication, t: Trio): map<Key, Value> {
    map[LatestKey(w, p.domain, p.package) := Latest(MakePointer(w, p.(version := t.head.body.version), t.head))]
  }

  /** `c` is the request for a higher version, checked, and the replica declines it. */
  ghost predicate Declines(w: World, p: Publication, existing: seq<Record>, values: map<Key, Value>, c: Checked) {
    && existing != [] && Less(existing[0].body.version, p.version) && PreparePublication(w, p, existing).Ok?
    && Check(w, PointerRequest(w, PreparePublication(w, p, existing).value), Some(w.publicKey(p.signer))) == Some(c)
    && !Admits(w, values, c) && CommitTo(w, values, c) == values
  }

  lemma TwoVersions(w: World, owner: VerifyingKey, t: Trio, domain: string, package: string)
    requires t == TrioOf(domain, package) && Keyed(w, t)
    ensures History(w, owner, domain, package, KeyOf(2), [t.head, t.base])
  {
    assert [t.head, t.base][1..] == [t.base];
    assert KeyOf(1) != END_OF_CHAIN && KeyOf(2) != END_OF_CHAIN;
  }

  lemma ForkPrepared(w: World, p: Publication, t: Trio)
    requires t == TrioOf(p.domain, p.package) && Keyed(w, t) && p == Forced(p.domain, p.package)
    ensures PreparePublication(w, p, [t.head, t.base]).Ok?
    ensures var r := PreparePublication(w, p, [t.head, t.base]).value; r.record == t.fork && r.proof == [t.fork, t.base]
  {
    ForkIsOlderPublication(w, p, [t.head, t.base]);
    assert [t.head, t.base][1..] == [t.base];
    assert MakeRecord(w, p, KeyOf(1)) == t.fork;
  }

  lemma ForkHasOwnKey(w: World, t: Trio)
    requires Keyed(w, t)
    ensures CollisionFree(w, Elements([t.fork, t.base])) && RecordKey(w, t.fork) != END_OF_CHAIN
  {
    assert KeyOf(1) != KeyOf(3) && KeyOf(3) != END_OF_CHAIN;
  }

  lemma ForkDeclined(w: World, p: Publication, t: Trio) returns (c: Checked)
    requires t == TrioOf(p.domain, p.package) && Keyed(w, t) && p == Forced(p.domain, p.package) && ':' !in p.domain
    requires RoundTrips(w) && SignsCorrectly(w)
    ensures HistorySoFar(w, w.publicKey(p.signer), p, [t.head, t.base])
    ensures Declines(w, p, [t.head, t.base], HoldsHead(w, p, t), c)
  {
    TwoVersions(w, w.publicKey(p.signer), t, p.domain, p.package);
    ForkPrepared(w, p, t);
    ForkHasOwnKey(w, t);
    HigherForkIsRefused(w, p, [t.head, t.base], HoldsHead(w, p, t));
    c := Check(w, PointerRequest(w, PreparePublication(w, p, [t.head, t.base]).value), Some(w.publicKey(p.signer))).value;
  }

  /** For any package: a replica that holds version 2 declines version 3, whose history is valid but does not hold version 2. */
  lemma HigherVersionCanBeDeclined(domain: string, package: string)
    returns (w: World, p: Publication, existing: seq<Record>, values: map<Key, Value>, c: Checked)
    requires ':' !in domain
    ensures p.domain == domain && p.package == package && RoundTrips(w) && SignsCorrectly(w)
    ensures HistorySoFar(w, w.publicKey(p.signer), p, existing) && Declines(w, p, existing, values, c)
  {
    var t := TrioOf(domain, package);
    w := SomeWorld(t);
    p, existing := Forced(domain, package), [t.head, t.base];
    values := HoldsHead(w, p, t);
    c := ForkDeclined(w, p, t);
  }
}
