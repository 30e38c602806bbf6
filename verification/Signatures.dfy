/** Nothing becomes a package's latest pointer without the signatures of the owner DNS named. */
module Signatures {
  import opened Wrappers
  import opened Keys
  import opened Package
  import opened VersionChain
  import opened Store
  import opened Registry

  /** Pointer and records carry the owner's signatures over their bodies. */
  ghost predicate AllSigned(w: World, owner: VerifyingKey, p: Pointer, chain: seq<Record>) {
    && OwnerPointed(w, owner, p.body.domain, p.body.package, p)
    && chain != [] && forall r :: r in chain ==> OwnerRecorded(w, owner, p.body.domain, p.body.package, r)
  }

  /** Passing the checks of a STORE takes those signatures; how records are encoded does not matter. */
  lemma CheckNeedsSignatures(w: World, req: Request, owner: Option<VerifyingKey>)
    requires Check(w, req, owner).Some? && Check(w, req, owner).value.CheckedLatest?
    ensures var c := Check(w, req, owner).value; owner == Some(c.owner) && AllSigned(w, c.owner, c.pointer, c.chain)
  {
    var c := Check(w, req, owner).value;
    ValidIsPointed(w, c.owner, c.pointer);
    WalkFromIff(w, c.owner, c.pointer, c.pointer.body.domain, c.pointer.body.package, IndexProof(w, req.proof), c.chain);
    forall r | r in c.chain ensures OwnerRecorded(w, c.owner, c.pointer.body.domain, c.pointer.body.package, r) {
      assert Belongs(w, c.owner, c.pointer.body.domain, c.pointer.body.package, r);
    }
  }

  /** What waits, what was let in and what is stored: all signed by some owner DNS named. */
  ghost predicate NodeSigned(w: World, n: Node, owners: set<VerifyingKey>) {
    && (forall c :: c in n.waiting && c.CheckedLatest? ==> c.owner in owners && AllSigned(w, c.owner, c.pointer, c.chain))
    && (forall key, a :: a in Log(n.accepted, key) ==> a.owner in owners && AllSigned(w, a.owner, a.pointer, a.chain))
    && (forall key :: key in n.values && n.values[key].Latest? ==> SignedBySome(w, n.values[key].pointer, owners))
  }

  ghost predicate SignedBySome(w: World, p: Pointer, owners: set<VerifyingKey>) {
    exists o :: o in owners && OwnerPointed(w, o, p.body.domain, p.body.package, p)
  }

  lemma MoreWaiting(w: World, n: Node, c: Checked, owners: set<VerifyingKey>)
    requires NodeSigned(w, n, owners)
    requires c.CheckedLatest? ==> c.owner in owners && AllSigned(w, c.owner, c.pointer, c.chain)
    ensures NodeSigned(w, n.(waiting := n.waiting + [c]), owners)
  {
  }

  lemma ArriveSigned(w: World, n: Node, req: Request, owner: Option<VerifyingKey>, owners: set<VerifyingKey>)
    requires NodeSigned(w, n, owners) && (owner.Some? ==> owner.value in owners)
    ensures NodeSigned(w, Step(w, n, Arrive(req, owner)), owners)
  {
    var c := Check(w, req, owner);
    if c.Some? {
      if c.value.CheckedLatest? { CheckNeedsSignatures(w, req, owner); }
      MoreWaiting(w, n, c.value, owners);
    }
  }

  lemma CommitSigned(w: World, n: Node, i: nat, owners: set<VerifyingKey>)
    requires NodeSigned(w, n, owners)
    ensures NodeSigned(w, Step(w, n, Commit(i)), owners)
  {
    if i < |n.waiting| {
      var c, m := n.waiting[i], Step(w, n, Commit(i));
      assert c in n.waiting;
      forall d | d in m.waiting ensures d in n.waiting {
      }
      forall key | key in m.values && m.values[key].Latest? ensures SignedBySome(w, m.values[key].pointer, owners) {
        if key == c.key && Admits(w, n.values, c) && c.CheckedLatest? {
          assert OwnerPointed(w, c.owner, c.pointer.body.domain, c.pointer.body.package, c.pointer);
        }
      }
      forall key, a | a in Log(m.accepted, key) ensures a.owner in owners && AllSigned(w, a.owner, a.pointer, a.chain) {
        if a !in Log(n.accepted, key) { assert a == Accepted(c.pointer, c.owner, c.chain); }
      }
    }
  }

  lemma {:induction false} RunSigned(w: World, events: seq<Event>, owners: set<VerifyingKey>)
    requires Owners(events) <= owners
    ensures NodeSigned(w, Run(w, events), owners)
  {
    if events != [] {
      var n := |events| - 1;
      assert Owners(events[..n]) <= Owners(events) by { OwnersBefore(events); }
      RunSigned(w, events[..n], owners);
      match events[n]
      case Arrive(req, owner) =>
        if owner.Some? { assert owner.value in Owners(events); }
        ArriveSigned(w, Run(w, events[..n]), req, owner, owners);
      case Commit(i) => CommitSigned(w, Run(w, events[..n]), i, owners);
    }
  }

  lemma OwnersBefore(events: seq<Event>)
    requires events != []
    ensures Owners(events[..|events| - 1]) <= Owners(events)
  {
    var n := |events| - 1;
    forall o | o in Owners(events[..n]) ensures o in Owners(events) {
      var i :| 0 <= i < n && events[..n][i].Arrive? && events[..n][i].owner.Some? && events[..n][i].owner.value == o;
      assert events[i] == events[..n][i];
    }
  }

  /** In every run, whatever the hash and encoding do: what was let in carries the owner's signatures, pointer and records. */
  lemma AcceptedAreSigned(w: World, events: seq<Event>, key: Key, a: Accepted)
    requires a in Log(Run(w, events).accepted, key)
    ensures a.owner in Owners(events)
    ensures w.sigOk(a.owner, w.hash(w.encodePointerBody(a.pointer.body)), a.pointer.sig)
    ensures forall r :: r in a.chain ==> w.sigOk(a.owner, w.hash(w.encodeRecordBody(r.body)), r.sig)
    ensures a.pointer.body.tag == "latest-pointer" && forall r :: r in a.chain ==> r.body.tag == "version-record"
  {
    RunSigned(w, events, Owners(events));
  }

  /** And so does what a replica holds and answers with. */
  lemma StoredAreSigned(w: World, events: seq<Event>, key: Key)
    requires key in Run(w, events).values && Run(w, events).values[key].Latest?
    ensures var p := Run(w, events).values[key].pointer;
            exists o :: o in Owners(events) && w.sigOk(o, w.hash(w.encodePointerBody(p.body)), p.sig)
  {
    RunSigned(w, events, Owners(events));
    var p := Run(w, events).values[key].pointer;
    assert SignedBySome(w, p, Owners(events));
  }

  /** Whoever cannot make a signature the owner's key accepts never gets a pointer stored. */
  lemma NothingWithoutSignatures(w: World, events: seq<Event>)
    requires forall o, h, s :: o in Owners(events) ==> !w.sigOk(o, h, s)
    ensures forall key :: key in Run(w, events).values ==> Run(w, events).values[key].Blob?
  {
    forall key | key in Run(w, events).values ensures Run(w, events).values[key].Blob? {
      if Run(w, events).values[key].Latest? { StoredAreSigned(w, events, key); }
    }
  }
}
