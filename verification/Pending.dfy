/** Matching replies to calls: the reply tag, the slot table, and calls under any interleaving. */
module Pending {
  import opened Wrappers
  import opened Keys

  /** A 64-bit id on the wire. */
  type RequestId = x: nat | x < 0x1_0000_0000_0000_0000

  /* ---- the reply tag ---- */

  /** Bit 63. */
  const REPLY_TAG: RequestId := 0x8000_0000_0000_0000

  /** Clears the tag bit. */
  function ToRequest(id: RequestId): RequestId { id % REPLY_TAG }

  /** Sets the tag bit. */
  function ToReply(id: RequestId): RequestId { id % REPLY_TAG + REPLY_TAG }

  /** Whether the tag bit is set. */
  predicate IsReply(id: RequestId) { id / REPLY_TAG % 2 == 1 }

  /** Tagging a request's id and untagging the reply's gives the id back, and a minted id carries no tag. */
  lemma TagRoundTrip(id: RequestId)
    ensures IsReply(ToReply(id)) && !IsReply(ToRequest(id))
    ensures !IsReply(id) ==> ToRequest(ToReply(id)) == id
    ensures IsReply(id) ==> ToReply(ToRequest(id)) == id
  {
  }

  /* ---- the slot table ---- */

  /** Who may answer, and which call gets the answer. */
  datatype Slot = Slot(expectedPeer: Address, call: nat)

  type Slots = map<RequestId, Slot>

  predicate Delivers(slots: Slots, id: RequestId, from: Address) {
    id in slots && slots[id].expectedPeer == from
  }

  /** The calls waiting for replies, by id. */
  class PendingTable {
    var slots: Slots

    constructor ()
      ensures slots == map[]
    {
      slots := map[];
    }

    /** Refused if the id is in use. */
    method Register(id: RequestId, slot: Slot) returns (ok: bool)
      modifies this
      ensures ok == (id !in old(slots)) && slots == if ok then old(slots)[id := slot] else old(slots)
    {
      ok := id !in slots;
      if ok { slots := slots[id := slot]; }
    }

    /** Takes out the slot waiting on `id`, if it is from the peer that was asked. */
    method Deliver(id: RequestId, from: Address) returns (call: Option<nat>)
      modifies this
      ensures call == if Delivers(old(slots), id, from) then Some(old(slots)[id].call) else None
      ensures slots == if call.Some? then old(slots) - {id} else old(slots)
    {
      if id in slots && slots[id].expectedPeer == from {
        call := Some(slots[id].call);
        slots := slots - {id};
      } else {
        call := None;
      }
    }

    /** Frees an id, whoever holds it by now, and says whose slot went. */
    method Release(id: RequestId) returns (closed: Option<nat>)
      modifies this
      ensures closed == if id in old(slots) then Some(old(slots)[id].call) else None
      ensures slots == old(slots) - {id}
    {
      closed := if id in slots then Some(slots[id].call) else None;
      slots := slots - {id};
    }
  }

  /* ---- calls, datagrams and drops interleaved ---- */

  const MAX_ATTEMPTS: nat := 5

  /**
   * `Closed`: the slot went without a reply, so the next poll yields nothing and unwrapping that
   * panics.
   */
  datatype Status = Waiting | Delivered(payload: Bytes) | Closed | Resolved(payload: Bytes) | Panicked | TimedOut | Failed

  datatype Call = Call(id: RequestId, peer: Address, sends: nat, status: Status, dropped: bool)

  datatype Datagram = Datagram(id: RequestId, from: Address, payload: Bytes)

  /** `wire` lists every datagram received, in order. */
  datatype State = State(slots: Slots, calls: seq<Call>, wire: seq<Datagram>)

  datatype Step =
    | Start(random: RequestId, peer: Address)
    | Send(call: nat)
    | FailSend(call: nat)
    | Receive(datagram: Datagram)
    | Take(call: nat)
    | GiveUp(call: nat)
    | Drop(call: nat)

  function SetStatus(s: State, c: nat, status: Status): State
    requires c < |s.calls|
  {
    s.(calls := s.calls[c := s.calls[c].(status := status)])
  }

  predicate Live(s: State, c: nat) {
    c < |s.calls| && !s.calls[c].dropped
  }

  /** Still in its resend loop. */
  predicate Trying(s: State, c: nat) {
    Live(s, c) && (s.calls[c].status.Waiting? || s.calls[c].status.Delivered? || s.calls[c].status.Closed?)
  }

  /** The calls after the slot of call `k`, if any, went without a reply. */
  function Orphan(calls: seq<Call>, k: Option<nat>): (r: seq<Call>)
    ensures |r| == |calls|
  {
    if k.Some? && k.value < |calls| && !calls[k.value].dropped && calls[k.value].status.Waiting?
    then calls[k.value := calls[k.value].(status := Closed)] else calls
  }

  /** One atomic action; one that cannot happen now changes nothing. */
  function Next(s: State, step: Step): State {
    match step
    case Start(random, peer) =>
      var id := ToRequest(random);
      if id in s.slots then s
      else s.(slots := s.slots[id := Slot(peer, |s.calls|)], calls := s.calls + [Call(id, peer, 0, Waiting, false)])
    case Send(c) =>
      if Trying(s, c) && s.calls[c].sends < MAX_ATTEMPTS
      then s.(calls := s.calls[c := s.calls[c].(sends := s.calls[c].sends + 1)]) else s
    case FailSend(c) =>
      if Trying(s, c) && s.calls[c].sends < MAX_ATTEMPTS then SetStatus(s, c, Failed) else s
    case Receive(d) =>
      var seen := s.(wire := s.wire + [d]);
      // Untagged datagrams are requests; nothing here waits for them.
      if !IsReply(d.id) || !Delivers(s.slots, ToRequest(d.id), d.from) then seen
      else
        var c := s.slots[ToRequest(d.id)].call;
        var freed := seen.(slots := s.slots - {ToRequest(d.id)});
        if c < |s.calls| && s.calls[c].status.Waiting? then SetStatus(freed, c, Delivered(d.payload)) else freed
    case Take(c) =>
      if Live(s, c) && s.calls[c].status.Delivered? then SetStatus(s, c, Resolved(s.calls[c].status.payload))
      else if Live(s, c) && s.calls[c].status.Closed? then SetStatus(s, c, Panicked)
      else s
    case GiveUp(c) =>
      if Trying(s, c) && s.calls[c].sends == MAX_ATTEMPTS then SetStatus(s, c, TimedOut) else s
    case Drop(c) =>
      // A finished call returns, or a caller abandons it: the response is dropped and its id freed.
      if Live(s, c) then
        var id := s.calls[c].id;
        var closed := if id in s.slots then Some(s.slots[id].call) else None;
        s.(calls := Orphan(s.calls[c := s.calls[c].(dropped := true)], closed), slots := s.slots - {id})
      else s
  }

  function RunFrom(s: State, steps: seq<Step>): State {
    if steps == [] then s else Next(RunFrom(s, steps[..|steps| - 1]), steps[|steps| - 1])
  }

  function Initial(): State {
    State(map[], [], [])
  }

  /** Some reply-tagged datagram with this id and payload came from this peer. */
  ghost predicate Answered(wire: seq<Datagram>, id: RequestId, peer: Address, payload: Bytes) {
    exists i :: 0 <= i < |wire| && IsReply(wire[i].id) && ToRequest(wire[i].id) == id && wire[i].from == peer &&
      wire[i].payload == payload
  }

  ghost predicate CallOk(s: State, c: Call) {
    && c.sends <= MAX_ATTEMPTS
    && (c.status.Delivered? || c.status.Resolved? ==> Answered(s.wire, c.id, c.peer, c.status.payload))
    && (c.status.TimedOut? ==> c.sends == MAX_ATTEMPTS)
  }

  /** `slot` belongs to a live call with this id that has not been answered. */
  ghost predicate SlotFits(s: State, id: RequestId, slot: Slot) {
    slot.call < |s.calls| && OwnsSlot(s.calls[slot.call], id, slot.expectedPeer)
  }

  ghost predicate OwnsSlot(c: Call, id: RequestId, peer: Address) {
    c.id == id && c.peer == peer && !c.dropped && (c.status.Waiting? || c.status.TimedOut? || c.status.Failed?)
  }

  ghost predicate SlotOk(s: State, id: RequestId) {
    id in s.slots ==> SlotFits(s, id, s.slots[id])
  }

  /** Call `c`'s own slot is in the table. */
  ghost predicate HasSlot(s: State, c: nat) {
    c < |s.calls| && s.calls[c].id in s.slots && s.slots[s.calls[c].id] == Slot(s.calls[c].peer, c)
  }

  ghost predicate StateOk(s: State) {
    && (forall k :: 0 <= k < |s.calls| ==> CallOk(s, s.calls[k]))
    && (forall id :: SlotOk(s, id))
    && (forall k :: 0 <= k < |s.calls| && !s.calls[k].dropped && s.calls[k].status.Waiting? ==> HasSlot(s, k))
  }

  lemma AnsweredMore(wire: seq<Datagram>, d: Datagram, id: RequestId, peer: Address, payload: Bytes)
    requires Answered(wire, id, peer, payload)
    ensures Answered(wire + [d], id, peer, payload)
  {
    var i :| 0 <= i < |wire| && IsReply(wire[i].id) && ToRequest(wire[i].id) == id && wire[i].from == peer &&
      wire[i].payload == payload;
    assert (wire + [d])[i] == wire[i];
  }

  lemma ReceiveKeeps(s: State, d: Datagram)
    requires StateOk(s)
    ensures StateOk(Next(s, Receive(d)))
  {
    var n := Next(s, Receive(d));
    forall k | 0 <= k < |s.calls| && (s.calls[k].status.Delivered? || s.calls[k].status.Resolved?)
      ensures Answered(n.wire, s.calls[k].id, s.calls[k].peer, s.calls[k].status.payload)
    {
      assert CallOk(s, s.calls[k]);
      AnsweredMore(s.wire, d, s.calls[k].id, s.calls[k].peer, s.calls[k].status.payload);
    }
    if IsReply(d.id) && Delivers(s.slots, ToRequest(d.id), d.from) {
      assert SlotOk(s, ToRequest(d.id));
      assert n.wire[|s.wire|] == d;
    }
    forall id
      ensures SlotOk(n, id)
    {
      assert SlotOk(s, id) && SlotOk(s, ToRequest(d.id));
    }
    forall k | 0 <= k < |n.calls| && !n.calls[k].dropped && n.calls[k].status.Waiting? ensures HasSlot(n, k) {
      assert HasSlot(s, k);
    }
  }

  lemma DropKeeps(s: State, c: nat)
    requires StateOk(s)
    ensures StateOk(Next(s, Drop(c)))
  {
    var n := Next(s, Drop(c));
    if Live(s, c) {
      var gone := s.calls[c].id;
      assert SlotOk(s, gone);
      forall k | 0 <= k < |n.calls| ensures CallOk(n, n.calls[k]) {
        assert CallOk(s, s.calls[k]);
      }
      forall id ensures SlotOk(n, id) {
        assert SlotOk(s, id);
      }
      forall k | 0 <= k < |n.calls| && !n.calls[k].dropped && n.calls[k].status.Waiting? ensures HasSlot(n, k) {
        assert HasSlot(s, k);
      }
    }
  }

  lemma StepKeeps(s: State, step: Step)
    requires StateOk(s)
    ensures StateOk(Next(s, step))
  {
    if step.Receive? {
      ReceiveKeeps(s, step.datagram);
    } else if step.Drop? {
      DropKeeps(s, step.call);
    } else {
      var n := Next(s, step);
      forall id ensures SlotOk(n, id) {
        assert SlotOk(s, id);
      }
      forall k | 0 <= k < |n.calls| && !n.calls[k].dropped && n.calls[k].status.Waiting? ensures HasSlot(n, k) {
        if k < |s.calls| { assert HasSlot(s, k); }
      }
    }
  }

  /**
   * In every run: no call sends more than five times, times out with fewer, or is handed anything
   * but the payload of a reply-tagged datagram of its id from the peer it asked; and a call that
   * waits has its slot.
   */
  lemma {:induction false} CallsMatched(steps: seq<Step>)
    ensures StateOk(RunFrom(Initial(), steps))
  {
    if steps != [] {
      CallsMatched(steps[..|steps| - 1]);
      StepKeeps(RunFrom(Initial(), steps[..|steps| - 1]), steps[|steps| - 1]);
    }
  }

  /** What can become of a call: same id and peer, a result once taken never replaced, one once delivered never changed. */
  ghost predicate Evolves(a: Call, b: Call) {
    && b.id == a.id && b.peer == a.peer
    && (a.status.Resolved? || a.status.Panicked? ==> b.status == a.status)
    && (a.status.Delivered? ==> !b.status.Waiting? && !b.status.Closed? && !b.status.Panicked?)
    && (a.status.Delivered? && (b.status.Delivered? || b.status.Resolved?) ==> b.status.payload == a.status.payload)
  }

  lemma EvolvesStep(s: State, step: Step, c: nat)
    requires c < |s.calls|
    ensures |s.calls| <= |Next(s, step).calls| && Evolves(s.calls[c], Next(s, step).calls[c])
  {
  }

  /** Through every run: a call keeps its id and peer, and a result once taken is never replaced. */
  lemma {:induction false} ResolvedOnce(s: State, steps: seq<Step>, c: nat)
    requires c < |s.calls|
    ensures |s.calls| <= |RunFrom(s, steps).calls| && Evolves(s.calls[c], RunFrom(s, steps).calls[c])
  {
    if steps != [] {
      ResolvedOnce(s, steps[..|steps| - 1], c);
      EvolvesStep(RunFrom(s, steps[..|steps| - 1]), steps[|steps| - 1], c);
    }
  }

  /** A step that can end the wait of call `c`: its peer's tagged reply, a drop of its id, or its own giving up. */
  ghost predicate Disturbs(s: State, step: Step, c: nat) {
    c < |s.calls| &&
    match step
    case Receive(d) => IsReply(d.id) && ToRequest(d.id) == s.calls[c].id && d.from == s.calls[c].peer
    case Drop(a) => Live(s, a) && s.calls[a].id == s.calls[c].id
    case FailSend(a) => a == c
    case GiveUp(a) => a == c
    case _ => false
  }

  /** No step of the run is such a step. */
  ghost predicate Undisturbed(s: State, steps: seq<Step>, c: nat) {
    steps == [] ||
    (Undisturbed(s, steps[..|steps| - 1], c) && !Disturbs(RunFrom(s, steps[..|steps| - 1]), steps[|steps| - 1], c))
  }

  ghost predicate Waits(s: State, c: nat) {
    HasSlot(s, c) && s.calls[c].status.Waiting? && !s.calls[c].dropped
  }

  lemma UndisturbedStep(s: State, step: Step, c: nat)
    requires StateOk(s) && Waits(s, c) && !Disturbs(s, step, c)
    ensures Waits(Next(s, step), c)
  {
    if step.Receive? { assert SlotOk(s, ToRequest(step.datagram.id)); }
    if step.Drop? && Live(s, step.call) { assert SlotOk(s, s.calls[step.call].id); }
  }

  /** Through any run, whatever else arrives, a waiting call keeps its slot and waits until one of those steps. */
  lemma {:induction false} WaitsUntilDisturbed(s: State, steps: seq<Step>, c: nat)
    requires StateOk(s) && Waits(s, c) && Undisturbed(s, steps, c)
    ensures StateOk(RunFrom(s, steps)) && Waits(RunFrom(s, steps), c)
  {
    if steps != [] {
      var before := RunFrom(s, steps[..|steps| - 1]);
      WaitsUntilDisturbed(s, steps[..|steps| - 1], c);
      StepKeeps(before, steps[|steps| - 1]);
      UndisturbedStep(before, steps[|steps| - 1], c);
    }
  }

  /** A tagged datagram of a waiting call's id, from the peer it asked, is what the call gets. */
  lemma MatchDelivers(s: State, c: nat, d: Datagram)
    requires StateOk(s) && Waits(s, c)
    requires IsReply(d.id) && ToRequest(d.id) == s.calls[c].id && d.from == s.calls[c].peer
    ensures Next(s, Receive(d)).calls[c].status == Delivered(d.payload)
  {
  }

  /* ---- no call panics, if ids are not reused too early ---- */

  /** No response that has not been dropped yet carries `id`, answered or not. */
  predicate Unused(s: State, id: RequestId) {
    forall c :: 0 <= c < |s.calls| && !s.calls[c].dropped ==> s.calls[c].id != id
  }

  /** Responses not yet dropped have different ids, and none has lost its slot or panicked over that. */
  ghost predicate NoPanic(s: State) {
    && (forall c, d :: 0 <= c < d < |s.calls| && !s.calls[c].dropped && !s.calls[d].dropped ==> s.calls[c].id != s.calls[d].id)
    && (forall c :: 0 <= c < |s.calls| ==> !s.calls[c].status.Closed? && !s.calls[c].status.Panicked?)
  }

  lemma NoPanicStep(s: State, step: Step)
    requires StateOk(s) && NoPanic(s)
    requires step.Start? ==> Unused(s, ToRequest(step.random))
    ensures NoPanic(Next(s, step))
  {
    if step.Drop? && Live(s, step.call) { assert SlotOk(s, s.calls[step.call].id); }
  }

  /** Every id drawn in the run was unused when it was drawn. */
  ghost predicate FreshIds(steps: seq<Step>) {
    forall i :: 0 <= i < |steps| && steps[i].Start? ==> Unused(RunFrom(Initial(), steps[..i]), ToRequest(steps[i].random))
  }

  /** Then no call ever loses its slot while it waits, so unwrapping what it awaits never panics. */
  lemma {:induction false} NeverPanics(steps: seq<Step>)
    requires FreshIds(steps)
    ensures NoPanic(RunFrom(Initial(), steps))
  {
    if steps != [] {
      var n := |steps| - 1;
      var before := steps[..n];
      assert forall i :: 0 <= i < n ==> before[i] == steps[i] && before[..i] == steps[..i];
      NeverPanics(before);
      CallsMatched(before);
      NoPanicStep(RunFrom(Initial(), before), steps[n]);
    }
  }

  /**
   * The condition is exact: a call that was let in goes on waiting whichever other response is
   * dropped next if and only if its id was unused.
   */
  lemma UnusedIff(s: State, random: RequestId, peer: Address)
    requires StateOk(s) && ToRequest(random) !in s.slots
    ensures Unused(s, ToRequest(random)) <==>
            forall a :: 0 <= a < |s.calls| ==> Next(Next(s, Start(random, peer)), Drop(a)).calls[|s.calls|].status.Waiting?
    ensures !Unused(s, ToRequest(random)) <==>
            exists a :: 0 <= a < |s.calls| &&
              Next(Next(Next(s, Start(random, peer)), Drop(a)), Take(|s.calls|)).calls[|s.calls|].status.Panicked?
  {
    var id := ToRequest(random);
    var t := Next(s, Start(random, peer));
    StepKeeps(s, Start(random, peer));
    forall a | 0 <= a < |s.calls|
      ensures Next(t, Drop(a)).calls[|s.calls|].status.Waiting? <==> s.calls[a].dropped || s.calls[a].id != id
      ensures Next(Next(t, Drop(a)), Take(|s.calls|)).calls[|s.calls|].status.Panicked? <==> !s.calls[a].dropped && s.calls[a].id == id
    {
      assert t.calls[a] == s.calls[a];
      assert SlotOk(t, t.calls[a].id);
    }
  }

  /** The run that panics: answered, not yet dropped, its id drawn again, dropped, and the second call polled. */
  lemma CallCanPanic()
    ensures exists steps: seq<Step>, c :: var s := RunFrom(Initial(), steps); 0 <= c < |s.calls| && s.calls[c].status.Panicked?
  {
    var first := [Start(7, "a")];
    var answered := first + [Receive(Datagram(ToReply(7), "a", []))];
    var again := answered + [Start(7, "b")];
    var lost := again + [Drop(0)];
    var polled := lost + [Take(1)];
    assert RunFrom(Initial(), first) == Next(Initial(), Start(7, "a")) by { assert first[..0] == []; }
    assert answered[..1] == first && again[..2] == answered && lost[..3] == again && polled[..4] == lost;
    assert RunFrom(Initial(), first).slots == map[7 := Slot("a", 0)];
    assert RunFrom(Initial(), answered).slots == map[];
    assert RunFrom(Initial(), again).slots == map[7 := Slot("b", 1)];
    assert RunFrom(Initial(), lost).calls[1].status.Closed?;
    assert RunFrom(Initial(), polled).calls[1].status.Panicked?;
  }

  /* ---- the transport takes these steps ---- */

  /** How `send_receive` ends; `Refused` is an id in use, after which it draws another. */
  datatype CallResult = Refused | Replied(payload: Bytes) | Panic | SendFailed | NoReply

  /** A step only the caller of `c` takes. */
  predicate Own(step: Step, c: nat) {
    match step
    case Send(a) => a == c
    case FailSend(a) => a == c
    case Take(a) => a == c
    case GiveUp(a) => a == c
    case Drop(a) => a == c
    case _ => false
  }

  predicate NoneOwn(steps: seq<Step>, c: nat) {
    forall i :: 0 <= i < |steps| ==> !Own(steps[i], c)
  }

  /** Call `c` is in its resend loop, with this id and peer, after this many sends. */
  ghost predicate Resending(s: State, c: nat, id: RequestId, peer: Address, sends: nat) {
    Trying(s, c) && s.calls[c].id == id && s.calls[c].peer == peer && s.calls[c].sends == sends
  }

  lemma OthersStep(s: State, step: Step, c: nat, id: RequestId, peer: Address, sends: nat)
    requires Resending(s, c, id, peer, sends) && !Own(step, c)
    ensures Resending(Next(s, step), c, id, peer, sends)
  {
  }

  /** What others do meanwhile leaves a call in its loop. */
  lemma {:induction false} OthersRun(s: State, steps: seq<Step>, c: nat, id: RequestId, peer: Address, sends: nat)
    requires Resending(s, c, id, peer, sends) && NoneOwn(steps, c)
    ensures Resending(RunFrom(s, steps), c, id, peer, sends)
  {
    if steps != [] {
      OthersRun(s, steps[..|steps| - 1], c, id, peer, sends);
      OthersStep(RunFrom(s, steps[..|steps| - 1]), steps[|steps| - 1], c, id, peer, sends);
    }
  }

  lemma {:induction false} RunConcat(s: State, a: seq<Step>, b: seq<Step>)
    ensures RunFrom(s, a + b) == RunFrom(RunFrom(s, a), b)
    decreases |b|
  {
    if b == [] {
      assert a + b == a;
    } else {
      var n := |b| - 1;
      RunConcat(s, a, b[..n]);
      RunOne(s, a + b[..n], b[n]);
      assert a + b == a + b[..n] + [b[n]];
    }
  }

  lemma RunOne(s: State, a: seq<Step>, step: Step)
    ensures RunFrom(s, a + [step]) == Next(RunFrom(s, a), step)
  {
    assert (a + [step])[..|a|] == a;
  }

  lemma {:induction false} RunKeeps(s: State, steps: seq<Step>)
    requires StateOk(s)
    ensures StateOk(RunFrom(s, steps))
  {
    if steps != [] {
      RunKeeps(s, steps[..|steps| - 1]);
      StepKeeps(RunFrom(s, steps[..|steps| - 1]), steps[|steps| - 1]);
    }
  }

  /** The state a call that ended with `res` after `n` sends leaves behind. */
  ghost predicate Ended(s: State, c: nat, id: RequestId, peer: Address, n: nat, res: CallResult) {
    && c < |s.calls| && s.calls[c].id == id && s.calls[c].peer == peer && s.calls[c].dropped && s.calls[c].sends == n <= MAX_ATTEMPTS
    && match res
       case Refused => false
       case Replied(p) => s.calls[c].status == Resolved(p) && Answered(s.wire, id, peer, p)
       case Panic => s.calls[c].status.Panicked?
       case SendFailed => s.calls[c].status.Failed? && n < MAX_ATTEMPTS
       case NoReply => s.calls[c].status.TimedOut? && n == MAX_ATTEMPTS
  }

  /** The step that ends a call with `res`. */
  function LastStep(c: nat, res: CallResult): Step {
    match res
    case SendFailed => FailSend(c)
    case NoReply => GiveUp(c)
    case _ => Take(c)
  }

  ghost predicate CanEnd(s: State, c: nat, n: nat, res: CallResult)
    requires c < |s.calls|
  {
    match res
    case Refused => false
    case Replied(p) => s.calls[c].status == Delivered(p)
    case Panic => s.calls[c].status.Closed?
    case SendFailed => n < MAX_ATTEMPTS
    case NoReply => n == MAX_ATTEMPTS
  }

  /** What a call that ends with `res` leaves of `s`: its last step, and then its response is dropped. */
  ghost function Left(s: State, c: nat, res: CallResult): State {
    Next(Next(s, LastStep(c, res)), Drop(c))
  }

  /** The last two steps of a call: the one that decides it, and dropping its response. */
  lemma EndsWith(s: State, c: nat, id: RequestId, peer: Address, n: nat, res: CallResult)
    requires StateOk(s) && Resending(s, c, id, peer, n) && n <= MAX_ATTEMPTS && CanEnd(s, c, n, res)
    ensures Ended(Left(s, c, res), c, id, peer, n, res)
  {
    assert CallOk(s, s.calls[c]);
  }

  /* ---- which attempt decides a call ---- */

  /** The state after call `c`, started in `s`, made `n` sends, each followed by what others did in its wait. */
  ghost function AfterAttempts(s: State, c: nat, others: nat -> seq<Step>, n: nat): State {
    if n == 0 then s else RunFrom(Next(AfterAttempts(s, c, others, n - 1), Send(c)), others(n - 1))
  }

  /** `after(i + 1)` is what `after(i)` becomes by a send of call `c` and the wait that follows it. */
  ghost predicate OneAttempt(after: nat -> State, c: nat, others: nat -> seq<Step>, i: nat) {
    after(i + 1) == RunFrom(Next(after(i), Send(c)), others(i))
  }

  ghost function At(after: nat -> State, n: nat): State {
    after(n)
  }

  ghost predicate Attempts(after: nat -> State, c: nat, others: nat -> seq<Step>) {
    forall i :: OneAttempt(after, c, others, i)
  }

  ghost function Unrolled(s: State, c: nat, others: nat -> seq<Step>): (after: nat -> State)
    ensures after(0) == s && Attempts(after, c, others)
  {
    var after := (n: nat) => AfterAttempts(s, c, others, n);
    assert forall i :: OneAttempt(after, c, others, i);
    after
  }

  /** A result is there for call `c`: a payload, or the loss of its slot. */
  ghost predicate Ready(s: State, c: nat) {
    c < |s.calls| && (s.calls[c].status.Delivered? || s.calls[c].status.Closed?)
  }

  ghost predicate Gets(s: State, c: nat, status: Status) {
    c < |s.calls| && s.calls[c].status == status
  }

  /** What a wait that ends with this status decides, `late` if the timer is chosen. */
  function Verdict(status: Status, late: bool): Option<CallResult> {
    if late then None
    else match status
      case Delivered(p) => Some(Replied(p))
      case Closed => Some(Panic)
      case _ => None
  }

  /** In each of the first `n` waits nothing came, or the timer was chosen. */
  ghost predicate PassedOver(after: nat -> State, c: nat, timer: nat -> bool, n: nat) {
    forall i :: 0 <= i < n ==> timer(i) || !Ready(after(i + 1), c)
  }

  /** The first `n` attempts went out and decided nothing. */
  ghost predicate Undecided(after: nat -> State, c: nat, sends: nat -> bool, timer: nat -> bool, n: nat) {
    (forall i :: 0 <= i < n ==> sends(i)) && PassedOver(after, c, timer, n)
  }

  /**
   * A call ends at the first attempt whose send fails or whose wait ends with a result that is
   * chosen over the timer, and gives up when five attempts had neither; `n` sends were made.
   */
  ghost predicate Decided(after: nat -> State, c: nat, sends: nat -> bool, timer: nat -> bool, n: nat, res: CallResult) {
    && (forall i :: 0 <= i < n ==> sends(i))
    && match res
       case Refused => false
       case Replied(p) => 0 < n <= 5 && PassedOver(after, c, timer, n - 1) && !timer(n - 1) && Gets(after(n), c, Delivered(p))
       case Panic => 0 < n <= 5 && PassedOver(after, c, timer, n - 1) && !timer(n - 1) && Gets(after(n), c, Closed)
       case SendFailed => n < 5 && !sends(n) && PassedOver(after, c, timer, n)
       case NoReply => n == 5 && PassedOver(after, c, timer, n)
  }

  lemma PassedOverMore(after: nat -> State, c: nat, sends: nat -> bool, timer: nat -> bool, n: nat)
    requires Undecided(after, c, sends, timer, n) && sends(n) && (timer(n) || !Ready(after(n + 1), c))
    ensures Undecided(after, c, sends, timer, n + 1)
  {
  }

  lemma Decides(after: nat -> State, c: nat, sends: nat -> bool, timer: nat -> bool, n: nat, res: CallResult)
    requires Undecided(after, c, sends, timer, n) && n < 5 && sends(n) && !timer(n)
    requires match res
             case Replied(p) => Gets(after(n + 1), c, Delivered(p))
             case Panic => Gets(after(n + 1), c, Closed)
             case _ => false
    ensures Decided(after, c, sends, timer, n + 1, res)
  {
  }

  lemma DeliveredStep(s: State, step: Step, c: nat, p: Bytes)
    requires Gets(s, c, Delivered(p)) && !Own(step, c)
    ensures Gets(Next(s, step), c, Delivered(p))
  {
  }

  /** Once delivered, a reply stays until its caller takes it. */
  lemma {:induction false} StaysDelivered(s: State, steps: seq<Step>, c: nat, p: Bytes)
    requires Gets(s, c, Delivered(p)) && NoneOwn(steps, c)
    ensures Gets(RunFrom(s, steps), c, Delivered(p))
  {
    if steps != [] {
      StaysDelivered(s, steps[..|steps| - 1], c, p);
      DeliveredStep(RunFrom(s, steps[..|steps| - 1]), steps[|steps| - 1], c, p);
    }
  }

  lemma ReplyArrives(s: State, before: seq<Step>, c: nat, d: Datagram)
    requires StateOk(s) && Waits(s, c) && Undisturbed(s, before, c)
    requires IsReply(d.id) && ToRequest(d.id) == s.calls[c].id && d.from == s.calls[c].peer
    ensures Gets(RunFrom(s, before + [Receive(d)]), c, Delivered(d.payload))
  {
    WaitsUntilDisturbed(s, before, c);
    ResolvedOnce(s, before, c);
    MatchDelivers(RunFrom(s, before), c, d);
    RunOne(s, before, Receive(d));
  }

  /** A reply that comes while the call waits is there when the wait ends, whatever comes after it. */
  lemma ReplyIsThere(s: State, before: seq<Step>, d: Datagram, rest: seq<Step>, c: nat)
    requires StateOk(s) && Waits(s, c) && Undisturbed(s, before, c) && NoneOwn(rest, c)
    requires IsReply(d.id) && ToRequest(d.id) == s.calls[c].id && d.from == s.calls[c].peer
    ensures Gets(RunFrom(s, before + [Receive(d)] + rest), c, Delivered(d.payload))
  {
    ReplyArrives(s, before, c, d);
    RunConcat(s, before + [Receive(d)], rest);
    StaysDelivered(RunFrom(s, before + [Receive(d)]), rest, c, d.payload);
  }

  /** Call `c` waits after `n` sends. */
  ghost predicate WaitsAfter(s: State, c: nat, id: RequestId, peer: Address, n: nat) {
    StateOk(s) && Waits(s, c) && s.calls[c].sends == n && s.calls[c].id == id && s.calls[c].peer == peer
  }

  lemma SendWaits(t: State, c: nat, id: RequestId, peer: Address, n: nat)
    requires WaitsAfter(t, c, id, peer, n) && n < MAX_ATTEMPTS
    ensures WaitsAfter(Next(t, Send(c)), c, id, peer, n + 1)
  {
    StepKeeps(t, Send(c));
  }

  lemma QuietWait(s: State, steps: seq<Step>, c: nat, id: RequestId, peer: Address, n: nat)
    requires WaitsAfter(s, c, id, peer, n) && Undisturbed(s, steps, c) && NoneOwn(steps, c)
    ensures WaitsAfter(RunFrom(s, steps), c, id, peer, n)
  {
    WaitsUntilDisturbed(s, steps, c);
    OthersRun(s, steps, c, id, peer, n);
  }

  /** Nothing happens to call `c` in the wait of attempt `j`. */
  ghost predicate Quiet(after: nat -> State, c: nat, others: nat -> seq<Step>, j: nat) {
    Undisturbed(Next(after(j), Send(c)), others(j), c)
  }

  lemma {:induction false} StillWaiting(after: nat -> State, c: nat, others: nat -> seq<Step>, id: RequestId, peer: Address, i: nat)
    requires Attempts(after, c, others) && WaitsAfter(after(0), c, id, peer, 0) && i <= 5
    requires forall j :: NoneOwn(others(j), c)
    requires forall j :: 0 <= j < i ==> Quiet(after, c, others, j)
    ensures WaitsAfter(after(i), c, id, peer, i)
  {
    if i > 0 {
      var j: nat := i - 1;
      StillWaiting(after, c, others, id, peer, j);
      SendWaits(after(j), c, id, peer, j);
      assert Quiet(after, c, others, j) && OneAttempt(after, c, others, j);
      QuietWait(Next(after(j), Send(c)), others(j), c, id, peer, i);
    }
  }

  /**
   * The reply that first disturbs a call, in the wait of attempt `i`, is its result after `i + 1`
   * sends, unless the timer is chosen there.
   */
  lemma FirstReplyWins(after: nat -> State, c: nat, sends: nat -> bool, others: nat -> seq<Step>, timer: nat -> bool, n: nat,
                       res: CallResult, i: nat, before: seq<Step>, d: Datagram, rest: seq<Step>)
    requires Attempts(after, c, others) && Decided(after, c, sends, timer, n, res)
    requires StateOk(after(0)) && Waits(after(0), c) && after(0).calls[c].sends == 0
    requires forall j :: NoneOwn(others(j), c)
    requires i < 5 && (forall j :: 0 <= j <= i ==> sends(j)) && forall j :: 0 <= j < i ==> Quiet(after, c, others, j)
    requires others(i) == before + [Receive(d)] + rest && Undisturbed(Next(after(i), Send(c)), before, c) && !timer(i)
    requires IsReply(d.id) && ToRequest(d.id) == after(0).calls[c].id && d.from == after(0).calls[c].peer
    ensures res == Replied(d.payload) && n == i + 1
  {
    var id, peer := after(0).calls[c].id, after(0).calls[c].peer;
    StillWaiting(after, c, others, id, peer, i);
    SendWaits(after(i), c, id, peer, i);
    NoneOwnRest(others(i), before + [Receive(d)], rest, c);
    ReplyIsThere(Next(after(i), Send(c)), before, d, rest, c);
    assert OneAttempt(after, c, others, i);
    forall j | 0 <= j <= i ensures !Ready(after(j), c) {
      StillWaiting(after, c, others, id, peer, j);
    }
    DecidedAt(after, c, sends, timer, n, res, i, d.payload);
  }

  lemma NoneOwnRest(steps: seq<Step>, before: seq<Step>, rest: seq<Step>, c: nat)
    requires steps == before + rest && NoneOwn(steps, c)
    ensures NoneOwn(rest, c)
  {
    assert forall i :: 0 <= i < |rest| ==> rest[i] == steps[|before| + i];
  }

  /** The first attempt with a result that is chosen decides. */
  lemma DecidedAt(after: nat -> State, c: nat, sends: nat -> bool, timer: nat -> bool, n: nat, res: CallResult, i: nat, p: Bytes)
    requires Decided(after, c, sends, timer, n, res) && i < 5 && !timer(i) && Gets(after(i + 1), c, Delivered(p))
    requires forall j :: 0 <= j <= i ==> !Ready(after(j), c)
    requires forall j :: 0 <= j <= i ==> sends(j)
    ensures res == Replied(p) && n == i + 1
  {
    assert Ready(after(i + 1), c);
    assert 0 < n <= i ==> !Ready(after(n), c);
  }

  /** The transport: its slot table, and for each call what its caller finds. */
  class Transport {
    const pending: PendingTable
    var calls: seq<Call>
    ghost var wire: seq<Datagram>

    ghost function View(): State
      reads this, pending
    {
      State(pending.slots, calls, wire)
    }

    constructor ()
      ensures View() == Initial() && fresh(pending)
    {
      pending := new PendingTable();
      calls, wire := [], [];
    }

    /** Registers a call under a random id; refused when the id is in use, and the caller draws again. */
    method Begin(random: RequestId, peer: Address) returns (ok: bool)
      modifies this, pending
      ensures View() == Next(old(View()), Start(random, peer))
      ensures ok == (ToRequest(random) !in old(pending.slots))
    {
      ok := pending.Register(ToRequest(random), Slot(peer, |calls|));
      if ok { calls := calls + [Call(ToRequest(random), peer, 0, Waiting, false)]; }
    }

    /** One turn of the receive loop. */
    method OnDatagram(d: Datagram)
      modifies this, pending
      ensures View() == Next(old(View()), Receive(d))
    {
      wire := wire + [d];
      if !IsReply(d.id) { return; }
      var c := pending.Deliver(ToRequest(d.id), d.from);
      if c.Some? && c.value < |calls| && calls[c.value].status.Waiting? {
        calls := calls[c.value := calls[c.value].(status := Delivered(d.payload))];
      }
    }

    /** The receive loop, for as long as datagrams come. */
    method ReceiveAll(datagrams: seq<Datagram>)
      modifies this, pending
      ensures View() == RunFrom(old(View()), Receives(datagrams))
    {
      for i := 0 to |datagrams|
        invariant View() == RunFrom(old(View()), Receives(datagrams[..i]))
      {
        assert Receives(datagrams[..i + 1])[..i] == Receives(datagrams[..i]);
        OnDatagram(datagrams[i]);
      }
      assert datagrams[..|datagrams|] == datagrams;
    }

    method Transmit(c: nat)
      modifies this
      ensures View() == Next(old(View()), Send(c))
    {
      if Trying(State(pending.slots, calls, []), c) && calls[c].sends < MAX_ATTEMPTS {
        calls := calls[c := calls[c].(sends := calls[c].sends + 1)];
      }
    }

    method FailTransmit(c: nat)
      modifies this
      ensures View() == Next(old(View()), FailSend(c))
    {
      if Trying(State(pending.slots, calls, []), c) && calls[c].sends < MAX_ATTEMPTS {
        calls := calls[c := calls[c].(status := Failed)];
      }
    }

    /** The await comes back: with the payload, or with nothing, which unwrapping turns into a panic. */
    method Poll(c: nat)
      modifies this
      ensures View() == Next(old(View()), Take(c))
    {
      if c >= |calls| || calls[c].dropped { return; }
      if calls[c].status.Delivered? {
        calls := calls[c := calls[c].(status := Resolved(calls[c].status.payload))];
      } else if calls[c].status.Closed? {
        calls := calls[c := calls[c].(status := Panicked)];
      }
    }

    method Expire(c: nat)
      modifies this
      ensures View() == Next(old(View()), GiveUp(c))
    {
      if Trying(State(pending.slots, calls, []), c) && calls[c].sends == MAX_ATTEMPTS {
        calls := calls[c := calls[c].(status := TimedOut)];
      }
    }

    /** Whatever the receive loop and other callers do, in this order. */
    method Perform(steps: seq<Step>)
      modifies this, pending
      ensures View() == RunFrom(old(View()), steps)
    {
      for i := 0 to |steps|
        invariant View() == RunFrom(old(View()), steps[..i])
      {
        RunOne(old(View()), steps[..i], steps[i]);
        assert steps[..i + 1] == steps[..i] + [steps[i]];
        match steps[i] {
          case Start(random, peer) => var ok := Begin(random, peer);
          case Send(c) => Transmit(c);
          case FailSend(c) => FailTransmit(c);
          case Receive(d) => OnDatagram(d);
          case Take(c) => Poll(c);
          case GiveUp(c) => Expire(c);
          case Drop(c) => Finish(c);
        }
      }
      assert steps[..|steps|] == steps;
    }

    /**
     * `send_receive`: `sends(i)` says whether send `i` goes out, `others(i)` is what everyone else
     * does until its wait ends, and `timer(i)` whether the timer is chosen over a result that is
     * there. `trace` is everything that happened, with `sent` sends; `after(i)` is the state after
     * the start and the first `i` sends and their waits.
     */
    method SendReceive(random: RequestId, peer: Address, sends: nat -> bool, others: nat -> seq<Step>, timer: nat -> bool)
      returns (res: CallResult, trace: seq<Step>, sent: nat, ghost after: nat -> State)
      requires StateOk(View()) && forall i :: NoneOwn(others(i), |calls|)
      modifies this, pending
      ensures View() == RunFrom(old(View()), trace) && StateOk(View())
      ensures res.Refused? <==> ToRequest(random) in old(pending.slots)
      ensures res.Refused? ==> trace == [Start(random, peer)] && View() == old(View())
      ensures !res.Refused? ==> Ended(View(), |old(calls)|, ToRequest(random), peer, sent, res)
      ensures after(0) == Next(old(View()), Start(random, peer)) && Attempts(after, |old(calls)|, others)
      ensures !res.Refused? ==> Decided(after, |old(calls)|, sends, timer, sent, res)
      ensures !res.Refused? ==> View() == Left(At(after, sent), |old(calls)|, res)
    {
      ghost var first := View();
      var c := |calls|;
      var ok := Begin(random, peer);
      trace := [Start(random, peer)];
      assert trace[..0] == [];
      StepKeeps(first, Start(random, peer));
      after := Unrolled(View(), c, others);
      if !ok { return Refused, trace, 0, after; }
      res, trace, sent := Resend(first, trace, after, c, ToRequest(random), peer, sends, others, timer);
    }

    /** The resend loop of a call that was just started. */
    method Resend(ghost first: State, before: seq<Step>, ghost after: nat -> State, c: nat, ghost id: RequestId, ghost peer: Address,
                  sends: nat -> bool, others: nat -> seq<Step>, timer: nat -> bool)
      returns (res: CallResult, trace: seq<Step>, sent: nat)
      requires View() == RunFrom(first, before) && StateOk(View()) && Resending(View(), c, id, peer, 0)
      requires View() == At(after, 0) && Attempts(after, c, others) && forall i :: NoneOwn(others(i), c)
      modifies this, pending
      ensures View() == RunFrom(first, trace) && StateOk(View())
      ensures Ended(View(), c, id, peer, sent, res) && Decided(after, c, sends, timer, sent, res)
      ensures View() == Left(At(after, sent), c, res)
    {
      trace, sent := before, 0;
      while sent < MAX_ATTEMPTS
        invariant sent <= MAX_ATTEMPTS && View() == RunFrom(first, trace) && StateOk(View())
        invariant View() == At(after, sent) && Resending(View(), c, id, peer, sent)
        invariant Undecided(after, c, sends, timer, sent)
      {
        if !sends(sent) {
          trace := Decide(first, trace, c, id, peer, sent, SendFailed);
          return SendFailed, trace, sent;
        }
        trace := Attempt(first, trace, after, others, c, id, peer, sent);
        var verdict := Verdict(calls[c].status, timer(sent));
        if verdict.Some? {
          Decides(after, c, sends, timer, sent, verdict.value);
          trace := Decide(first, trace, c, id, peer, sent + 1, verdict.value);
          return verdict.value, trace, sent + 1;
        }
        PassedOverMore(after, c, sends, timer, sent);
        sent := sent + 1;
      }
      trace := Decide(first, trace, c, id, peer, sent, NoReply);
      res := NoReply;
    }

    /** One send, and what others do until its wait ends. */
    method Attempt(ghost first: State, before: seq<Step>, ghost after: nat -> State, others: nat -> seq<Step>, c: nat,
                   ghost id: RequestId, ghost peer: Address, n: nat)
      returns (trace: seq<Step>)
      requires View() == RunFrom(first, before) && StateOk(View()) && NoneOwn(others(n), c)
      requires View() == At(after, n) && Attempts(after, c, others) && Resending(View(), c, id, peer, n) && n < MAX_ATTEMPTS
      modifies this, pending
      ensures View() == RunFrom(first, trace) && View() == At(after, n + 1)
      ensures StateOk(View()) && Resending(View(), c, id, peer, n + 1)
    {
      ghost var s := View();
      assert OneAttempt(after, c, others, n);
      Transmit(c);
      Perform(others(n));
      trace := before + [Send(c)] + others(n);
      RunOne(first, before, Send(c));
      RunConcat(first, before + [Send(c)], others(n));
      StepKeeps(s, Send(c));
      RunKeeps(Next(s, Send(c)), others(n));
      OthersRun(Next(s, Send(c)), others(n), c, id, peer, n + 1);
    }

    /** The deciding step, after which the response is dropped. */
    method Decide(ghost first: State, before: seq<Step>, c: nat, ghost id: RequestId, ghost peer: Address, ghost n: nat, res: CallResult)
      returns (trace: seq<Step>)
      requires View() == RunFrom(first, before) && StateOk(View()) && Resending(View(), c, id, peer, n) && n <= MAX_ATTEMPTS
      requires CanEnd(View(), c, n, res)
      modifies this, pending
      ensures View() == RunFrom(first, trace) && View() == Left(old(View()), c, res)
      ensures StateOk(View()) && Ended(View(), c, id, peer, n, res)
    {
      ghost var s := View();
      var step := LastStep(c, res);
      Perform([step]);
      Finish(c);
      trace := before + [step] + [Drop(c)];
      assert [step][..0] == [];
      RunOne(first, before, step);
      RunOne(first, before + [step], Drop(c));
      StepKeeps(s, step);
      StepKeeps(Next(s, step), Drop(c));
      EndsWith(s, c, id, peer, n, res);
    }

    /** Dropping a response frees its id and closes whatever waits under it by now. */
    method Finish(c: nat)
      modifies this, pending
      ensures View() == Next(old(View()), Drop(c))
    {
      if c >= |calls| || calls[c].dropped { return; }
      var closed := pending.Release(calls[c].id);
      calls := Orphan(calls[c := calls[c].(dropped := true)], closed);
    }
  }

  function Receives(datagrams: seq<Datagram>): (steps: seq<Step>)
    ensures |steps| == |datagrams| && forall i :: 0 <= i < |steps| ==> steps[i] == Receive(datagrams[i])
  {
    seq(|datagrams|, i requires 0 <= i < |datagrams| => Receive(datagrams[i]))
  }
}
