/** The memoising layer: its generation counter under any interleaving, and the cache run alone. */
module Cache {
  import opened Keys

  /* ---- readers and writers interleaved ---- */

  /** A cached answer, the generation its reader loaded, and the table state it was computed from. */
  datatype Entry<A> = Entry(answer: A, generation: nat, state: nat)

  /**
   * How far a reader is with a computed answer: it has made no room yet, found the map full, has
   * swept out stale entries, found it full still, or has made room and inserts next.
   */
  datatype Phase = Computing | Full | Swept | Overfull | Ready

  /** Where a reader is; `start` is how many invalidating writes were complete when it began. */
  datatype Reader<A> =
    | Began(id: NodeId, start: nat)
    | Loaded(id: NodeId, start: nat, generation: nat)
    | Querying(id: NodeId, start: nat, generation: nat, answer: A, state: nat, phase: Phase)

  /** An answer given to a reader. */
  datatype Served<A> = Served(id: NodeId, answer: A, start: nat, state: nat)

  /**
   * How a cache is built. With `everyWrite`, additions invalidate as removals do; without it, only
   * removals do (`ttl_only`).
   */
  datatype Setup<!T, !A> = Setup(inner: (T, NodeId) -> A, capacity: nat, everyWrite: bool)

  /**
   * The table was `first` and then, after write number `k`, `later[k]`. `pending` are the
   * invalidating writes that have not bumped the generation yet; `bumped` lists those that have,
   * in the order they did. The generation is the length of `bumped`.
   */
  datatype State<T, A> = State(
    first: T, later: seq<T>, pending: set<nat>, bumped: seq<nat>,
    entries: map<NodeId, Entry<A>>, readers: map<nat, Reader<A>>, served: seq<Served<A>>)

  datatype Step<T> =
    | Write(after: T, removes: bool)
    | Bump(write: nat)
    | Begin(reader: nat, id: NodeId)
    | Load(reader: nat)
    | Hit(reader: nat)
    | Miss(reader: nat)
    | Measure(reader: nat)
    | Sweep(reader: nat, keep: set<NodeId>)
    | Wipe(reader: nat)
    | Insert(reader: nat)
    | Clear

  /** The table after its first `k` writes. */
  ghost function TableAt<T, A>(s: State<T, A>, k: nat): T
    requires k <= |s.later|
  {
    if k == 0 then s.first else s.later[k - 1]
  }

  ghost predicate At<T, A>(s: State<T, A>, r: nat, phase: Phase) {
    r in s.readers && s.readers[r].Querying? && s.readers[r].phase == phase
  }

  ghost function Turn<T, A>(s: State<T, A>, r: nat, phase: Phase): State<T, A>
    requires r in s.readers && s.readers[r].Querying?
  {
    s.(readers := s.readers[r := s.readers[r].(phase := phase)])
  }

  /** One atomic action; one that cannot happen now changes nothing. */
  ghost function Next<T, A>(c: Setup<T, A>, s: State<T, A>, step: Step<T>): State<T, A> {
    match step
    case Write(after, removes) =>
      s.(later := s.later + [after], pending := if removes || c.everyWrite then s.pending + {|s.later|} else s.pending)
    case Bump(i) =>
      if i in s.pending then s.(pending := s.pending - {i}, bumped := s.bumped + [i]) else s
    case Begin(r, id) =>
      if r in s.readers then s else s.(readers := s.readers[r := Began(id, |s.bumped|)])
    case Load(r) =>
      if r in s.readers && s.readers[r].Began?
      then s.(readers := s.readers[r := Loaded(s.readers[r].id, s.readers[r].start, |s.bumped|)]) else s
    case Hit(r) =>
      // The entry is fresh: same generation, and not yet expired.
      if r in s.readers && s.readers[r].Loaded? && s.readers[r].id in s.entries &&
         s.entries[s.readers[r].id].generation == s.readers[r].generation
      then
        var e := s.entries[s.readers[r].id];
        s.(readers := s.readers - {r}, served := s.served + [Served(s.readers[r].id, e.answer, s.readers[r].start, e.state)])
      else s
    case Miss(r) =>
      // No entry, another generation, or expired: the table is asked.
      if r in s.readers && s.readers[r].Loaded?
      then
        var q := s.readers[r];
        var answer := c.inner(TableAt(s, |s.later|), q.id);
        s.(readers := s.readers[r := Querying(q.id, q.start, q.generation, answer, |s.later|, Computing)])
      else s
    case Measure(r) =>
      if At(s, r, Computing) then Turn(s, r, if |s.entries| < c.capacity then Ready else Full)
      else if At(s, r, Swept) then Turn(s, r, if |s.entries| < c.capacity then Ready else Overfull)
      else s
    case Sweep(r, keep) =>
      // Drops stale and expired entries; any may be.
      if At(s, r, Full) then Turn(s, r, Swept).(entries := map k | k in s.entries && k in keep :: s.entries[k]) else s
    case Wipe(r) =>
      if At(s, r, Overfull) then Turn(s, r, Ready).(entries := map[]) else s
    case Insert(r) =>
      if At(s, r, Ready) then
        var q := s.readers[r];
        s.(readers := s.readers - {r}, entries := s.entries[q.id := Entry(q.answer, q.generation, q.state)],
           served := s.served + [Served(q.id, q.answer, q.start, q.state)])
      else s
    case Clear => s.(entries := map[])
  }

  ghost function RunAll<T, A>(c: Setup<T, A>, first: T, steps: seq<Step<T>>): State<T, A> {
    if steps == [] then State(first, [], {}, [], map[], map[], [])
    else Next(c, RunAll(c, first, steps[..|steps| - 1]), steps[|steps| - 1])
  }

  /** The first `g` invalidating writes to complete are among the first `state` writes. */
  ghost predicate Reflects(bumped: seq<nat>, g: nat, state: nat) {
    g <= |bumped| && forall i :: 0 <= i < g ==> bumped[i] < state
  }

  /** `answer` is what the table answered after its first `state` writes, the first `g` invalidating ones included. */
  ghost predicate Computed<T, A>(c: Setup<T, A>, s: State<T, A>, id: NodeId, answer: A, g: nat, state: nat) {
    state <= |s.later| && answer == c.inner(TableAt(s, state), id) && Reflects(s.bumped, g, state)
  }

  ghost predicate ReaderOk<T, A>(c: Setup<T, A>, s: State<T, A>, r: Reader<A>) {
    match r
    case Began(_, start) => start <= |s.bumped|
    case Loaded(_, start, g) => start <= g <= |s.bumped|
    case Querying(id, start, g, answer, state, _) => start <= g && Computed(c, s, id, answer, g, state)
  }

  ghost predicate WritesOk<T, A>(c: Setup<T, A>, s: State<T, A>) {
    && (forall i :: i in s.pending ==> i < |s.later|)
    && Reflects(s.bumped, |s.bumped|, |s.later|)
    && (c.everyWrite ==> forall i :: 0 <= i < |s.later| ==> i in s.pending || i in s.bumped)
  }

  ghost predicate StateOk<T, A>(c: Setup<T, A>, s: State<T, A>) {
    && WritesOk(c, s)
    && (forall id :: id in s.entries ==> Computed(c, s, id, s.entries[id].answer, s.entries[id].generation, s.entries[id].state))
    && (forall r :: r in s.readers ==> ReaderOk(c, s, s.readers[r]))
    && (forall k :: 0 <= k < |s.served| ==>
          Computed(c, s, s.served[k].id, s.served[k].answer, s.served[k].start, s.served[k].state))
  }

  /** What was computed stays so when the table is written and when writes complete. */
  lemma ComputedStays<T, A>(c: Setup<T, A>, s: State<T, A>, n: State<T, A>, id: NodeId, answer: A, g: nat, state: nat)
    requires Computed(c, s, id, answer, g, state)
    requires n.first == s.first && s.later <= n.later && s.bumped <= n.bumped
    ensures Computed(c, n, id, answer, g, state)
  {
  }

  lemma WriteStep<T, A>(c: Setup<T, A>, s: State<T, A>, step: Step<T>)
    requires StateOk(c, s) && (step.Write? || step.Bump?)
    ensures StateOk(c, Next(c, s, step))
  {
    var n := Next(c, s, step);
    forall id | id in n.entries
      ensures Computed(c, n, id, n.entries[id].answer, n.entries[id].generation, n.entries[id].state)
    {
      ComputedStays(c, s, n, id, s.entries[id].answer, s.entries[id].generation, s.entries[id].state);
    }
    forall r | r in n.readers ensures ReaderOk(c, n, n.readers[r]) {
      assert ReaderOk(c, s, s.readers[r]);
      match n.readers[r]
      case Querying(id, start, g, answer, state, _) => ComputedStays(c, s, n, id, answer, g, state);
      case _ =>
    }
    forall k | 0 <= k < |n.served|
      ensures Computed(c, n, n.served[k].id, n.served[k].answer, n.served[k].start, n.served[k].state)
    {
      var v := s.served[k];
      ComputedStays(c, s, n, v.id, v.answer, v.start, v.state);
    }
    if step.Bump? && step.write in s.pending {
      assert forall i :: i in s.bumped ==> i in n.bumped;
      assert n.bumped[|s.bumped|] == step.write;
    }
  }

  /** Steps that neither write the table nor complete a write leave what was computed alone. */
  lemma ComputedSame<T, A>(c: Setup<T, A>, s: State<T, A>, n: State<T, A>)
    requires n.first == s.first && s.later == n.later && s.bumped == n.bumped
    ensures forall id, answer, g, state :: Computed(c, s, id, answer, g, state) ==> Computed(c, n, id, answer, g, state)
  {
  }

  lemma ReaderStep<T, A>(c: Setup<T, A>, s: State<T, A>, step: Step<T>)
    requires StateOk(c, s) && (step.Begin? || step.Load? || step.Hit? || step.Miss? || step.Measure?)
    ensures StateOk(c, Next(c, s, step))
  {
    ComputedSame(c, s, Next(c, s, step));
  }

  lemma EntryStep<T, A>(c: Setup<T, A>, s: State<T, A>, step: Step<T>)
    requires StateOk(c, s) && (step.Sweep? || step.Wipe? || step.Insert? || step.Clear?)
    ensures StateOk(c, Next(c, s, step))
  {
    ComputedSame(c, s, Next(c, s, step));
  }

  lemma StepKeeps<T, A>(c: Setup<T, A>, s: State<T, A>, step: Step<T>)
    requires StateOk(c, s)
    ensures StateOk(c, Next(c, s, step))
  {
    if step.Write? || step.Bump? {
      WriteStep(c, s, step);
    } else if step.Sweep? || step.Wipe? || step.Insert? || step.Clear? {
      EntryStep(c, s, step);
    } else {
      ReaderStep(c, s, step);
    }
  }

  /**
   * Whatever the interleaving, an answer served is what the table answered for that id in a state
   * that includes every invalidating write complete when its read began.
   */
  lemma {:induction false} ServedAreCurrent<T, A>(c: Setup<T, A>, first: T, steps: seq<Step<T>>)
    ensures StateOk(c, RunAll(c, first, steps))
    ensures var s := RunAll(c, first, steps);
            forall k :: 0 <= k < |s.served| ==>
              && s.served[k].state <= |s.later|
              && s.served[k].answer == c.inner(TableAt(s, s.served[k].state), s.served[k].id)
              && s.served[k].start <= |s.bumped|
              && forall i :: 0 <= i < s.served[k].start ==> s.bumped[i] < s.served[k].state
  {
    if steps != [] {
      ServedAreCurrent(c, first, steps[..|steps| - 1]);
      StepKeeps(c, RunAll(c, first, steps[..|steps| - 1]), steps[|steps| - 1]);
    }
  }

  lemma BumpedStep<T, A>(c: Setup<T, A>, s: State<T, A>, step: Step<T>)
    ensures s.bumped <= Next(c, s, step).bumped
  {
  }

  lemma {:induction false} BumpedGrows<T, A>(c: Setup<T, A>, first: T, steps: seq<Step<T>>, m: nat)
    requires m <= |steps|
    ensures RunAll(c, first, steps[..m]).bumped <= RunAll(c, first, steps).bumped
    decreases |steps| - m
  {
    if m == |steps| {
      assert steps[..m] == steps;
    } else {
      BumpedGrows(c, first, steps, m + 1);
      assert steps[..m + 1][..m] == steps[..m];
      BumpedStep(c, RunAll(c, first, steps[..m]), steps[m]);
    }
  }

  /**
   * In the strict mode, a read that begins when no write is pending is served an answer that
   * reflects every write made until then.
   */
  lemma StrictMissesNothing<T, A>(c: Setup<T, A>, first: T, steps: seq<Step<T>>, m: nat, k: nat)
    requires c.everyWrite && m <= |steps| && k < |RunAll(c, first, steps).served|
    requires RunAll(c, first, steps[..m]).pending == {}
    requires RunAll(c, first, steps).served[k].start >= |RunAll(c, first, steps[..m]).bumped|
    ensures RunAll(c, first, steps).served[k].state >= |RunAll(c, first, steps[..m]).later|
  {
    var s, n := RunAll(c, first, steps[..m]), RunAll(c, first, steps);
    ServedAreCurrent(c, first, steps[..m]);
    ServedAreCurrent(c, first, steps);
    BumpedGrows(c, first, steps, m);
    if s.later != [] {
      var w := |s.later| - 1;
      assert w in s.pending || w in s.bumped;
      var i :| 0 <= i < |s.bumped| && s.bumped[i] == w;
      assert n.bumped[i] == w;
    }
  }

  /* ---- a read that nothing interrupts ---- */

  /** Served from an entry of the current generation, it changes nothing. */
  lemma HitAlone<T, A>(c: Setup<T, A>, s: State<T, A>, r: nat, id: NodeId)
    requires r !in s.readers && id in s.entries && s.entries[id].generation == |s.bumped|
    ensures Next(c, Next(c, Next(c, s, Begin(r, id)), Load(r)), Hit(r)) ==
            s.(served := s.served + [Served(id, s.entries[id].answer, |s.bumped|, s.entries[id].state)])
  {
    var n := Next(c, Next(c, s, Begin(r, id)), Load(r));
    assert n.readers == s.readers[r := Loaded(id, |s.bumped|, |s.bumped|)];
    assert n.readers - {r} == s.readers;
  }

  /** The reader that asked the table in `s`, before making room. */
  ghost function Asked<T, A>(c: Setup<T, A>, s: State<T, A>, id: NodeId, phase: Phase): Reader<A> {
    Querying(id, |s.bumped|, |s.bumped|, c.inner(TableAt(s, |s.later|), id), |s.later|, phase)
  }

  lemma AskAlone<T, A>(c: Setup<T, A>, s: State<T, A>, r: nat, id: NodeId)
    requires r !in s.readers
    ensures AfterAsk(c, s, r, id) == s.(readers := s.readers[r := Asked(c, s, id, Computing)])
  {
    var n := Next(c, Next(c, s, Begin(r, id)), Load(r));
    assert n.readers == s.readers[r := Loaded(id, |s.bumped|, |s.bumped|)];
  }

  /** What making room leaves of `entries` if the sweep keeps `keep`. */
  ghost function RoomMade<A>(entries: map<NodeId, Entry<A>>, capacity: nat, keep: set<NodeId>): map<NodeId, Entry<A>> {
    var kept := map k | k in entries && k in keep :: entries[k];
    if |entries| < capacity then entries else if |kept| < capacity then kept else map[]
  }

  ghost function AfterAsk<T, A>(c: Setup<T, A>, s: State<T, A>, r: nat, id: NodeId): State<T, A> {
    Next(c, Next(c, Next(c, s, Begin(r, id)), Load(r)), Miss(r))
  }

  ghost function AfterRoom<T, A>(c: Setup<T, A>, s: State<T, A>, r: nat, keep: set<NodeId>): State<T, A> {
    Next(c, Next(c, Next(c, Next(c, s, Measure(r)), Sweep(r, keep)), Measure(r)), Wipe(r))
  }

  lemma SweptAlone<T, A>(c: Setup<T, A>, s: State<T, A>, r: nat)
    requires At(s, r, Swept)
    ensures Next(c, Next(c, s, Measure(r)), Wipe(r)) ==
            Turn(s, r, Ready).(entries := if |s.entries| < c.capacity then s.entries else map[])
  {
  }

  lemma RoomAlone<T, A>(c: Setup<T, A>, s: State<T, A>, r: nat, keep: set<NodeId>)
    requires At(s, r, Computing)
    ensures AfterRoom(c, s, r, keep) == Turn(s, r, Ready).(entries := RoomMade(s.entries, c.capacity, keep))
  {
    var m := Next(c, s, Measure(r));
    if |s.entries| < c.capacity {
      assert m == Turn(s, r, Ready);
    } else {
      assert m == Turn(s, r, Full);
      SweptAlone(c, Next(c, m, Sweep(r, keep)), r);
    }
  }

  lemma InsertAlone<T, A>(c: Setup<T, A>, s: State<T, A>, room: State<T, A>, r: nat, id: NodeId)
    requires r !in s.readers && room == s.(entries := room.entries, readers := s.readers[r := Asked(c, s, id, Ready)])
    ensures Next(c, room, Insert(r)) ==
            var q := Asked(c, s, id, Ready);
            s.(entries := room.entries[id := Entry(q.answer, q.generation, q.state)],
               served := s.served + [Served(id, q.answer, q.start, q.state)])
  {
    assert room.readers - {r} == s.readers;
  }

  /** A miss asks the table, makes room and remembers the answer under the generation it loaded. */
  lemma MissAlone<T, A>(c: Setup<T, A>, s: State<T, A>, r: nat, id: NodeId, keep: set<NodeId>)
    requires r !in s.readers
    ensures var answer := c.inner(TableAt(s, |s.later|), id);
            Next(c, AfterRoom(c, AfterAsk(c, s, r, id), r, keep), Insert(r)) ==
            s.(entries := RoomMade(s.entries, c.capacity, keep)[id := Entry(answer, |s.bumped|, |s.later|)],
               served := s.served + [Served(id, answer, |s.bumped|, |s.later|)])
  {
    AskAlone(c, s, r, id);
    var asked := s.(readers := s.readers[r := Asked(c, s, id, Computing)]);
    RoomAlone(c, asked, r, keep);
    InsertAlone(c, s, Turn(asked, r, Ready).(entries := RoomMade(s.entries, c.capacity, keep)), r, id);
  }

  /* ---- how many entries there can be ---- */

  /** The readers that have made room and not inserted yet. */
  ghost function Inserting<T, A>(s: State<T, A>): set<nat> {
    set r | r in s.readers && At(s, r, Ready)
  }

  /** Never more than `n` readers are between making room and inserting. */
  ghost predicate Overlaps<T, A>(c: Setup<T, A>, first: T, steps: seq<Step<T>>, n: nat) {
    && |Inserting(RunAll(c, first, steps))| <= n
    && (steps == [] || Overlaps(c, first, steps[..|steps| - 1], n))
  }

  /** What making room leaves at most. */
  function Room(capacity: nat): nat {
    if capacity == 0 then 0 else capacity - 1
  }

  /** The entries, and the inserts that are already allowed, stay within the room left and the overlap. */
  ghost predicate Bounded<T, A>(c: Setup<T, A>, s: State<T, A>, n: nat) {
    |s.entries| + |Inserting(s)| <= Room(c.capacity) + n
  }

  lemma AtMostOneMore<V>(m: map<NodeId, V>, k: NodeId, v: V)
    ensures |m[k := v]| <= |m| + 1
  {
    assert m[k := v].Keys == m.Keys + {k};
  }

  lemma OneLess<X>(a: set<X>, x: X)
    requires x in a
    ensures |a - {x}| == |a| - 1
  {
  }

  lemma InsertBounded<T, A>(c: Setup<T, A>, s: State<T, A>, r: nat, n: nat)
    requires Bounded(c, s, n) && At(s, r, Ready)
    ensures Bounded(c, Next(c, s, Insert(r)), n)
  {
    var q, t := s.readers[r], Next(c, s, Insert(r));
    AfterInsert(c, s, r);
    OneLess(Inserting(s), r);
    AtMostOneMore(s.entries, q.id, Entry(q.answer, q.generation, q.state));
  }

  lemma AfterInsert<T, A>(c: Setup<T, A>, s: State<T, A>, r: nat)
    requires At(s, r, Ready)
    ensures var t := Next(c, s, Insert(r));
            && t.readers == s.readers - {r} && Inserting(t) == Inserting(s) - {r} && r in Inserting(s)
            && t.entries.Keys == s.entries.Keys + {s.readers[r].id}
  {
  }

  /** A step that leaves no more entries, and no more readers inserting, keeps the bound. */
  lemma FewerBounded<T, A>(c: Setup<T, A>, s: State<T, A>, t: State<T, A>, n: nat)
    requires Bounded(c, s, n) && t.entries.Keys <= s.entries.Keys && Inserting(t) <= Inserting(s)
    ensures Bounded(c, t, n)
  {
    Smaller(t.entries.Keys, s.entries.Keys);
    Smaller(Inserting(t), Inserting(s));
  }

  lemma Smaller<X>(a: set<X>, b: set<X>)
    requires a <= b
    ensures |a| <= |b|
  {
    assert b == a + (b - a);
  }

  /** Which steps let a reader insert: only a measure that found room, and wiping the map. */
  lemma OthersInsertNoMore<T, A>(c: Setup<T, A>, s: State<T, A>, step: Step<T>)
    requires !step.Insert? && !step.Measure? && !step.Wipe?
    ensures Next(c, s, step).entries.Keys <= s.entries.Keys && Inserting(Next(c, s, step)) <= Inserting(s)
  {
  }

  lemma BoundedStep<T, A>(c: Setup<T, A>, s: State<T, A>, step: Step<T>, n: nat)
    requires Bounded(c, s, n) && |Inserting(Next(c, s, step))| <= n
    ensures Bounded(c, Next(c, s, step), n)
  {
    var t := Next(c, s, step);
    match step
    case Insert(r) => if At(s, r, Ready) { InsertBounded(c, s, r, n); }
    case Measure(r) =>
      if !(|s.entries| < c.capacity) { FewerBounded(c, s, t, n); }
    case Wipe(r) => if !At(s, r, Overfull) { FewerBounded(c, s, t, n); }
    case _ =>
      OthersInsertNoMore(c, s, step);
      FewerBounded(c, s, t, n);
  }

  /**
   * In every run: with at most `n` readers between making room and inserting, the entries never
   * exceed the capacity by more than `n - 1`, or hold more than `n` when the capacity is 0.
   */
  lemma {:induction false} EntriesBounded<T, A>(c: Setup<T, A>, first: T, steps: seq<Step<T>>, n: nat)
    requires Overlaps(c, first, steps, n)
    ensures Bounded(c, RunAll(c, first, steps), n)
    ensures |RunAll(c, first, steps).entries| <= Room(c.capacity) + n
  {
    if steps == [] {
      assert Inserting(RunAll(c, first, steps)) == {};
    } else {
      EntriesBounded(c, first, steps[..|steps| - 1], n);
      BoundedStep(c, RunAll(c, first, steps[..|steps| - 1]), steps[|steps| - 1], n);
    }
  }

  /* ---- and how many there are when two readers overlap ---- */

  /** The run ends in `s` and never has more than `n` readers inserting. */
  ghost predicate Reaches<T, A>(c: Setup<T, A>, first: T, steps: seq<Step<T>>, s: State<T, A>, n: nat) {
    RunAll(c, first, steps) == s && Overlaps(c, first, steps, n)
  }

  lemma Onward<T, A>(c: Setup<T, A>, first: T, steps: seq<Step<T>>, s: State<T, A>, step: Step<T>, n: nat)
    requires Reaches(c, first, steps, s, n) && |Inserting(Next(c, s, step))| <= n
    ensures Reaches(c, first, steps + [step], Next(c, s, step), n)
  {
    assert (steps + [step])[..|steps|] == steps;
  }

  /** Of the readers inserting, a change to one reader changes at most that one. */
  lemma OneReader<T, A>(s: State<T, A>, t: State<T, A>, r: nat, v: Reader<A>)
    requires t.readers == s.readers[r := v] && !At(s, r, Ready)
    ensures Inserting(t) == if v.Querying? && v.phase == Ready then Inserting(s) + {r} else Inserting(s)
  {
  }

  lemma Begins<T, A>(c: Setup<T, A>, first: T, steps: seq<Step<T>>, s: State<T, A>, r: nat, id: NodeId, n: nat)
    returns (all: seq<Step<T>>, t: State<T, A>)
    requires Reaches(c, first, steps, s, n) && r !in s.readers
    ensures Reaches(c, first, all, t, n) && t.entries == s.entries && Inserting(t) == Inserting(s)
    ensures r in t.readers && t.readers == s.readers[r := t.readers[r]] && t.readers[r].Began? && t.readers[r].id == id
  {
    all, t := steps + [Begin(r, id)], Next(c, s, Begin(r, id));
    OneReader(s, t, r, t.readers[r]);
    Onward(c, first, steps, s, Begin(r, id), n);
  }

  lemma Loads<T, A>(c: Setup<T, A>, first: T, steps: seq<Step<T>>, s: State<T, A>, r: nat, n: nat)
    returns (all: seq<Step<T>>, t: State<T, A>)
    requires Reaches(c, first, steps, s, n) && r in s.readers && s.readers[r].Began?
    ensures Reaches(c, first, all, t, n) && t.entries == s.entries && Inserting(t) == Inserting(s)
    ensures r in t.readers && t.readers == s.readers[r := t.readers[r]] && t.readers[r].Loaded? && t.readers[r].id == s.readers[r].id
  {
    all, t := steps + [Load(r)], Next(c, s, Load(r));
    OneReader(s, t, r, t.readers[r]);
    Onward(c, first, steps, s, Load(r), n);
  }

  lemma Misses<T, A>(c: Setup<T, A>, first: T, steps: seq<Step<T>>, s: State<T, A>, r: nat, n: nat)
    returns (all: seq<Step<T>>, t: State<T, A>)
    requires Reaches(c, first, steps, s, n) && r in s.readers && s.readers[r].Loaded?
    ensures Reaches(c, first, all, t, n) && t.entries == s.entries && Inserting(t) == Inserting(s)
    ensures At(t, r, Computing) && t.readers == s.readers[r := t.readers[r]] && t.readers[r].id == s.readers[r].id
  {
    all, t := steps + [Miss(r)], Next(c, s, Miss(r));
    OneReader(s, t, r, t.readers[r]);
    Onward(c, first, steps, s, Miss(r), n);
  }

  /** A new reader that finds no fresh entry, asks the table and finds room may insert, with the rest as it was. */
  lemma Arrives<T, A>(c: Setup<T, A>, first: T, steps: seq<Step<T>>, s: State<T, A>, r: nat, id: NodeId, n: nat)
    returns (all: seq<Step<T>>, t: State<T, A>)
    requires Reaches(c, first, steps, s, n) && r !in s.readers
    requires |s.entries| < c.capacity && |Inserting(s)| < n
    ensures Reaches(c, first, all, t, n) && t.entries == s.entries && Inserting(t) == Inserting(s) + {r}
    ensures At(t, r, Ready) && t.readers == s.readers[r := t.readers[r]] && t.readers[r].id == id
  {
    var a, u := Begins(c, first, steps, s, r, id, n);
    var b, v := Loads(c, first, a, u, r, n);
    var d, w := Misses(c, first, b, v, r, n);
    all, t := Measures(c, first, d, w, r, n);
  }

  lemma Measures<T, A>(c: Setup<T, A>, first: T, steps: seq<Step<T>>, s: State<T, A>, r: nat, n: nat)
    returns (all: seq<Step<T>>, t: State<T, A>)
    requires Reaches(c, first, steps, s, n) && At(s, r, Computing) && |s.entries| < c.capacity && |Inserting(s)| < n
    ensures Reaches(c, first, all, t, n) && t.entries == s.entries && Inserting(t) == Inserting(s) + {r}
    ensures At(t, r, Ready) && t.readers == s.readers[r := t.readers[r]] && t.readers[r].id == s.readers[r].id
  {
    all, t := steps + [Measure(r)], Next(c, s, Measure(r));
    OneReader(s, t, r, t.readers[r]);
    Onward(c, first, steps, s, Measure(r), n);
  }

  /** A reader that has made room inserts and is gone. */
  lemma Inserts<T, A>(c: Setup<T, A>, first: T, steps: seq<Step<T>>, s: State<T, A>, r: nat, n: nat)
    returns (all: seq<Step<T>>, t: State<T, A>)
    requires Reaches(c, first, steps, s, n) && At(s, r, Ready)
    ensures Reaches(c, first, all, t, n) && t.readers == s.readers - {r} && Inserting(t) == Inserting(s) - {r}
    ensures t.entries.Keys == s.entries.Keys + {s.readers[r].id}
  {
    all, t := steps + [Insert(r)], Next(c, s, Insert(r));
    AfterInsert(c, s, r);
    OneLess(Inserting(s), r);
    Onward(c, first, steps, s, Insert(r), n);
  }

  ghost predicate Distinct(ids: seq<NodeId>) {
    forall i, j :: 0 <= i < j < |ids| ==> ids[i] != ids[j]
  }

  ghost function FirstIds(ids: seq<NodeId>, k: nat): set<NodeId>
    requires k <= |ids|
  {
    if k == 0 then {} else FirstIds(ids, k - 1) + {ids[k - 1]}
  }

  /** Nobody is reading, and exactly the first `k` of `ids` are cached. */
  ghost predicate Holds<T, A>(s: State<T, A>, ids: seq<NodeId>, k: nat)
    requires k <= |ids|
  {
    s.readers == map[] && s.entries.Keys == FirstIds(ids, k)
  }

  lemma {:induction false} Count(ids: seq<NodeId>, k: nat)
    requires Distinct(ids) && k <= |ids|
    ensures |FirstIds(ids, k)| == k
    ensures forall i :: k <= i < |ids| ==> ids[i] !in FirstIds(ids, k)
  {
    if k > 0 { Count(ids, k - 1); }
  }

  lemma HoldsCount<T, A>(s: State<T, A>, ids: seq<NodeId>, k: nat)
    requires Distinct(ids) && k <= |ids| && Holds(s, ids, k)
    ensures |s.entries| == k && Inserting(s) == {}
  {
    Count(ids, k);
    assert |s.entries| == |s.entries.Keys|;
  }

  /** Readers one after the other fill the cache with as many targets, up to its capacity. */
  lemma {:induction false} Fills<T, A>(c: Setup<T, A>, first: T, ids: seq<NodeId>, k: nat)
    returns (steps: seq<Step<T>>, s: State<T, A>)
    requires Distinct(ids) && k <= |ids| && k <= c.capacity
    ensures Reaches(c, first, steps, s, 1) && Holds(s, ids, k)
  {
    if k == 0 {
      steps, s := [], RunAll(c, first, []);
      assert Inserting(s) == {};
    } else {
      var before, u := Fills(c, first, ids, k - 1);
      steps, s := FillsOne(c, first, before, u, ids, k - 1);
    }
  }

  lemma FillsOne<T, A>(c: Setup<T, A>, first: T, before: seq<Step<T>>, u: State<T, A>, ids: seq<NodeId>, k: nat)
    returns (steps: seq<Step<T>>, s: State<T, A>)
    requires Distinct(ids) && k < |ids| && k < c.capacity
    requires Reaches(c, first, before, u, 1) && Holds(u, ids, k)
    ensures Reaches(c, first, steps, s, 1) && Holds(s, ids, k + 1)
  {
    HoldsCount(u, ids, k);
    var arrived, t := Arrives(c, first, before, u, 0, ids[k], 1);
    steps, s := Inserts(c, first, arrived, t, 0, 1);
  }

  lemma {:induction false} OverlapsMore<T, A>(c: Setup<T, A>, first: T, steps: seq<Step<T>>, n: nat, m: nat)
    requires Overlaps(c, first, steps, n) && n <= m
    ensures Overlaps(c, first, steps, m)
  {
    if steps != [] { OverlapsMore(c, first, steps[..|steps| - 1], n, m); }
  }

  lemma ReachesMore<T, A>(c: Setup<T, A>, first: T, steps: seq<Step<T>>, s: State<T, A>, n: nat, m: nat)
    requires Reaches(c, first, steps, s, n) && n <= m
    ensures Reaches(c, first, steps, s, m)
  {
    OverlapsMore(c, first, steps, n, m);
  }

  /** Two readers find room in a map one short of full, then both insert. */
  lemma BothInsert<T, A>(c: Setup<T, A>, first: T, before: seq<Step<T>>, u: State<T, A>, ids: seq<NodeId>, k: nat)
    returns (steps: seq<Step<T>>, s: State<T, A>)
    requires Distinct(ids) && k + 1 < |ids| && k < c.capacity
    requires Reaches(c, first, before, u, 2) && Holds(u, ids, k)
    ensures Reaches(c, first, steps, s, 2) && Holds(s, ids, k + 2)
  {
    HoldsCount(u, ids, k);
    var one, t := Arrives(c, first, before, u, 0, ids[k], 2);
    assert Inserting(t) == {0};
    var two, v := Arrives(c, first, one, t, 1, ids[k + 1], 2);
    steps, s := InsertsTwo(c, first, two, v, ids, k);
  }

  lemma InsertsTwo<T, A>(c: Setup<T, A>, first: T, before: seq<Step<T>>, u: State<T, A>, ids: seq<NodeId>, k: nat)
    returns (steps: seq<Step<T>>, s: State<T, A>)
    requires k + 1 < |ids| && Reaches(c, first, before, u, 2) && u.entries.Keys == FirstIds(ids, k) && u.readers.Keys == {0, 1}
    requires At(u, 0, Ready) && u.readers[0].id == ids[k] && At(u, 1, Ready) && u.readers[1].id == ids[k + 1]
    ensures Reaches(c, first, steps, s, 2) && Holds(s, ids, k + 2)
  {
    var one, w := Inserts(c, first, before, u, 0, 2);
    steps, s := Inserts(c, first, one, w, 1, 2);
    assert s.readers.Keys == {};
  }

  /** Two readers that overlap can exceed every capacity. */
  lemma CapacityCanBeExceeded<T, A>(c: Setup<T, A>, first: T, ids: seq<NodeId>) returns (steps: seq<Step<T>>)
    requires c.capacity >= 1 && Distinct(ids) && |ids| == c.capacity + 1
    ensures Overlaps(c, first, steps, 2) && |RunAll(c, first, steps).entries| == c.capacity + 1
  {
    var s;
    steps, s := FillsOver(c, first, ids, c.capacity - 1);
    HoldsCount(s, ids, c.capacity + 1);
  }

  lemma FillsOver<T, A>(c: Setup<T, A>, first: T, ids: seq<NodeId>, k: nat) returns (steps: seq<Step<T>>, s: State<T, A>)
    requires Distinct(ids) && k + 1 < |ids| && k < c.capacity
    ensures Reaches(c, first, steps, s, 2) && Holds(s, ids, k + 2)
  {
    var before, u := Fills(c, first, ids, k);
    ReachesMore(c, first, before, u, 1, 2);
    steps, s := BothInsert(c, first, before, u, ids, k);
  }

  /** A step that moves only the phase of one reader, not yet inserting, keeps the run within its overlap. */
  lemma Turns<T, A>(c: Setup<T, A>, first: T, steps: seq<Step<T>>, s: State<T, A>, step: Step<T>, r: nat, phase: Phase, n: nat)
    requires Reaches(c, first, steps, s, n) && r in s.readers && s.readers[r].Querying? && !At(s, r, Ready)
    requires Next(c, s, step).readers == Turn(s, r, phase).readers
    requires phase == Ready ==> |Inserting(s)| < n
    ensures Reaches(c, first, steps + [step], Next(c, s, step), n)
    ensures Inserting(Next(c, s, step)) == if phase == Ready then Inserting(s) + {r} else Inserting(s)
  {
    OneReader(s, Next(c, s, step), r, s.readers[r].(phase := phase));
    Onward(c, first, steps, s, step, n);
  }

  /** With capacity 0 the map is full even when empty; after sweeping and wiping it, the reader inserts. */
  lemma ZeroHoldsOne<T, A>(c: Setup<T, A>, first: T, id: NodeId) returns (steps: seq<Step<T>>)
    requires c.capacity == 0
    ensures Overlaps(c, first, steps, 1) && |RunAll(c, first, steps).entries| == 1
  {
    var s0 := RunAll(c, first, []);
    assert Inserting(s0) == {};
    var a, u := Begins(c, first, [], s0, 0, id, 1);
    var b, v := Loads(c, first, a, u, 0, 1);
    var d, w := Misses(c, first, b, v, 0, 1);
    var e, x := Sweeps(c, first, d, w, 0);
    var f, z := Wipes(c, first, e, x, 0);
    var y;
    steps, y := Inserts(c, first, f, z, 0, 1);
    assert |y.entries| == |y.entries.Keys| && y.entries.Keys == {id};
  }

  lemma Sweeps<T, A>(c: Setup<T, A>, first: T, steps: seq<Step<T>>, s: State<T, A>, r: nat)
    returns (all: seq<Step<T>>, t: State<T, A>)
    requires Reaches(c, first, steps, s, 1) && At(s, r, Computing) && c.capacity == 0 && Inserting(s) == {}
    ensures Reaches(c, first, all, t, 1) && At(t, r, Swept) && Inserting(t) == {} && t.readers[r].id == s.readers[r].id
  {
    var full := Next(c, s, Measure(r));
    Turns(c, first, steps, s, Measure(r), r, Full, 1);
    all, t := steps + [Measure(r)] + [Sweep(r, {})], Next(c, full, Sweep(r, {}));
    Turns(c, first, steps + [Measure(r)], full, Sweep(r, {}), r, Swept, 1);
  }

  lemma Wipes<T, A>(c: Setup<T, A>, first: T, steps: seq<Step<T>>, s: State<T, A>, r: nat)
    returns (all: seq<Step<T>>, t: State<T, A>)
    requires Reaches(c, first, steps, s, 1) && At(s, r, Swept) && c.capacity == 0 && Inserting(s) == {}
    ensures Reaches(c, first, all, t, 1) && At(t, r, Ready) && t.entries == map[] && t.readers[r].id == s.readers[r].id
  {
    var over := Next(c, s, Measure(r));
    Turns(c, first, steps, s, Measure(r), r, Overfull, 1);
    all, t := steps + [Measure(r)] + [Wipe(r)], Next(c, over, Wipe(r));
    Turns(c, first, steps + [Measure(r)], over, Wipe(r), r, Ready, 1);
  }

  /** Some run with at most `n` readers inserting at once ends with more entries than the capacity. */
  ghost predicate Exceeds<T(!new), A>(c: Setup<T, A>, first: T, n: nat) {
    exists steps :: Overlaps(c, first, steps, n) && |RunAll(c, first, steps).entries| > c.capacity
  }

  /**
   * The capacity bounds the entries of every run exactly when it is at least 1 and no two readers
   * are between making room and inserting at once. `ids` are targets enough to fill the cache.
   */
  lemma CapacityKeptIff<T(!new), A>(c: Setup<T, A>, first: T, ids: seq<NodeId>, n: nat)
    requires n >= 1 && Distinct(ids) && |ids| == c.capacity + 1
    ensures !Exceeds(c, first, n) <==> c.capacity >= 1 && n == 1
  {
    if c.capacity == 0 {
      var steps := ZeroHoldsOne(c, first, ids[0]);
      OverlapsMore(c, first, steps, 1, n);
    } else if n >= 2 {
      var steps := CapacityCanBeExceeded(c, first, ids);
      OverlapsMore(c, first, steps, 2, n);
    } else {
      forall steps | Overlaps(c, first, steps, n) ensures |RunAll(c, first, steps).entries| <= c.capacity {
        EntriesBounded(c, first, steps, n);
      }
    }
  }

  /* ---- the cache run alone ---- */

  /** A cached answer and the generation it was computed at. */
  datatype Cached<A> = Cached(answer: A, generation: nat)

  /**
   * The cache over a table of type `T` that answers queries by `inner`. `since` lists the states
   * the table has had since the last invalidating write.
   */
  class CachedCloseNodes<T, A(==)> {
    const inner: (T, NodeId) -> A
    const capacity: nat
    const everyWrite: bool
    var table: T
    var entries: map<NodeId, Cached<A>>
    var generation: nat
    ghost var since: seq<T>

    ghost predicate Valid()
      reads this
    {
      && since != [] && since[|since| - 1] == table
      && (everyWrite ==> since == [table])
      && (forall id :: id in entries ==> entries[id].generation <= generation)
      && (forall id :: id in entries && entries[id].generation == generation ==> Recent(since, id, entries[id].answer))
      && |entries| <= (if capacity == 0 then 1 else capacity)
    }

    /** `answer` is what the table answered in one of these states. */
    ghost predicate Recent(states: seq<T>, id: NodeId, answer: A) {
      exists k :: 0 <= k < |states| && answer == inner(states[k], id)
    }

    constructor (inner: (T, NodeId) -> A, table: T, capacity: nat, everyWrite: bool)
      ensures Valid() && this.table == table && this.inner == inner && since == [table]
      ensures this.capacity == capacity && this.everyWrite == everyWrite && entries == map[]
    {
      this.inner := inner;
      this.table := table;
      this.capacity := capacity;
      this.everyWrite := everyWrite;
      entries := map[];
      generation := 0;
      since := [table];
    }

    /** Drops what is stale or expired when full, and everything if that is not enough. */
    method MakeRoom(live: NodeId -> bool)
      requires Valid()
      modifies this`entries
      ensures Valid()
      ensures forall id :: id in entries ==> id in old(entries) && entries[id] == old(entries)[id]
      ensures capacity >= 1 ==> |entries| < capacity
      ensures |old(entries)| < capacity ==> entries == old(entries)
      ensures capacity == 0 ==> entries == map[]
      ensures |old(entries)| >= capacity && |old(FreshIds(live))| < capacity ==> entries.Keys == old(FreshIds(live))
      ensures |old(entries)| >= capacity && |old(FreshIds(live))| >= capacity ==> entries == map[]
    {
      ghost var kept := FreshIds(live);
      if |entries| < capacity { return; }
      entries := map id | id in entries && entries[id].generation == generation && live(id) :: entries[id];
      assert entries.Keys == kept && |entries| == |entries.Keys|;
      if |entries| >= capacity { entries := map[]; }
    }

    /** The targets whose entries are neither stale nor expired. */
    ghost function FreshIds(live: NodeId -> bool): set<NodeId>
      reads this
    {
      set id | id in entries && entries[id].generation == generation && live(id)
    }

    /** `id` has an entry of this generation that has not expired. */
    predicate Hits(id: NodeId, live: NodeId -> bool)
      reads this
    {
      id in entries && entries[id].generation == generation && live(id)
    }

    /**
     * A query: served from a fresh entry, else computed and remembered. `live` says what has not
     * expired. After a miss the capacity is respected exactly when it is not 0.
     */
    method CloseNodes(id: NodeId, live: NodeId -> bool) returns (answer: A)
      requires Valid()
      modifies this`entries
      ensures Valid()
      ensures old(Hits(id, live)) ==> entries == old(entries) && answer == entries[id].answer
      ensures !old(Hits(id, live)) ==>
                && answer == inner(table, id) && id in entries && entries[id] == Cached(answer, generation)
                && (forall k :: k in entries && k != id ==> k in old(entries) && entries[k] == old(entries)[k])
                && (|old(entries)| < capacity ==> entries == old(entries)[id := entries[id]])
                && (|entries| <= capacity <==> capacity >= 1)
      ensures Recent(since, id, answer)
      ensures everyWrite ==> answer == inner(table, id)
      ensures !live(id) ==> answer == inner(table, id)
    {
      if Hits(id, live) {
        return entries[id].answer;
      }
      answer := inner(table, id);
      assert Recent(since, id, answer);
      MakeRoom(live);
      Remember(id, answer);
      assert id in entries.Keys;
      if capacity == 0 { assert entries.Keys == {id}; }
    }

    method Remember(id: NodeId, answer: A)
      requires Valid() && Recent(since, id, answer) && |entries| < (if capacity == 0 then 1 else capacity)
      modifies this`entries
      ensures Valid() && entries == old(entries)[id := Cached(answer, generation)]
    {
      var more := entries[id := Cached(answer, generation)];
      assert more.Keys == entries.Keys + {id};
      entries := more;
    }

    /** `remove_contact`: whatever the mode, nothing computed before is served again. */
    method Remove(after: T)
      requires Valid()
      modifies this
      ensures Valid() && table == after && since == [after] && entries == old(entries) && generation == old(generation) + 1
    {
      table := after;
      generation := generation + 1;
      since := [after];
    }

    /** `maybe_add_contact`: invalidates only in the strict mode. */
    method Add(after: T)
      requires Valid()
      modifies this
      ensures Valid() && table == after && entries == old(entries)
      ensures since == if everyWrite then [after] else old(since) + [after]
      ensures generation == if everyWrite then old(generation) + 1 else old(generation)
    {
      table := after;
      if everyWrite {
        generation := generation + 1;
        since := [after];
      } else {
        forall id | id in entries && entries[id].generation == generation
          ensures Recent(since + [after], id, entries[id].answer)
        {
          var k :| 0 <= k < |since| && entries[id].answer == inner(since[k], id);
          assert (since + [after])[k] == since[k];
        }
        since := since + [after];
      }
    }
  }

  /** One query of a new cache leaves one entry, whatever the capacity: with 0 that is one too many. */
  method FirstQuery<T, A(==)>(inner: (T, NodeId) -> A, table: T, capacity: nat, everyWrite: bool, id: NodeId, live: NodeId -> bool)
    returns (answer: A, held: nat)
    ensures answer == inner(table, id) && held == 1
  {
    var cache := new CachedCloseNodes<T, A>(inner, table, capacity, everyWrite);
    answer := cache.CloseNodes(id, live);
    held := |cache.entries|;
    assert cache.entries.Keys == {id};
  }
}
