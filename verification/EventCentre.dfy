/**
 A fast-event Publisher of notify/msg_notify_center.go: publishers feed a bounded channel, one
 handler drains it and walks the subscribers. Every channel operation, subscription change and
 subscriber visit is a step of its own, so the runs cover all interleavings.
 */
module EventCentre {
  import opened Common
  import opened Float64

  datatype Event = Event(sequence: int, content: string)

  datatype Subscriber = Subscriber(id: nat, ignoresExpired: bool)

  datatype Delivery = Delivery(to: Subscriber, event: Event)

  /**
   notifySubscriber at work: whom the walk has met, whom it must still meet, and who was
   subscribed at some time since it began.
   */
  datatype Walk = Walk(met: set<Subscriber>, owed: set<Subscriber>, seen: set<Subscriber>)

  /**
   `round` is what the conversion to float64 and back makes of a sequence, Float64.Round; the
   lemmas hold for every order-preserving rounding.
   */
  datatype State = State(
    round: int -> int,
    capacity: int,
    queue: seq<Event>,
    handled: seq<Event>,               // received by the handler, the current one last
    walk: Option<Walk>,
    lastSequence: int,
    subscribers: set<Subscriber>,
    delivered: seq<Delivery>)

  function Init(round: int -> int, capacity: int): State {
    State(round, capacity, [], [], None, -1, {}, [])
  }

  datatype Step =
    | Publish(e: Event)                // p.queue <- event
    | Cancel                           // ctx.Done() wins the select
    | Receive                          // range p.queue
    | Visit(s: Subscriber)             // one turn of subscribers.Range
    | Finish                           // lastSequence is updated
    | Subscribe(s: Subscriber)
    | Unsubscribe(s: Subscriber)

  /**
   A full channel blocks its senders. Range meets no key twice, meets every key that stays in
   the map for the whole walk, and may meet any key that was in it at some time during the walk.
   */
  predicate Enabled(st: State, step: Step) {
    match step
    case Publish(_) => |st.queue| < st.capacity
    case Receive => st.walk.None? && st.queue != []
    case Visit(s) => st.walk.Some? && s in st.walk.value.seen && s !in st.walk.value.met
    case Finish => st.walk.Some? && st.walk.value.owed == {}
    case _ => true
  }

  /** The test of notifySubscriber: not (IgnoreExpireEvent and currentSequence < lastSequence). */
  predicate Wants(s: Subscriber, e: Event, lastSequence: int) {
    !(s.ignoresExpired && e.sequence < lastSequence)
  }

  function Max(a: int, b: int): int {
    if a < b then b else a
  }

  function Next(st: State, step: Step): State
    requires Enabled(st, step) && (st.walk.Some? ==> st.handled != [])
  {
    match step
    case Publish(e) => st.(queue := st.queue + [e])
    case Cancel => st
    case Receive =>
      st.(queue := st.queue[1..], handled := st.handled + [st.queue[0]], walk := Some(Walk({}, st.subscribers, st.subscribers)))
    case Visit(s) =>
      var e := st.handled[|st.handled| - 1];
      st.(walk := Some(st.walk.value.(met := st.walk.value.met + {s}, owed := st.walk.value.owed - {s})),
          delivered := if Wants(s, e, st.lastSequence) then st.delivered + [Delivery(s, e)] else st.delivered)
    case Finish =>
      var e := st.handled[|st.handled| - 1];
      st.(walk := None, lastSequence := Max(st.round(e.sequence), st.round(st.lastSequence)))
    case Subscribe(s) =>
      st.(subscribers := st.subscribers + {s},
          walk := if st.walk.Some? then Some(st.walk.value.(seen := st.walk.value.seen + {s})) else None)
    case Unsubscribe(s) =>
      st.(subscribers := st.subscribers - {s},
          walk := if st.walk.Some? then Some(st.walk.value.(owed := st.walk.value.owed - {s})) else None)
  }

  // ---- Runs ------------------------------------------------------------------------------------

  /** The states reached from `from` by `steps`; None when some step is not enabled. */
  function After(from: State, steps: seq<Step>): Option<State> {
    if steps == [] then Some(from)
    else
      var st := After(from, steps[..|steps| - 1]);
      var step := steps[|steps| - 1];
      if st.Some? && (st.value.walk.Some? ==> st.value.handled != []) && Enabled(st.value, step)
      then Some(Next(st.value, step)) else None
  }

  /** The events accepted by the channel. */
  function Accepted(steps: seq<Step>): seq<Event> {
    if steps == [] then []
    else Accepted(steps[..|steps| - 1]) + if steps[|steps| - 1].Publish? then [steps[|steps| - 1].e] else []
  }

  /** The largest sequence of the events, but at least -1. */
  function MaxSequence(es: seq<Event>): int {
    if es == [] then -1 else Max(MaxSequence(es[..|es| - 1]), es[|es| - 1].sequence)
  }

  /** The events whose handling is complete. */
  function Finished(st: State): seq<Event> {
    if st.walk.Some? && st.handled != [] then st.handled[..|st.handled| - 1] else st.handled
  }

  /** Order-preserving, idempotent, and exact at the initial lastSequence. */
  ghost predicate Rounding(f: int -> int) {
    && (forall x, y :: x <= y ==> f(x) <= f(y))
    && (forall x {:trigger f(f(x))} :: f(f(x)) == f(x))
    && f(-1) == -1
  }

  lemma Float64IsRounding()
    ensures Rounding(Round)
  {
    forall x, y | x <= y ensures Round(x) <= Round(y) { RoundMonotone(x, y); }
    forall x ensures Round(Round(x)) == Round(x) { RoundIdempotent(x); }
    RoundSmall(-1);
  }

  ghost predicate Sound(st: State) {
    && Rounding(st.round)
    && (st.walk.Some? ==> st.handled != [])
    && |st.queue| <= Max(st.capacity, 0)
    && st.lastSequence == st.round(MaxSequence(Finished(st)))
  }

  lemma SoundNext(st: State, step: Step)
    requires Sound(st) && Enabled(st, step)
    ensures Sound(Next(st, step))
  {
    match step
    case Receive => assert (st.handled + [st.queue[0]])[..|st.handled|] == st.handled;
    case Finish =>
      var m, e := MaxSequence(Finished(st)), st.handled[|st.handled| - 1];
      assert st.round(Max(m, e.sequence)) == Max(st.round(m), st.round(e.sequence));
    case _ =>
  }

  /**
   Under every interleaving: accepted events are the handled ones followed by the queue, the
   queue stays within capacity, and lastSequence is the largest finished sequence (at least
   -1), rounded.
   */
  lemma {:induction false} FifoAndMaximum(round: int -> int, capacity: int, steps: seq<Step>)
    requires Rounding(round) && After(Init(round, capacity), steps).Some?
    ensures var st := After(Init(round, capacity), steps).value;
            Sound(st) && st.round == round && st.capacity == capacity && Accepted(steps) == st.handled + st.queue
  {
    if steps != [] {
      var steps', step := steps[..|steps| - 1], steps[|steps| - 1];
      FifoAndMaximum(round, capacity, steps');
      var st := After(Init(round, capacity), steps').value;
      SoundNext(st, step);
      FifoNext(st, step);
    }
  }

  // A step adds to the handled and queued events what it publishes, and changes nothing else of them.
  lemma FifoNext(st: State, step: Step)
    requires Enabled(st, step) && (st.walk.Some? ==> st.handled != [])
    ensures var st' := Next(st, step);
            && st'.handled + st'.queue == (st.handled + st.queue) + (if step.Publish? then [step.e] else [])
            && st'.capacity == st.capacity && st'.round == st.round
  {
    if step.Receive? {
      assert st.handled + st.queue == (st.handled + [st.queue[0]]) + st.queue[1..];
    }
  }

  /** With float64, lastSequence is the true maximum exactly when that maximum is a float64 value. */
  lemma LastIsMaximum(capacity: int, steps: seq<Step>)
    requires After(Init(Round, capacity), steps).Some?
    ensures var st := After(Init(Round, capacity), steps).value;
            var m := MaxSequence(Finished(st));
            && (st.lastSequence == m <==> Round(m) == m)
            && (m <= P53 ==> st.lastSequence == m)
  {
    Float64IsRounding();
    FifoAndMaximum(Round, capacity, steps);
    var es := Finished(After(Init(Round, capacity), steps).value);
    MaxAtLeast(es);
    RoundSmall(MaxSequence(es));
  }

  lemma {:induction false} MaxAtLeast(es: seq<Event>)
    ensures MaxSequence(es) >= -1
    ensures forall i :: 0 <= i < |es| ==> MaxSequence(es) >= es[i].sequence
  {
    if es != [] { MaxAtLeast(es[..|es| - 1]); }
  }

  // ---- What a subscriber gets --------------------------------------------------------------------

  function DeliveredTo(ds: seq<Delivery>, s: Subscriber): seq<Event> {
    if ds == [] then []
    else DeliveredTo(ds[..|ds| - 1], s) + if ds[|ds| - 1].to == s then [ds[|ds| - 1].event] else []
  }

  /** s should get the p-th handled event: it is not older than the largest handled before it. */
  predicate Due(s: Subscriber, round: int -> int, handled: seq<Event>, p: nat)
    requires p < |handled|
  {
    s.ignoresExpired ==> handled[p].sequence >= round(MaxSequence(handled[..p]))
  }

  /** The events s should get from the positions a to b of handled. */
  function Expected(s: Subscriber, round: int -> int, handled: seq<Event>, a: nat, b: nat): seq<Event>
    requires b <= |handled|
  {
    if b <= a then []
    else Expected(s, round, handled, a, b - 1) + if Due(s, round, handled, b - 1) then [handled[b - 1]] else []
  }

  /** Of the handled events, those whose walk has passed s or is over. */
  function Passed(st: State, s: Subscriber): nat {
    if st.walk.Some? && st.handled != [] && s !in st.walk.value.met then |st.handled| - 1 else |st.handled|
  }

  /** s has got exactly what it should since position a, on top of `before`. */
  ghost predicate Served(st: State, s: Subscriber, before: seq<Event>, a: nat) {
    && Sound(st) && s in st.subscribers
    && (st.walk.Some? ==> s in st.walk.value.met || s in st.walk.value.owed)
    && DeliveredTo(st.delivered, s) == before + Expected(s, st.round, st.handled, a, Passed(st, s))
  }

  lemma {:induction false} ExpectedPrefix(s: Subscriber, round: int -> int, handled: seq<Event>, e: Event, a: nat, b: nat)
    requires b <= |handled|
    ensures Expected(s, round, handled + [e], a, b) == Expected(s, round, handled, a, b)
  {
    if b > a {
      ExpectedPrefix(s, round, handled, e, a, b - 1);
      assert (handled + [e])[..b - 1] == handled[..b - 1];
    }
  }

  lemma ServedNext(st: State, step: Step, s: Subscriber, before: seq<Event>, a: nat)
    requires Served(st, s, before, a) && Enabled(st, step) && step != Unsubscribe(s) && a <= Passed(st, s)
    ensures Served(Next(st, step), s, before, a) && a <= Passed(Next(st, step), s)
  {
    var st' := Next(st, step);
    SoundNext(st, step);
    match step
    case Receive => ExpectedPrefix(s, st.round, st.handled, st.queue[0], a, |st.handled|);
    case Visit(v) => VisitServes(st, v, s, before, a);
    case _ =>
  }

  lemma DeliveredOne(ds: seq<Delivery>, d: Delivery, s: Subscriber)
    ensures d.to != s ==> DeliveredTo(ds + [d], s) == DeliveredTo(ds, s)
    ensures d.to == s ==> DeliveredTo(ds + [d], s) == DeliveredTo(ds, s) + [d.event]
  {
    assert (ds + [d])[..|ds|] == ds;
  }

  lemma ExpectedOne(s: Subscriber, round: int -> int, handled: seq<Event>, a: nat, n: nat)
    requires a <= n < |handled|
    ensures Expected(s, round, handled, a, n + 1)
         == if Due(s, round, handled, n) then Expected(s, round, handled, a, n) + [handled[n]]
            else Expected(s, round, handled, a, n)
  {
  }

  lemma DueIsWanted(st: State, s: Subscriber)
    requires Sound(st) && st.walk.Some?
    ensures var n := |st.handled| - 1;
            Due(s, st.round, st.handled, n) <==> Wants(s, st.handled[n], st.lastSequence)
  {
    assert Finished(st) == st.handled[..|st.handled| - 1];
  }

  lemma VisitServes(st: State, v: Subscriber, s: Subscriber, before: seq<Event>, a: nat)
    requires Served(st, s, before, a) && Enabled(st, Visit(v)) && a <= Passed(st, s)
    ensures DeliveredTo(Next(st, Visit(v)).delivered, s)
         == before + Expected(s, st.round, st.handled, a, Passed(Next(st, Visit(v)), s))
  {
    var n := |st.handled| - 1;
    var e, prev := st.handled[n], Expected(s, st.round, st.handled, a, Passed(st, s));
    DeliveredOne(st.delivered, Delivery(v, e), s);
    if v == s {
      DueIsWanted(st, s);
      ExpectedOne(s, st.round, st.handled, a, n);
      assert (before + prev) + [e] == before + (prev + [e]);
    }
  }

  ghost predicate NoUnsubscribe(steps: seq<Step>, s: Subscriber) {
    forall i :: 0 <= i < |steps| ==> steps[i] != Unsubscribe(s)
  }

  // ---- From a subscription on, and after leaving ------------------------------------------------

  predicate NoFinish(steps: seq<Step>) {
    forall i :: 0 <= i < |steps| ==> !steps[i].Finish?
  }

  /** s is visited before the first Finish. */
  ghost predicate VisitedFirst(steps: seq<Step>, s: Subscriber) {
    exists i :: 0 <= i < |steps| && steps[i] == Visit(s) && NoFinish(steps[..i])
  }

  lemma VisitedFirstExtend(steps: seq<Step>, step: Step, s: Subscriber)
    ensures VisitedFirst(steps + [step], s) <==> VisitedFirst(steps, s) || (step == Visit(s) && NoFinish(steps))
    ensures NoFinish(steps + [step]) <==> NoFinish(steps) && !step.Finish?
  {
    var steps' := steps + [step];
    assert forall i :: 0 <= i < |steps| ==> steps'[i] == steps[i] && steps'[..i] == steps[..i];
    assert steps'[|steps|] == step && steps'[..|steps|] == steps;
    if VisitedFirst(steps, s) {
      var i :| 0 <= i < |steps| && steps[i] == Visit(s) && NoFinish(steps[..i]);
      assert steps'[i] == Visit(s) && NoFinish(steps'[..i]);
    }
  }

  /**
   The first position of handled that counts for a subscription (or a departure) made in `from`:
   the event being walked counts exactly when that walk still visits s afterwards.
   */
  ghost function Start(from: State, steps: seq<Step>, s: Subscriber): nat {
    if from.walk.Some? && from.handled != [] && VisitedFirst(steps, s) then |from.handled| - 1 else |from.handled|
  }

  /** While the walk of `from` goes on: nothing but the met set has changed for s. */
  ghost predicate SameWalk(from: State, steps: seq<Step>, st: State, s: Subscriber) {
    && from.walk.Some? && st.walk.Some? && st.handled == from.handled && st.lastSequence == from.lastSequence
    && (s in st.walk.value.met <==> s in from.walk.value.met || VisitedFirst(steps, s))
  }

  /** What s has got since `from`. */
  ghost predicate Got(from: State, steps: seq<Step>, st: State, s: Subscriber, upTo: nat) {
    && Sound(st) && st.round == from.round && upTo <= |st.handled|
    && DeliveredTo(st.delivered, s)
       == DeliveredTo(from.delivered, s) + Expected(s, from.round, st.handled, Start(from, steps, s), upTo)
  }

  ghost predicate Tracked(from: State, steps: seq<Step>, st: State, s: Subscriber) {
    && s in st.subscribers && Got(from, steps, st, s, Passed(st, s))
    && (if from.walk.Some? && NoFinish(steps) then SameWalk(from, steps, st, s)
        else Served(st, s, DeliveredTo(from.delivered, s), Start(from, steps, s)) && Start(from, steps, s) <= Passed(st, s))
  }

  lemma TrackNext(from: State, steps: seq<Step>, st: State, step: Step, s: Subscriber)
    requires Sound(from) && Tracked(from, steps, st, s) && Enabled(st, step) && step != Unsubscribe(s)
    ensures Tracked(from, steps + [step], Next(st, step), s)
  {
    VisitedFirstExtend(steps, step, s);
    if from.walk.Some? && NoFinish(steps) {
      SoundNext(st, step);
      SameWalkNext(from, steps, st, step, s);
    } else {
      ServedNext(st, step, s, DeliveredTo(from.delivered, s), Start(from, steps, s));
    }
  }

  // One step of the walk in progress, for a subscriber that stays or has left.
  lemma SameWalkNext(from: State, steps: seq<Step>, st: State, step: Step, s: Subscriber)
    requires Sound(from) && Enabled(st, step) && SameWalk(from, steps, st, s) && NoFinish(steps)
    requires Got(from, steps, st, s, Passed(st, s))
    ensures Got(from, steps + [step], Next(st, step), s, Passed(Next(st, step), s))
    ensures !step.Finish? ==> SameWalk(from, steps + [step], Next(st, step), s)
  {
    SoundNext(st, step);
    VisitedFirstExtend(steps, step, s);
    if step == Visit(s) {
      MeetsNext(from, steps, st, s);
    } else if step.Visit? {
      DeliveredOne(st.delivered, Delivery(step.s, st.handled[|st.handled| - 1]), s);
      assert Passed(Next(st, step), s) == Passed(st, s);
    } else {
      assert Next(st, step).delivered == st.delivered;
    }
  }

  // The walk in progress meets s.
  lemma MeetsNext(from: State, steps: seq<Step>, st: State, s: Subscriber)
    requires Sound(from) && Enabled(st, Visit(s)) && SameWalk(from, steps, st, s) && NoFinish(steps)
    requires Got(from, steps, st, s, Passed(st, s))
    ensures Got(from, steps + [Visit(s)], Next(st, Visit(s)), s, Passed(Next(st, Visit(s)), s))
  {
    var st', n, before := Next(st, Visit(s)), |st.handled| - 1, DeliveredTo(from.delivered, s);
    SoundNext(st, Visit(s));
    VisitedFirstExtend(steps, Visit(s), s);
    DeliveredOne(st.delivered, Delivery(s, st.handled[n]), s);
    DueIsWanted(st, s);
    ExpectedOne(s, from.round, st.handled, n, n);
    assert before + [] == before && [] + [st.handled[n]] == [st.handled[n]];
  }

  /**
   From its subscription on, under every interleaving, a subscriber gets exactly the handled
   events that are due to it, once each and in order. `from` is any state of a publisher's run;
   an event being walked when s subscribes is among them exactly when that walk still visits s.
   */
  lemma {:induction false} DeliveredExactly(from: State, steps: seq<Step>, s: Subscriber)
    requires Sound(from) && After(Next(from, Subscribe(s)), steps).Some? && NoUnsubscribe(steps, s)
    ensures var st := After(Next(from, Subscribe(s)), steps).value;
            && Tracked(from, steps, st, s)
            && DeliveredTo(st.delivered, s)
               == DeliveredTo(from.delivered, s) + Expected(s, from.round, st.handled, Start(from, steps, s), Passed(st, s))
  {
    var st0 := Next(from, Subscribe(s));
    if steps == [] {
      SoundNext(from, Subscribe(s));
      assert Expected(s, from.round, st0.handled, |from.handled|, Passed(st0, s)) == [];
    } else {
      var steps', step := steps[..|steps| - 1], steps[|steps| - 1];
      assert steps == steps' + [step];
      DeliveredExactly(from, steps', s);
      TrackNext(from, steps', After(st0, steps').value, step, s);
    }
  }

  ghost predicate Gone(from: State, steps: seq<Step>, st: State, s: Subscriber) {
    && s !in st.subscribers
    && (if from.walk.Some? && NoFinish(steps)
        then Got(from, steps, st, s, Passed(st, s)) && SameWalk(from, steps, st, s)
        else Got(from, steps, st, s, |from.handled|) && from.handled <= st.handled
             && (st.walk.Some? ==> s !in st.walk.value.seen))
  }

  lemma GoneNext(from: State, steps: seq<Step>, st: State, step: Step, s: Subscriber)
    requires Sound(from) && Gone(from, steps, st, s) && Enabled(st, step) && step != Subscribe(s)
    ensures Gone(from, steps + [step], Next(st, step), s)
  {
    VisitedFirstExtend(steps, step, s);
    SoundNext(st, step);
    if from.walk.Some? && NoFinish(steps) {
      SameWalkNext(from, steps, st, step, s);
    } else {
      match step
      case Receive => ExpectedPrefix(s, from.round, st.handled, st.queue[0], Start(from, steps, s), |from.handled|);
      case Visit(v) => DeliveredOne(st.delivered, Delivery(v, st.handled[|st.handled| - 1]), s);
      case _ =>
    }
  }

  /**
   Once it has left, and until it comes back, a subscriber gets nothing but possibly the event
   being walked when it left: that one exactly when the walk still visits it and it is due.
   */
  lemma {:induction false} NothingAfterLeaving(from: State, steps: seq<Step>, s: Subscriber)
    requires Sound(from) && After(Next(from, Unsubscribe(s)), steps).Some?
    requires forall i :: 0 <= i < |steps| ==> steps[i] != Subscribe(s)
    ensures var st := After(Next(from, Unsubscribe(s)), steps).value;
            && Gone(from, steps, st, s) && from.handled <= st.handled
            && DeliveredTo(st.delivered, s)
               == DeliveredTo(from.delivered, s) + Expected(s, from.round, from.handled, Start(from, steps, s), |from.handled|)
  {
    var st0 := Next(from, Unsubscribe(s));
    if steps == [] {
      SoundNext(from, Unsubscribe(s));
      assert Expected(s, from.round, st0.handled, |from.handled|, Passed(st0, s)) == [];
    } else {
      var steps', step := steps[..|steps| - 1], steps[|steps| - 1];
      assert steps == steps' + [step];
      NothingAfterLeaving(from, steps', s);
      GoneNext(from, steps', After(st0, steps').value, step, s);
    }
    GoneMeans(from, steps, After(st0, steps).value, s);
  }

  lemma GoneMeans(from: State, steps: seq<Step>, st: State, s: Subscriber)
    requires Sound(from) && Gone(from, steps, st, s)
    ensures from.handled <= st.handled
    ensures DeliveredTo(st.delivered, s)
         == DeliveredTo(from.delivered, s) + Expected(s, from.round, from.handled, Start(from, steps, s), |from.handled|)
  {
    ExpectedWithin(s, from.round, from.handled, st.handled, Start(from, steps, s), |from.handled|);
  }

  lemma {:induction false} ExpectedWithin(s: Subscriber, round: int -> int, h: seq<Event>, h': seq<Event>, a: nat, b: nat)
    requires b <= |h| && h <= h'
    ensures Expected(s, round, h', a, b) == Expected(s, round, h, a, b)
  {
    if b > a {
      ExpectedWithin(s, round, h, h', a, b - 1);
      assert h'[..b - 1] == h[..b - 1];
    }
  }

  /** A subscriber that does not ignore expired events gets every handled event. */
  lemma {:induction false} ExpectedAll(s: Subscriber, round: int -> int, handled: seq<Event>, a: nat, b: nat)
    requires !s.ignoresExpired && a <= b <= |handled|
    ensures Expected(s, round, handled, a, b) == handled[a..b]
  {
    if b > a { ExpectedAll(s, round, handled, a, b - 1); }
  }

  ghost predicate NeverDecreases(round: int -> int, es: seq<Event>) {
    forall i, j :: 0 <= i < j < |es| ==> round(es[i].sequence) <= round(es[j].sequence)
  }

  ghost predicate AllAtMost(es: seq<Event>, m: int) {
    forall i :: 0 <= i < |es| ==> es[i].sequence <= m
  }

  lemma {:induction false} ExpectedAtMost(s: Subscriber, round: int -> int, handled: seq<Event>, a: nat, b: nat)
    requires a <= b <= |handled|
    ensures AllAtMost(Expected(s, round, handled, a, b), MaxSequence(handled[..b]))
  {
    if b > a {
      ExpectedAtMost(s, round, handled, a, b - 1);
      ExpectedOne(s, round, handled, a, b - 1);
      assert handled[..b][..b - 1] == handled[..b - 1];
    }
  }

  /** One that does gets events whose rounded sequences never decrease. */
  lemma {:induction false} ExpectedNeverDecreases(s: Subscriber, round: int -> int, handled: seq<Event>, a: nat, b: nat)
    requires Rounding(round) && s.ignoresExpired && a <= b <= |handled|
    ensures NeverDecreases(round, Expected(s, round, handled, a, b))
  {
    if b > a {
      var es, e, m := Expected(s, round, handled, a, b - 1), handled[b - 1], MaxSequence(handled[..b - 1]);
      ExpectedNeverDecreases(s, round, handled, a, b - 1);
      ExpectedAtMost(s, round, handled, a, b - 1);
      ExpectedOne(s, round, handled, a, b - 1);
      if e.sequence >= round(m) {
        assert Expected(s, round, handled, a, b) == es + [e];
        ExtendNeverDecreases(round, es, e, m);
      } else {
        assert Expected(s, round, handled, a, b) == es;
      }
    }
  }

  lemma ExtendNeverDecreases(round: int -> int, es: seq<Event>, e: Event, m: int)
    requires Rounding(round) && NeverDecreases(round, es) && AllAtMost(es, m) && e.sequence >= round(m)
    ensures NeverDecreases(round, es + [e])
  {
    forall i | 0 <= i < |es| ensures round(es[i].sequence) <= round(e.sequence) {
      assert round(es[i].sequence) <= round(m) == round(round(m)) <= round(e.sequence);
    }
  }

  /** Where rounding is exact, the sequences themselves never decrease. */
  lemma ExactNeverDecreases(round: int -> int, es: seq<Event>, i: nat, j: nat)
    requires NeverDecreases(round, es) && i < j < |es|
    requires round(es[i].sequence) == es[i].sequence && round(es[j].sequence) == es[j].sequence
    ensures es[i].sequence <= es[j].sequence
  {
  }

  /**
   The filter agrees with the true maximum m of the sequences before, for an event with sequence
   q, exactly when q does not lie between m and its float64 value.
   */
  lemma FilterExactly(s: Subscriber, handled: seq<Event>, p: nat)
    requires s.ignoresExpired && p < |handled|
    ensures var m, q := MaxSequence(handled[..p]), handled[p].sequence;
            (Due(s, Round, handled, p) <==> q >= m) <==> !(Min(m, Round(m)) <= q < Max(m, Round(m)))
  {
  }

  function Min(a: int, b: int): int {
    if a < b then a else b
  }

  // Above 2^53 the filter lets an older event through, where the maximum is rounded down...
  lemma FilterPassesOlder()
    ensures var s, es := Subscriber(0, true), [Event(P53 + 1, "new"), Event(P53, "old")];
            Expected(s, Round, es, 0, 2) == es
  {
    RoundSmall(-1);
    TwoEvents(Subscriber(0, true), Event(P53 + 1, "new"), Event(P53, "old"));
  }

  // ... and drops a newer one, where it is rounded up.
  lemma FilterDropsNewer()
    ensures var s, es := Subscriber(0, true), [Event(2 * P53 + 6, "old"), Event(2 * P53 + 7, "new")];
            Expected(s, Round, es, 0, 2) == [es[0]]
  {
    RoundSmall(-1);
    RoundTie();
    TwoEvents(Subscriber(0, true), Event(2 * P53 + 6, "old"), Event(2 * P53 + 7, "new"));
  }

  lemma TwoEvents(s: Subscriber, e: Event, e': Event)
    requires s.ignoresExpired && e.sequence >= -1 && Round(-1) == -1
    ensures Expected(s, Round, [e, e'], 0, 2) == if e'.sequence >= Round(e.sequence) then [e, e'] else [e]
  {
    var es := [e, e'];
    assert es[..1] == [e] && es[..0] == [] && [e][..0] == [];
    assert MaxSequence(es[..1]) == e.sequence;
    ExpectedOne(s, Round, es, 0, 0);
    ExpectedOne(s, Round, es, 0, 1);
    assert [] + [e] == [e] && [e] + [e'] == es;
  }

  // ---- The objects ---------------------------------------------------------------------------------

  // One more enabled step of a publisher's run.
  lemma AfterOne(round: int -> int, capacity: int, steps: seq<Step>, step: Step)
    requires After(Init(round, capacity), steps).Some? && Enabled(After(Init(round, capacity), steps).value, step)
    ensures var st := After(Init(round, capacity), steps).value;
            (st.walk.Some? ==> st.handled != []) && After(Init(round, capacity), steps + [step]) == Some(Next(st, step))
  {
    WalkHasEvent(Init(round, capacity), steps);
    assert (steps + [step])[..|steps|] == steps;
  }

  lemma {:induction false} WalkHasEvent(from: State, steps: seq<Step>)
    requires from.walk.None? && After(from, steps).Some?
    ensures After(from, steps).value.walk.Some? ==> After(from, steps).value.handled != []
  {
    if steps != [] { WalkHasEvent(from, steps[..|steps| - 1]); }
  }

  /** The part of s in one event that went to everybody in `to`. */
  function Share(to: set<Subscriber>, s: Subscriber, e: Event, lastSequence: int): seq<Event> {
    if s in to && Wants(s, e, lastSequence) then [e] else []
  }

  // One visit gives the one visited its share, and changes nothing but the walk otherwise.
  lemma VisitGives(st: State, v: Subscriber, s: Subscriber)
    requires Enabled(st, Visit(v)) && st.handled != []
    ensures var st', e := Next(st, Visit(v)), st.handled[|st.handled| - 1];
            && st'.walk.Some? && st'.walk.value.met == st.walk.value.met + {v}
            && st'.handled == st.handled && st'.lastSequence == st.lastSequence
            && DeliveredTo(st'.delivered, s) == DeliveredTo(st.delivered, s) + Share({v}, s, e, st.lastSequence)
  {
    DeliveredOne(st.delivered, Delivery(v, st.handled[|st.handled| - 1]), s);
  }

  // Visits alone give everybody met its share in the current event.
  lemma {:induction false} VisitsShare(from: State, steps: seq<Step>, s: Subscriber)
    requires from.walk.Some? && from.walk.value.met == {} && from.handled != []
    requires After(from, steps).Some? && forall i :: 0 <= i < |steps| ==> steps[i].Visit?
    ensures Shared(from, After(from, steps).value, s)
  {
    if steps != [] {
      var steps', step := steps[..|steps| - 1], steps[|steps| - 1];
      VisitsShare(from, steps', s);
      var st := After(from, steps').value;
      VisitGives(st, step.s, s);
      ShareSplits(st.walk.value.met, step.s, s, from.handled[|from.handled| - 1], from.lastSequence);
    }
  }

  /** Of the event being walked everybody met has got its share, and no more. */
  ghost predicate Shared(from: State, st: State, s: Subscriber)
    requires from.handled != []
  {
    && st.walk.Some? && st.handled == from.handled && st.lastSequence == from.lastSequence
    && DeliveredTo(st.delivered, s)
       == DeliveredTo(from.delivered, s) + Share(st.walk.value.met, s, from.handled[|from.handled| - 1], from.lastSequence)
  }

  lemma ShareSplits(to: set<Subscriber>, v: Subscriber, s: Subscriber, e: Event, lastSequence: int)
    requires v !in to
    ensures forall ds: seq<Event> :: (ds + Share(to, s, e, lastSequence)) + Share({v}, s, e, lastSequence)
                                  == ds + Share(to + {v}, s, e, lastSequence)
  {
  }

  // A run goes on from where its first part ended.
  lemma {:induction false} AfterConcat(from: State, a: seq<Step>, b: seq<Step>)
    requires After(from, a + b).Some?
    ensures After(from, a).Some? && After(from, a + b) == After(After(from, a).value, b)
  {
    if b == [] {
      assert a + b == a;
    } else {
      assert (a + b)[..|a + b| - 1] == a + b[..|b| - 1];
      AfterConcat(from, a, b[..|b| - 1]);
    }
  }

  lemma WalkShares(before: seq<Step>, steps: seq<Step>, from: State, st: State)
    requires before <= steps && forall i :: |before| <= i < |steps| ==> steps[i].Visit?
    requires from.walk.Some? && from.walk.value.met == {} && from.handled != []
    requires After(Init(from.round, from.capacity), before) == Some(from)
    requires After(Init(from.round, from.capacity), steps) == Some(st)
    ensures forall s :: Shared(from, st, s)
  {
    var visits := steps[|before|..];
    assert steps == before + visits;
    AfterConcat(Init(from.round, from.capacity), before, visits);
    forall s ensures Shared(from, st, s) { VisitsShare(from, visits, s); }
  }

  datatype SendResult = Accepted | Cancelled | Blocks

  class Publisher {
    /** Float64.Round in the source. */
    const round: int -> int
    const topic: string
    const capacity: int
    var queue: seq<Event>
    var handled: seq<Event>
    var lastSequence: int
    var subscribers: set<Subscriber>
    var delivered: seq<Delivery>
    ghost var steps: seq<Step>

    ghost predicate Valid()
      reads this
    {
      At(None)
    }

    /** The fields are what the steps so far make them, with the walk as given. */
    ghost predicate At(walk: Option<Walk>)
      reads this
    {
      After(Init(round, capacity), steps) == Some(Abs(walk))
    }

    ghost function Abs(walk: Option<Walk>): State
      reads this
    {
      State(round, capacity, queue, handled, walk, lastSequence, subscribers, delivered)
    }

    constructor (topic: string, round: int -> int, capacity: int)
      ensures this.topic == topic && Valid() && steps == [] && this.round == round && this.capacity == capacity
      ensures queue == [] && subscribers == {} && delivered == [] && lastSequence == -1
    {
      this.topic, this.round, this.capacity := topic, round, capacity;
      queue, handled, lastSequence, subscribers, delivered, steps := [], [], -1, {}, [], [];
    }

    /** One look at the select: `done` says that the context is done, `preferDone` breaks the tie. */
    method PublishEvent(e: Event, done: bool, preferDone: bool) returns (r: SendResult)
      requires Valid()
      modifies this`queue, this`steps
      ensures Valid() && (r.Blocks? <==> old(|queue|) >= capacity && !done)
      ensures r.Accepted? ==> steps == old(steps) + [Publish(e)] && queue == old(queue) + [e]
      ensures !r.Accepted? ==> done == r.Cancelled? && queue == old(queue)
    {
      if |queue| < capacity && !(done && preferDone) {
        AfterOne(round, capacity, steps, Publish(e));
        queue := queue + [e];
        steps := steps + [Publish(e)];
        r := Accepted;
      } else if done {
        AfterOne(round, capacity, steps, Cancel);
        steps := steps + [Cancel];
        r := Cancelled;
      } else {
        r := Blocks;
      }
    }

    method AddSubscriber(s: Subscriber)
      requires Valid()
      modifies this`subscribers, this`steps
      ensures Valid() && steps == old(steps) + [Subscribe(s)] && subscribers == old(subscribers) + {s}
    {
      AfterOne(round, capacity, steps, Subscribe(s));
      subscribers := subscribers + {s};
      steps := steps + [Subscribe(s)];
    }

    method RemoveSubscriber(s: Subscriber)
      requires Valid()
      modifies this`subscribers, this`steps
      ensures Valid() && steps == old(steps) + [Unsubscribe(s)] && subscribers == old(subscribers) - {s}
    {
      AfterOne(round, capacity, steps, Unsubscribe(s));
      subscribers := subscribers - {s};
      steps := steps + [Unsubscribe(s)];
    }

    /** openHandler and notifySubscriber for one event, nothing else running meanwhile. */
    method HandleNext()
      requires Valid() && queue != []
      modifies this`queue, this`handled, this`lastSequence, this`delivered, this`steps
      ensures Valid() && handled == old(handled) + [old(queue[0])] && queue == old(queue[1..])
      ensures old(steps) < steps
      ensures forall s :: DeliveredTo(delivered, s)
                       == old(DeliveredTo(delivered, s)) + Share(subscribers, s, old(queue[0]), old(lastSequence))
      ensures forall i :: old(|steps|) <= i < |steps| ==> steps[i].Receive? || steps[i].Visit? || steps[i].Finish?
    {
      var e := queue[0];
      AfterOne(round, capacity, steps, Receive);
      queue := queue[1..];
      handled := handled + [e];
      steps := steps + [Receive];
      NotifySubscribers(e);
      AfterOne(round, capacity, steps, Finish);
      lastSequence := Max(round(e.sequence), round(lastSequence));
      steps := steps + [Finish];
    }

    // The walk, with what it delivers.
    method NotifySubscribers(e: Event)
      requires At(Some(Walk({}, subscribers, subscribers))) && handled != [] && handled[|handled| - 1] == e
      modifies this`delivered, this`steps
      ensures At(Some(Walk(subscribers, {}, subscribers))) && old(steps) <= steps
      ensures forall i :: old(|steps|) <= i < |steps| ==> steps[i].Visit?
      ensures forall s :: DeliveredTo(delivered, s) == old(DeliveredTo(delivered, s)) + Share(subscribers, s, e, lastSequence)
    {
      ghost var from := Abs(Some(Walk({}, subscribers, subscribers)));
      VisitAll(e);
      ghost var st := Abs(Some(Walk(subscribers, {}, subscribers)));
      WalkShares(old(steps), steps, from, st);
      forall s ensures DeliveredTo(delivered, s) == old(DeliveredTo(delivered, s)) + Share(subscribers, s, e, lastSequence) {
        assert Shared(from, st, s);
      }
    }

    // subscribers.Range
    method VisitAll(e: Event)
      requires At(Some(Walk({}, subscribers, subscribers))) && handled != [] && handled[|handled| - 1] == e
      modifies this`delivered, this`steps
      ensures At(Some(Walk(subscribers, {}, subscribers))) && old(steps) <= steps
      ensures forall i :: old(|steps|) <= i < |steps| ==> steps[i].Visit?
    {
      var todo := subscribers;
      assert subscribers - todo == {};
      while todo != {}
        invariant todo <= subscribers && At(Some(Walk(subscribers - todo, todo, subscribers))) && old(steps) <= steps
        invariant forall i :: old(|steps|) <= i < |steps| ==> steps[i].Visit?
        decreases todo
      {
        var s :| s in todo;
        ghost var st := Abs(Some(Walk(subscribers - todo, todo, subscribers)));
        AfterOne(round, capacity, steps, Visit(s));
        if Wants(s, e, lastSequence) {
          delivered := delivered + [Delivery(s, e)];
        }
        assert subscribers - todo + {s} == subscribers - (todo - {s});
        todo := todo - {s};
        steps := steps + [Visit(s)];
        assert Next(st, Visit(s)) == Abs(Some(Walk(subscribers - todo, todo, subscribers)));
      }
      assert subscribers - todo == subscribers;
    }
  }
}
