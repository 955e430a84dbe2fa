/** The topics of notify/msg_notify_center.go: registering publishers and subscribers. */
module NotifyCentre {
  import opened EventCentre
  import Float64

  /** An event type as subscribers name it: its topic and whether it is a FastEvent. */
  datatype Topic = Topic(name: string, fast: bool)

  datatype Subscription = Single(topic: Topic) | Multi(topics: seq<Topic>)

  /** RegisterPublisher's buffer size. */
  function Capacity(ringBufferSize: int): (c: int)
    ensures c >= 33 && (c != ringBufferSize <==> ringBufferSize <= 32) && (c != ringBufferSize ==> c == 128)
  {
    if ringBufferSize <= 32 then 128 else ringBufferSize
  }

  type Listeners = map<string, set<Subscriber>>

  predicate Listens(m: Listeners, t: string, x: Subscriber) {
    t in m && x in m[t]
  }

  /** s joins the listeners of the topic. */
  function With(m: Listeners, name: string, s: Subscriber): (r: Listeners)
    ensures r.Keys == m.Keys + {name}
    ensures forall t, x :: Listens(r, t, x) <==> Listens(m, t, x) || (t == name && x == s)
  {
    m[name := (if name in m then m[name] else {}) + {s}]
  }

  /** s leaves the listeners of the topic. */
  function Without(m: Listeners, name: string, s: Subscriber): (r: Listeners)
    ensures r.Keys == m.Keys
    ensures forall t, x :: Listens(r, t, x) <==> Listens(m, t, x) && !(t == name && x == s)
  {
    if name in m then m[name := m[name] - {s}] else m
  }

  /** One of the first n topics has the name. */
  ghost predicate Among(ts: seq<Topic>, n: nat, name: string)
    requires n <= |ts|
  {
    exists i :: 0 <= i < n && ts[i].name == name
  }

  /** With or Without over the first n topics. */
  function WithAll(m: Listeners, ts: seq<Topic>, n: nat, s: Subscriber): (r: Listeners)
    requires n <= |ts|
    ensures forall t :: t in r <==> t in m || Among(ts, n, t)
    ensures forall t, x :: Listens(r, t, x) <==> Listens(m, t, x) || (Among(ts, n, t) && x == s)
  {
    if n == 0 then m else With(WithAll(m, ts, n - 1, s), ts[n - 1].name, s)
  }

  function WithoutAll(m: Listeners, ts: seq<Topic>, n: nat, s: Subscriber): (r: Listeners)
    requires n <= |ts|
    ensures r.Keys == m.Keys
    ensures forall t, x :: Listens(r, t, x) <==> Listens(m, t, x) && !(Among(ts, n, t) && x == s)
  {
    if n == 0 then m else Without(WithoutAll(m, ts, n - 1, s), ts[n - 1].name, s)
  }

  /** How many topics RegisterSubscriber gets through: up to the first fast one without a publisher. */
  function Reached(known: set<string>, ts: seq<Topic>): (n: nat)
    ensures n <= |ts|
    ensures n < |ts| ==> ts[n].fast && ts[n].name !in known
    ensures forall i :: 0 <= i < n && ts[i].fast ==> ts[i].name in known
  {
    if ts == [] || (ts[0].fast && ts[0].name !in known) then 0
    else
      var n := Reached(known, ts[1..]);
      assert forall i :: 0 < i <= n ==> ts[i] == ts[1..][i - 1];
      1 + n
  }

  /** One of the first n topics is fast and has the name. */
  ghost predicate FastAmong(ts: seq<Topic>, n: nat, name: string)
    requires n <= |ts|
  {
    exists i :: 0 <= i < n && ts[i].fast && ts[i].name == name
  }

  lemma AmongOneMore(ts: seq<Topic>, n: nat, name: string)
    requires n < |ts|
    ensures Among(ts, n + 1, name) <==> Among(ts, n, name) || ts[n].name == name
  {
  }

  lemma FastOneMore(ts: seq<Topic>, n: nat, name: string)
    requires n < |ts|
    ensures FastAmong(ts, n + 1, name) <==> FastAmong(ts, n, name) || (ts[n].fast && ts[n].name == name)
  {
  }

  /** The publishers a registration reaches, by topic. */
  ghost predicate Joins(sub: Subscription, known: set<string>, name: string) {
    match sub
    case Single(t) => t.fast && t.name == name
    case Multi(ts) => FastAmong(ts, Reached(known, ts), name)
  }

  ghost predicate Leaves(sub: Subscription, name: string) {
    match sub
    case Single(t) => t.name == name
    case Multi(ts) => Among(ts, |ts|, name)
  }

  /** The steps were followed by any number of times the same one. */
  ghost predicate Grown(before: seq<Step>, now: seq<Step>, step: Step) {
    before <= now && forall i :: |before| <= i < |now| ==> now[i] == step
  }

  /** What becomes of a publisher's subscribers and steps when s is added to it any number of times, or not at all. */
  ghost predicate Gains(subs: set<Subscriber>, steps: seq<Step>, subs': set<Subscriber>, steps': seq<Step>,
                        s: Subscriber, joins: bool) {
    subs' == subs + (if joins then {s} else {}) && Grown(steps, steps', Subscribe(s))
  }

  lemma GainsOnce(subs: set<Subscriber>, steps: seq<Step>, subs': set<Subscriber>, steps': seq<Step>,
                  subs'': set<Subscriber>, steps'': seq<Step>, s: Subscriber, joined: bool, joins: bool)
    requires Gains(subs, steps, subs', steps', s, joined)
    requires subs'' == subs' + (if joins then {s} else {}) && steps'' == steps' + if joins then [Subscribe(s)] else []
    ensures Gains(subs, steps, subs'', steps'', s, joined || joins)
  {
  }

  class MsgPublisherCenter {
    /** The publishers of the fast topics. */
    var publishers: map<string, Publisher>
    /** The shared publisher's listeners. */
    var listeners: Listeners
    ghost var Repr: set<Publisher>

    ghost predicate Valid()
      reads this`publishers, this`Repr, Repr
    {
      && (forall t :: t in publishers ==>
            publishers[t] in Repr && publishers[t].Valid() && publishers[t].capacity >= 33 && publishers[t].round == Float64.Round)
      && forall t :: t in publishers ==> publishers[t].topic == t
    }

    constructor ()
      ensures Valid() && publishers == map[] && listeners == map[] && Repr == {}
    {
      publishers, listeners, Repr := map[], map[], {};
    }

    /** The first registration of a topic fixes its channel; later ones change nothing. */
    method RegisterPublisher(t: Topic, ringBufferSize: int)
      requires Valid()
      modifies this`publishers, this`Repr
      ensures Valid() && fresh(Repr - old(Repr)) && publishers.Keys == old(publishers).Keys + if t.fast then {t.name} else {}
      ensures forall n :: n in old(publishers) ==> publishers[n] == old(publishers)[n]
      ensures t.fast && t.name !in old(publishers) ==>
                var p := publishers[t.name];
                && fresh(p) && p.steps == [] && p.capacity == Capacity(ringBufferSize)
                && p.queue == [] && p.subscribers == {} && p.delivered == [] && p.lastSequence == -1
    {
      if t.fast && t.name !in publishers {
        var p := new Publisher(t.name, Float64.Round, Capacity(ringBufferSize));
        publishers := publishers[t.name := p];
        Repr := Repr + {p};
      }
    }

    /**
     A subscriber of several topics is added to the fast ones up to the first without a
     publisher, and to the shared listeners of all of them, fast or not, when there is none.
     */
    method RegisterSubscriber(s: Subscriber, sub: Subscription) returns (ok: bool)
      requires Valid()
      modifies this`listeners, Repr`subscribers, Repr`steps
      ensures Valid()
      ensures forall t :: t in publishers ==>
                && publishers[t].subscribers
                   == old(publishers[t].subscribers) + (if Joins(sub, publishers.Keys, t) then {s} else {})
                && Grown(old(publishers[t].steps), publishers[t].steps, Subscribe(s))
      ensures match sub
              case Single(t) =>
                && ok == (t.fast ==> t.name in publishers)
                && listeners == (if t.fast then old(listeners) else With(old(listeners), t.name, s))
              case Multi(ts) =>
                && ok == (Reached(publishers.Keys, ts) == |ts|)
                && listeners == (if ok then WithAll(old(listeners), ts, |ts|, s) else old(listeners))
    {
      match sub
      case Single(t) => ok := RegisterSingle(s, t);
      case Multi(ts) => ok := RegisterMulti(s, ts);
    }

    method RegisterSingle(s: Subscriber, topic: Topic) returns (ok: bool)
      requires Valid()
      modifies this`listeners, Repr`subscribers, Repr`steps
      ensures Valid() && ok == (topic.fast ==> topic.name in publishers)
      ensures forall t :: t in publishers ==>
                && publishers[t].subscribers
                   == old(publishers[t].subscribers) + (if topic.fast && topic.name == t then {s} else {})
                && Grown(old(publishers[t].steps), publishers[t].steps, Subscribe(s))
      ensures listeners == if topic.fast then old(listeners) else With(old(listeners), topic.name, s)
    {
      if topic.fast {
        ok := topic.name in publishers;
        if ok { AddTo(topic.name, s); }
      } else {
        listeners := With(listeners, topic.name, s);
        ok := true;
      }
    }

    method RegisterMulti(s: Subscriber, ts: seq<Topic>) returns (ok: bool)
      requires Valid()
      modifies this`listeners, Repr`subscribers, Repr`steps
      ensures Valid() && ok == (Reached(publishers.Keys, ts) == |ts|)
      ensures forall t :: t in publishers ==>
                && publishers[t].subscribers
                   == old(publishers[t].subscribers) + (if FastAmong(ts, Reached(publishers.Keys, ts), t) then {s} else {})
                && Grown(old(publishers[t].steps), publishers[t].steps, Subscribe(s))
      ensures listeners == if ok then WithAll(old(listeners), ts, |ts|, s) else old(listeners)
    {
      ok := AddToFast(s, ts);
      if !ok { return; }
      for i := 0 to |ts|
        modifies this`listeners
        invariant listeners == WithAll(old(listeners), ts, i, s)
      {
        listeners := With(listeners, ts[i].name, s);
      }
    }

    // The loop over the topics of a MultiSubscriber.
    method AddToFast(s: Subscriber, ts: seq<Topic>) returns (ok: bool)
      requires Valid()
      modifies Repr`subscribers, Repr`steps
      ensures Valid() && ok == (Reached(publishers.Keys, ts) == |ts|)
      ensures forall t :: t in publishers ==>
                Gains(old(publishers[t].subscribers), old(publishers[t].steps), publishers[t].subscribers, publishers[t].steps,
                      s, FastAmong(ts, Reached(publishers.Keys, ts), t))
    {
      ghost var reached := Reached(publishers.Keys, ts);
      for i := 0 to |ts|
        invariant Valid() && i <= reached
        invariant forall t :: t in publishers ==>
                    Gains(old(publishers[t].subscribers), old(publishers[t].steps), publishers[t].subscribers, publishers[t].steps,
                          s, FastAmong(ts, i, t))
      {
        label before:
        ok := AddIfFast(s, ts[i]);
        if !ok {
          assert i == reached;
          return;
        }
        forall t | t in publishers
          ensures Gains(old(publishers[t].subscribers), old(publishers[t].steps), publishers[t].subscribers, publishers[t].steps,
                        s, FastAmong(ts, i + 1, t))
        {
          FastOneMore(ts, i, t);
          GainsOnce(old(publishers[t].subscribers), old(publishers[t].steps),
                    old@before(publishers[t].subscribers), old@before(publishers[t].steps),
                    publishers[t].subscribers, publishers[t].steps, s, FastAmong(ts, i, t), ts[i].fast && ts[i].name == t);
        }
      }
      ok := true;
    }

    method AddIfFast(s: Subscriber, topic: Topic) returns (ok: bool)
      requires Valid()
      modifies Repr`subscribers, Repr`steps
      ensures Valid() && ok == (topic.fast ==> topic.name in publishers)
      ensures forall t :: t in publishers ==>
                var joins := topic.fast && t == topic.name;
                && publishers[t].subscribers == old(publishers[t].subscribers) + (if joins then {s} else {})
                && publishers[t].steps == old(publishers[t].steps) + if joins then [Subscribe(s)] else []
    {
      if topic.fast {
        if topic.name !in publishers { return false; }
        AddTo(topic.name, s);
      }
      ok := true;
    }

    method AddTo(name: string, s: Subscriber)
      requires Valid() && name in publishers
      modifies {publishers[name]}`subscribers, {publishers[name]}`steps
      ensures Valid()
      ensures forall t :: t in publishers ==>
                && publishers[t].subscribers == old(publishers[t].subscribers) + (if t == name then {s} else {})
                && publishers[t].steps == old(publishers[t].steps) + if t == name then [Subscribe(s)] else []
    {
      publishers[name].AddSubscriber(s);
    }

    method RemoveFrom(name: string, s: Subscriber)
      requires Valid() && name in publishers
      modifies {publishers[name]}`subscribers, {publishers[name]}`steps
      ensures Valid()
      ensures forall t :: t in publishers ==>
                && publishers[t].subscribers == old(publishers[t].subscribers) - (if t == name then {s} else {})
                && publishers[t].steps == old(publishers[t].steps) + if t == name then [Unsubscribe(s)] else []
    {
      publishers[name].RemoveSubscriber(s);
    }

    /**
     As written: the fast publishers are looked up by the event instead of its name, so none
     is ever found and no publisher is touched. A single subscriber of a topic without shared
     listeners panics.
     */
    method DeregisterSubscriber(s: Subscriber, sub: Subscription) returns (panicked: bool)
      requires Valid()
      modifies this`listeners
      ensures Valid() && forall t :: t in publishers ==> unchanged(publishers[t])
      ensures panicked <==> sub.Single? && sub.topic.name !in old(listeners)
      ensures listeners == if sub.Single? then Without(old(listeners), sub.topic.name, s)
                           else WithoutAll(old(listeners), sub.topics, |sub.topics|, s)
    {
      panicked := RemoveListener(s, sub);
    }

    /**
     With two repairs: the look-up is by name, and a single subscriber of a topic without shared
     listeners leaves its fast topic instead of panicking in the shared part.
     */
    method DeregisterSubscriberRepaired(s: Subscriber, sub: Subscription)
      requires Valid()
      modifies this`listeners, Repr`subscribers, Repr`steps
      ensures Valid()
      ensures forall t :: t in publishers ==>
                && publishers[t].subscribers == old(publishers[t].subscribers) - (if Leaves(sub, t) then {s} else {})
                && Grown(old(publishers[t].steps), publishers[t].steps, Unsubscribe(s))
      ensures listeners == if sub.Single? then Without(old(listeners), sub.topic.name, s)
                           else WithoutAll(old(listeners), sub.topics, |sub.topics|, s)
    {
      var _ := RemoveListener(s, sub);
      match sub
      case Single(t) =>
        assert [t][0] == t && forall name :: Among([t], 1, name) <==> t.name == name;
        RemoveFromAll(s, [t]);
      case Multi(ts) => RemoveFromAll(s, ts);
    }

    method RemoveFromAll(s: Subscriber, ts: seq<Topic>)
      requires Valid()
      modifies Repr`subscribers, Repr`steps
      ensures Valid()
      ensures forall t :: t in publishers ==>
                && publishers[t].subscribers == old(publishers[t].subscribers) - (if Among(ts, |ts|, t) then {s} else {})
                && Grown(old(publishers[t].steps), publishers[t].steps, Unsubscribe(s))
    {
      for i := 0 to |ts|
        invariant Valid()
        invariant forall t :: t in publishers ==>
                    && publishers[t].subscribers == old(publishers[t].subscribers) - (if Among(ts, i, t) then {s} else {})
                    && Grown(old(publishers[t].steps), publishers[t].steps, Unsubscribe(s))
      {
        forall t | t in publishers { AmongOneMore(ts, i, t); }
        if ts[i].name in publishers { RemoveFrom(ts[i].name, s); }
      }
    }

    /** SharePublisher.RemoveSubscriber */
    method RemoveListener(s: Subscriber, sub: Subscription) returns (panicked: bool)
      modifies this`listeners
      ensures panicked <==> sub.Single? && sub.topic.name !in old(listeners)
      ensures listeners == if sub.Single? then Without(old(listeners), sub.topic.name, s)
                           else WithoutAll(old(listeners), sub.topics, |sub.topics|, s)
    {
      panicked := false;
      match sub
      case Single(t) =>
        panicked := t.name !in listeners;
        listeners := Without(listeners, t.name, s);
      case Multi(ts) =>
        for i := 0 to |ts|
          invariant listeners == WithoutAll(old(listeners), ts, i, s)
        {
          listeners := Without(listeners, ts[i].name, s);
        }
    }
  }

  /** The channel of a registered topic never holds more than it was made for, which is at least 33. */
  lemma ChannelBounded(c: MsgPublisherCenter, t: string)
    requires c.Valid() && t in c.publishers
    ensures |c.publishers[t].queue| <= c.publishers[t].capacity && c.publishers[t].capacity >= 33
  {
    var p := c.publishers[t];
    Float64IsRounding();
    FifoAndMaximum(p.round, p.capacity, p.steps);
  }

  /**
   Whoever subscribed to a registered topic after the steps `before`, and has not left since, has
   got from then on exactly the events due to it, once each and in order.
   */
  lemma ServedSince(c: MsgPublisherCenter, t: string, before: seq<Step>, later: seq<Step>, s: Subscriber)
    requires c.Valid() && t in c.publishers && NoUnsubscribe(later, s)
    requires c.publishers[t].steps == before + ([Subscribe(s)] + later)
    ensures var p := c.publishers[t];
            var from := After(Init(p.round, p.capacity), before);
            && s in p.subscribers && from.Some?
            && DeliveredTo(p.delivered, s) == DeliveredTo(from.value.delivered, s)
                 + Expected(s, Float64.Round, p.handled, Start(from.value, later, s), |p.handled|)
  {
    var p := c.publishers[t];
    var init := Init(p.round, p.capacity);
    Float64IsRounding();
    AfterConcat(init, before, [Subscribe(s)] + later);
    var from := After(init, before).value;
    FifoAndMaximum(p.round, p.capacity, before);
    AfterConcat(from, [Subscribe(s)], later);
    assert [Subscribe(s)][..0] == [];
    DeliveredExactly(from, later, s);
  }

  // A topic with a subscriber that has registered and deregistered.
  method ComeAndGone(name: string, size: int, multi: bool, s: Subscriber) returns (panicked: bool, p: Publisher)
    ensures panicked == !multi && fresh(p) && p.Valid() && p.subscribers == {s}
    ensures p.capacity >= 33 && p.queue == [] && p.delivered == [] && p.lastSequence == -1
  {
    var t := Topic(name, true);
    var c := new MsgPublisherCenter();
    c.RegisterPublisher(t, size);
    p := c.publishers[name];
    var sub := if multi then Multi([t]) else Single(t);
    assert Joins(sub, c.publishers.Keys, name) by {
      assert [t][0] == t && (multi ==> Reached(c.publishers.Keys, [t]) == 1);
    }
    var ok := c.RegisterSubscriber(s, sub);
    panicked := c.DeregisterSubscriber(s, sub);
  }

  /**
   As written a subscriber that registers and deregisters is still subscribed and still served;
   when it named its one topic by itself, the deregistration panics as well.
   */
  method StillServed(name: string, size: int, multi: bool, s: Subscriber, e: Event) returns (panicked: bool, got: seq<Event>)
    requires Wants(s, e, -1)
    ensures panicked == !multi && got == [e]
  {
    var p;
    panicked, p := ComeAndGone(name, size, multi, s);
    var sent := p.PublishEvent(e, false, false);
    p.HandleNext();
    got := DeliveredTo(p.delivered, s);
  }
}
