// The queue of messages on their way to the DAS: bounded, first in first out but for urgent messages,
// with a failed message put back at the head as long as it may be sent again.
module SendQueue {
  import opened Sequences

  // How often a message may be published.
  type Tries = n: int | 1 <= n <= 65535 witness 1

  // A message to be queued, at the head when it is urgent.
  datatype Entering = Entering(tries: Tries, urgent: bool)

  // What happens to a queue. Messages are numbered in the order in which they were accepted; overtaken
  // says how many queued ones a message was put in front of. A message is done with a notice of its result,
  // without one because the queue of events took it in no more, or dropped.
  datatype Entry =
    | Accept(tries: Tries, overtaken: nat)
    | Publish(id: nat)
    | Ack(id: nat)
    | Mute(id: nat)
    | Drop(id: nat)

  predicate Closes(e: Entry, id: nat) {
    e == Ack(id) || e == Mute(id) || e == Drop(id)
  }

  datatype Msg = Msg(id: nat, left: nat)
  datatype State = State(items: seq<Msg>, next: nat, trace: seq<Entry>)

  // What sending comes to: published, publishing failed, no publishing at all for some other error, or
  // a command that risk control holds back.
  datatype Sending = Sent | Failed | Unsent | Held

  const EMPTY := State([], 0, [])

  // ----- steps -----

  function Noted(s: State, e: Entry): State {
    s.(trace := s.trace + [e])
  }

  // push_queue and push_queue_head for a new message: refused when the queue is full.
  function Push(s: State, max: nat, x: Entering): State {
    if |s.items| >= max then s
    else
      var m := Msg(s.next, x.tries);
      if x.urgent then Noted(s.(items := [m] + s.items, next := s.next + 1), Accept(x.tries, |s.items|))
      else Noted(s.(items := s.items + [m], next := s.next + 1), Accept(x.tries, 0))
  }

  function PushAll(s: State, max: nat, more: seq<Entering>): State
    decreases more
  {
    if more == [] then s else PushAll(Push(s, max, more[0]), max, more[1..])
  }

  // push_queue_head for a message that was sent in vain: when the queue is full, it is gone.
  function PutBack(s: State, max: nat, m: Msg): State {
    if |s.items| >= max then Noted(s, Drop(m.id)) else s.(items := [m] + s.items)
  }

  // send_message_to_das: one message out of the queue; more is what others push meanwhile, and noticed says
  // whether the notice of a message that is done finds room in the queue of events.
  function Turn(s: State, max: nat, o: Sending, more: seq<Entering>, noticed: bool): State {
    if s.items == [] then PushAll(s, max, more)
    else
      var m := s.items[0];
      var t := s.(items := s.items[1..]);
      var u := PushAll(if o == Sent || o == Failed then Noted(t, Publish(m.id)) else t, max, more);
      if o == Failed && m.left > 1 then PutBack(u, max, m.(left := m.left - 1))
      else Noted(u, if noticed then Ack(m.id) else Mute(m.id))
  }

  // clear_queue: everything goes without a word.
  function Clear(s: State): State
    decreases s.items
  {
    if s.items == [] then s
    else Clear(Noted(s.(items := s.items[1..]), Drop(s.items[0].id)))
  }

  datatype Step = Pushing(x: Entering) | Sends(o: Sending, more: seq<Entering>, noticed: bool) | Clearing

  function Next(s: State, max: nat, step: Step): State {
    match step
    case Pushing(x) => Push(s, max, x)
    case Sends(o, more, noticed) => Turn(s, max, o, more, noticed)
    case Clearing => Clear(s)
  }

  function Run(s: State, max: nat, steps: seq<Step>): State
    decreases steps
  {
    if steps == [] then s else Run(Next(s, max, steps[0]), max, steps[1..])
  }

  // ----- reading a trace -----

  function Accepted(trace: seq<Entry>): seq<Tries> {
    if trace == [] then []
    else
      var e := trace[|trace| - 1];
      Accepted(trace[..|trace| - 1]) + if e.Accept? then [e.tries] else []
  }

  // How many messages are through.
  function Done(trace: seq<Entry>): nat {
    if trace == [] then 0
    else
      var e := trace[|trace| - 1];
      Done(trace[..|trace| - 1]) + if e.Ack? || e.Mute? || e.Drop? then 1 else 0
  }

  function Count(trace: seq<Entry>, e: Entry): nat {
    if trace == [] then 0
    else Count(trace[..|trace| - 1], e) + if trace[|trace| - 1] == e then 1 else 0
  }

  function Published(trace: seq<Entry>, id: nat): nat {
    Count(trace, Publish(id))
  }

  // How often a message was completed.
  function Through(trace: seq<Entry>, id: nat): nat {
    Count(trace, Ack(id)) + Count(trace, Mute(id)) + Count(trace, Drop(id))
  }

  // Whatever is published or completed is the oldest accepted message that is not through yet.
  predicate InOrder(trace: seq<Entry>) {
    trace == [] ||
    (var before := trace[..|trace| - 1];
     InOrder(before) && (trace[|trace| - 1].Accept? || (trace[|trace| - 1].id == Done(before) < |Accepted(before)|)))
  }

  // Some message was put in front of others.
  predicate Overtaken(trace: seq<Entry>) {
    trace != [] && (Overtaken(trace[..|trace| - 1]) || (trace[|trace| - 1].Accept? && trace[|trace| - 1].overtaken > 0))
  }

  // ----- the invariant -----

  ghost predicate HasId(all: seq<Msg>, id: nat) {
    exists i :: 0 <= i < |all| && all[i].id == id
  }

  // A younger message stands before an older one.
  ghost predicate Crossed(all: seq<Msg>) {
    exists i, j :: 0 <= i < j < |all| && all[i].id > all[j].id
  }

  // all are the messages not yet through, in the order in which they will be sent, be they queued or in
  // hand: how often each was and may be published, and that each accepted one is here or through, once.
  ghost predicate Holds(all: seq<Msg>, next: nat, trace: seq<Entry>) {
    && next == |Accepted(trace)|
    && (forall i | 0 <= i < |all| ::
          all[i].id < next && all[i].left + Published(trace, all[i].id) == Accepted(trace)[all[i].id])
    && (forall i, j | 0 <= i < j < |all| :: all[i].id != all[j].id)
    && (forall id: nat | id < next :: Published(trace, id) <= Accepted(trace)[id])
    && (forall id: nat | id >= next :: Published(trace, id) == 0)
    && (forall id: nat :: Through(trace, id) == if id < next && !HasId(all, id) then 1 else 0)
  }

  // As long as nothing was put in front of others, the order is that of arrival; afterwards it is not,
  // in what has happened or in what will.
  ghost predicate Orders(all: seq<Msg>, trace: seq<Entry>) {
    if Overtaken(trace) then !InOrder(trace) || Crossed(all)
    else
      && InOrder(trace) && |Accepted(trace)| == Done(trace) + |all|
      && forall i | 0 <= i < |all| :: all[i].id == Done(trace) + i
  }

  ghost predicate Inv(s: State, max: nat) {
    && |s.items| <= max && Holds(s.items, s.next, s.trace) && Orders(s.items, s.trace)
    && forall m | m in s.items :: m.left > 0
  }

  // ----- what holds over every run -----

  // In every run, urgent messages or not: no message is published more often than it may be, and every
  // accepted one is either queued or was completed by exactly one entry.
  lemma EveryMessage(max: nat, steps: seq<Step>, id: nat)
    ensures var s := Run(EMPTY, max, steps);
            && s.next == |Accepted(s.trace)|
            && Published(s.trace, id) <= (if id < s.next then Accepted(s.trace)[id] else 0)
            && Through(s.trace, id) == if id < s.next && !HasId(s.items, id) then 1 else 0
  {
    EmptyHolds(max);
    RunKeeps(EMPTY, max, steps);
    hide Run, Accepted, Published, Through, HasId;
  }

  // In every run: what has happened and what will is in the order of arrival exactly when no message was
  // put in front of others; once everything is through, that is the order of what has happened.
  lemma OrderIff(max: nat, steps: seq<Step>)
    ensures var s := Run(EMPTY, max, steps);
            && (InOrder(s.trace) && !Crossed(s.items) <==> !Overtaken(s.trace))
            && (s.items == [] ==> (InOrder(s.trace) <==> !Overtaken(s.trace)))
  {
    EmptyHolds(max);
    RunKeeps(EMPTY, max, steps);
    hide Run, InOrder, Overtaken, Holds;
  }

  // The message id has its place in the order of arrival: through, queued behind the older ones, or not
  // yet accepted.
  predicate Arriving(s: State, id: nat) {
    var through := Done(s.trace);
    && InOrder(s.trace)
    && Through(s.trace, id) == (if id < through then 1 else 0)
    && |Accepted(s.trace)| == through + |s.items|
    && (through <= id < |Accepted(s.trace)| ==> s.items[id - through].id == id)
  }

  // In every run without such a message: whatever is published or completed is the oldest message not
  // through; the messages through are the oldest ones; the rest is queued in the order of arrival.
  lemma FirstInFirstOut(max: nat, steps: seq<Step>, id: nat)
    ensures var s := Run(EMPTY, max, steps);
            !Overtaken(s.trace) ==> Arriving(s, id)
  {
    EmptyHolds(max);
    RunKeeps(EMPTY, max, steps);
    hide Run, Overtaken, Inv, Arriving;
    OrderedArrives(Run(EMPTY, max, steps), max, id);
  }

  lemma OrderedArrives(s: State, max: nat, id: nat)
    ensures Inv(s, max) && !Overtaken(s.trace) ==> Arriving(s, id)
  {
    hide Accepted, Done, InOrder, Overtaken, Holds, Through;
    if Inv(s, max) && !Overtaken(s.trace) {
      ThroughOnce(s.trace, id);
      var through := Done(s.trace);
      if through <= id < |Accepted(s.trace)| { var m := s.items[id - through]; }
    }
  }

  lemma EmptyHolds(max: nat)
    ensures Inv(EMPTY, max)
  {
  }

  // ----- what every step keeps -----

  lemma {:induction false} RunKeeps(s: State, max: nat, steps: seq<Step>)
    requires Inv(s, max)
    ensures Inv(Run(s, max, steps), max)
    decreases steps
  {
    hide Inv;
    if steps != [] {
      NextKeeps(s, max, steps[0]);
      RunKeeps(Next(s, max, steps[0]), max, steps[1..]);
    }
  }

  lemma NextKeeps(s: State, max: nat, step: Step)
    requires Inv(s, max)
    ensures Inv(Next(s, max, step), max)
  {
    hide Inv, Keeping;
    match step
    case Pushing(x) =>
      NoHand(s, max);
      PushKeeps([], s, max, x);
      NoHand(Push(s, max, x), max);
    case Sends(o, more, noticed) => TurnKeeps(s, max, o, more, noticed);
    case Clearing => ClearKeeps(s, max);
  }

  // hand is the message taken out of the queue, or nothing.
  ghost predicate Keeping(hand: seq<Msg>, s: State, max: nat) {
    && |s.items| <= max && Holds(hand + s.items, s.next, s.trace) && Orders(hand + s.items, s.trace)
    && forall m | m in s.items :: m.left > 0
  }

  lemma NoHand(s: State, max: nat)
    ensures Inv(s, max) <==> Keeping([], s, max)
  {
    assert [] + s.items == s.items;
    hide Holds, Orders;
  }

  lemma TurnKeeps(s: State, max: nat, o: Sending, more: seq<Entering>, noticed: bool)
    requires Inv(s, max)
    ensures Inv(Turn(s, max, o, more, noticed), max)
  {
    hide Holds, Orders, PushAll, Keeping;
    if s.items == [] {
      NoHand(s, max);
      PushAllKeeps([], s, max, more);
      NoHand(PushAll(s, max, more), max);
    } else {
      var m := s.items[0];
      var t := s.(items := s.items[1..]);
      assert s.items == [m] + t.items && m in s.items;
      var less := m.(left := m.left - 1);
      if o == Sent || o == Failed {
        HandPublished(s, max);
        EndKeeps(less, Noted(t, Publish(m.id)), max, o == Failed && m.left > 1, more, noticed);
      } else {
        HandTaken(s, max);
        EndKeeps(m, t, max, false, more, noticed);
      }
    }
  }

  lemma PushKeeps(hand: seq<Msg>, s: State, max: nat, x: Entering)
    requires Keeping(hand, s, max)
    ensures Keeping(hand, Push(s, max, x), max)
  {
    hide Holds, Orders;
    var all, m := hand + s.items, Msg(s.next, x.tries);
    var k := if x.urgent then |hand| else |all|;
    HoldsAccept(all, s.next, s.trace, k, x.tries);
    OrdersAccept(all, s.next, s.trace, k, x.tries);
    if x.urgent {
      assert Inserted(all, |hand|, m) == hand + ([m] + s.items);
    } else {
      assert Inserted(all, |all|, m) == hand + (s.items + [m]);
    }
  }

  lemma {:induction false} PushAllKeeps(hand: seq<Msg>, s: State, max: nat, more: seq<Entering>)
    requires Keeping(hand, s, max)
    ensures Keeping(hand, PushAll(s, max, more), max) && |s.items| <= |PushAll(s, max, more).items|
    decreases more
  {
    hide Keeping;
    if more != [] {
      PushKeeps(hand, s, max, more[0]);
      PushAllKeeps(hand, Push(s, max, more[0]), max, more[1..]);
    }
  }

  lemma {:induction false} ClearKeeps(s: State, max: nat)
    requires Inv(s, max)
    ensures Inv(Clear(s), max)
    decreases s.items
  {
    if s.items != [] {
      HoldsThrough(s.items, s.next, s.trace, Drop(s.items[0].id));
      OrdersThrough(s.items, s.next, s.trace, Drop(s.items[0].id));
      hide Holds, Orders;
      assert forall m | m in s.items[1..] :: m in s.items;
      ClearKeeps(Noted(s.(items := s.items[1..]), Drop(s.items[0].id)), max);
    }
  }

  lemma EndKeeps(m: Msg, t: State, max: nat, again: bool, more: seq<Entering>, noticed: bool)
    requires |t.items| < max && Keeping([m], t, max) && (again ==> m.left > 0)
    ensures var u := PushAll(t, max, more);
            var done := if noticed then Ack(m.id) else Mute(m.id);
            Inv(if again then PutBack(u, max, m) else Noted(u, done), max)
  {
    PushAllKeeps([m], t, max, more);
    hide Holds, Orders, PushAll;
    var u := PushAll(t, max, more);
    var all := [m] + u.items;
    assert all[1..] == u.items;
    var e := if again then Drop(m.id) else if noticed then Ack(m.id) else Mute(m.id);
    HoldsThrough(all, u.next, u.trace, e);
    OrdersThrough(all, u.next, u.trace, e);
  }

  lemma HandTaken(s: State, max: nat)
    requires Inv(s, max) && s.items != []
    ensures Keeping([s.items[0]], s.(items := s.items[1..]), max)
  {
    hide Holds, Orders;
    assert [s.items[0]] + s.items[1..] == s.items;
  }

  lemma HandPublished(s: State, max: nat)
    requires Inv(s, max) && s.items != []
    ensures s.items[0].left > 0
    ensures var m := s.items[0];
            Keeping([m.(left := m.left - 1)], Noted(s.(items := s.items[1..]), Publish(m.id)), max)
  {
    assert s.items[0] in s.items;
    HoldsPublish(s.items, s.next, s.trace);
    OrdersPublish(s.items, s.next, s.trace);
    hide Holds, Orders;
  }

  // ----- what every entry keeps -----

  lemma Appended(trace: seq<Entry>, e: Entry)
    ensures Accepted(trace + [e]) == Accepted(trace) + if e.Accept? then [e.tries] else []
    ensures Done(trace + [e]) == Done(trace) + if e.Ack? || e.Mute? || e.Drop? then 1 else 0
    ensures InOrder(trace + [e]) <==> InOrder(trace) && (e.Accept? || e.id == Done(trace) < |Accepted(trace)|)
    ensures Overtaken(trace + [e]) <==> Overtaken(trace) || (e.Accept? && e.overtaken > 0)
    ensures forall id: nat :: Published(trace + [e], id) == Published(trace, id) + if e == Publish(id) then 1 else 0
    ensures forall id: nat :: Through(trace + [e], id) == Through(trace, id) + if Closes(e, id) then 1 else 0
  {
    assert (trace + [e])[..|trace|] == trace;
  }

  // In order, the messages through are the oldest ones.
  lemma {:induction false} ThroughOnce(trace: seq<Entry>, id: nat)
    requires InOrder(trace)
    ensures Through(trace, id) == if id < Done(trace) then 1 else 0
  {
    if trace != [] { ThroughOnce(trace[..|trace| - 1], id); }
  }

  lemma HoldsAccept(all: seq<Msg>, next: nat, trace: seq<Entry>, k: nat, tries: Tries)
    requires Holds(all, next, trace) && k <= |all|
    ensures Holds(Inserted(all, k, Msg(next, tries)), next + 1, trace + [Accept(tries, |all| - k)])
  {
    var e, m := Accept(tries, |all| - k), Msg(next, tries);
    var longer := Inserted(all, k, m);
    Appended(trace, e);
    IdsInserted(all, k, m);
    hide Accepted, Published, Through, HasId, Inserted;
    var before, after := Accepted(trace), Accepted(trace + [e]);
    assert forall i | 0 <= i < |before| :: after[i] == before[i];
  }

  lemma OrdersAccept(all: seq<Msg>, next: nat, trace: seq<Entry>, k: nat, tries: Tries)
    requires Holds(all, next, trace) && Orders(all, trace) && k <= |all|
    ensures Orders(Inserted(all, k, Msg(next, tries)), trace + [Accept(tries, |all| - k)])
  {
    Appended(trace, Accept(tries, |all| - k));
    hide Accepted, Published, Through, InOrder, Overtaken, Done;
    var longer := Inserted(all, k, Msg(next, tries));
    forall i | 0 <= i < |longer|
      ensures longer[i] == if i < k then all[i] else if i == k then Msg(next, tries) else all[i - 1]
    {
    }
    if k < |all| {
      assert longer[k].id > longer[k + 1].id;
    } else if Overtaken(trace) && InOrder(trace) {
      var i, j :| 0 <= i < j < |all| && all[i].id > all[j].id;
      assert longer[i].id > longer[j].id;
    }
  }

  lemma IdsInserted(all: seq<Msg>, k: nat, m: Msg)
    requires k <= |all|
    ensures |Inserted(all, k, m)| == |all| + 1
    ensures forall i | 0 <= i <= |all| ::
              Inserted(all, k, m)[i] == if i < k then all[i] else if i == k then m else all[i - 1]
    ensures forall id: nat :: HasId(Inserted(all, k, m), id) <==> id == m.id || HasId(all, id)
  {
    var longer := Inserted(all, k, m);
    forall id: nat ensures HasId(longer, id) <==> id == m.id || HasId(all, id) {
      if HasId(all, id) {
        var i :| 0 <= i < |all| && all[i].id == id;
        assert longer[if i < k then i else i + 1].id == id;
      }
      if id == m.id { assert longer[k].id == id; }
    }
  }

  // The message in hand has one try less.
  function Tried(all: seq<Msg>): seq<Msg>
    requires all != [] && all[0].left > 0
  {
    [all[0].(left := all[0].left - 1)] + all[1..]
  }

  lemma HoldsPublish(all: seq<Msg>, next: nat, trace: seq<Entry>)
    requires Holds(all, next, trace) && all != [] && all[0].left > 0
    ensures Holds(Tried(all), next, trace + [Publish(all[0].id)])
  {
    Appended(trace, Publish(all[0].id));
    hide Accepted, Published, Through;
    var tried := Tried(all);
    forall i | 0 <= i < |tried| ensures tried[i].id == all[i].id && (i > 0 ==> tried[i] == all[i]) {}
    forall id: nat ensures HasId(tried, id) <==> HasId(all, id) {
      if HasId(all, id) {
        var i :| 0 <= i < |all| && all[i].id == id;
        assert tried[i].id == id;
      }
    }
    hide HasId;
  }

  lemma OrdersPublish(all: seq<Msg>, next: nat, trace: seq<Entry>)
    requires Holds(all, next, trace) && Orders(all, trace) && all != [] && all[0].left > 0
    ensures Orders(Tried(all), trace + [Publish(all[0].id)])
  {
    Appended(trace, Publish(all[0].id));
    var tried := Tried(all);
    forall i | 0 <= i < |tried| ensures tried[i].id == all[i].id {}
    if Overtaken(trace) && InOrder(trace) {
      var i, j :| 0 <= i < j < |all| && all[i].id > all[j].id;
      assert tried[i].id > tried[j].id;
    }
  }

  lemma HoldsThrough(all: seq<Msg>, next: nat, trace: seq<Entry>, e: Entry)
    requires Holds(all, next, trace) && all != [] && Closes(e, all[0].id)
    ensures Holds(all[1..], next, trace + [e])
  {
    Appended(trace, e);
    hide Accepted, Published, Through;
    var rest := all[1..];
    forall i | 0 <= i < |rest| ensures rest[i] == all[i + 1] {}
    forall id: nat ensures HasId(rest, id) <==> id != all[0].id && HasId(all, id) {
      if id != all[0].id && HasId(all, id) {
        var i :| 0 <= i < |all| && all[i].id == id;
        assert rest[i - 1].id == id;
      }
    }
    assert HasId(all, all[0].id);
    hide HasId;
  }

  lemma OrdersThrough(all: seq<Msg>, next: nat, trace: seq<Entry>, e: Entry)
    requires Holds(all, next, trace) && Orders(all, trace)
    requires all != [] && Closes(e, all[0].id)
    ensures Orders(all[1..], trace + [e])
  {
    Appended(trace, e);
    var rest := all[1..];
    forall i | 0 <= i < |rest| ensures rest[i] == all[i + 1] {}
    if Overtaken(trace) && InOrder(trace) {
      var i, j :| 0 <= i < j < |all| && all[i].id > all[j].id;
      if i == 0 {
        assert HasId(all, all[j].id);
        ThroughOnce(trace, all[j].id);
      } else {
        assert rest[i - 1].id > rest[j - 1].id;
      }
    }
  }
}
