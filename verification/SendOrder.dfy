// When messages overtake each other in the queue, and when they cannot.
module SendOrder {
  import opened SendQueue

  predicate Patient(step: Step) {
    match step
    case Pushing(x) => !x.urgent
    case Sends(_, more, _) => forall i | 0 <= i < |more| :: !more[i].urgent
    case Clearing => true
  }

  // Without urgent messages nothing is put in front of others.
  lemma {:induction false} PatientRun(s: State, max: nat, steps: seq<Step>)
    requires !Overtaken(s.trace) && forall step | step in steps :: Patient(step)
    ensures !Overtaken(Run(s, max, steps).trace)
    decreases steps
  {
    hide Overtaken;
    if steps != [] {
      assert Patient(steps[0]) && forall step | step in steps[1..] :: step in steps;
      PatientNext(s, max, steps[0]);
      PatientRun(Next(s, max, steps[0]), max, steps[1..]);
    }
  }

  lemma PatientNext(s: State, max: nat, step: Step)
    requires !Overtaken(s.trace) && Patient(step)
    ensures !Overtaken(Next(s, max, step).trace)
  {
    hide Overtaken;
    match step
    case Pushing(x) => Appended(s.trace, Accept(x.tries, 0));
    case Sends(o, more, _) =>
      if s.items == [] {
        PatientPushes(s, max, more);
      } else {
        var m := s.items[0];
        var t := s.(items := s.items[1..]);
        Appended(t.trace, Publish(m.id));
        var u := if o == Sent || o == Failed then Noted(t, Publish(m.id)) else t;
        PatientPushes(u, max, more);
        var v := PushAll(u, max, more);
        Appended(v.trace, Ack(m.id));
        Appended(v.trace, Mute(m.id));
        Appended(v.trace, Drop(m.id));
      }
    case Clearing => PatientClear(s);
  }

  lemma {:induction false} PatientPushes(s: State, max: nat, more: seq<Entering>)
    requires !Overtaken(s.trace) && forall i | 0 <= i < |more| :: !more[i].urgent
    ensures !Overtaken(PushAll(s, max, more).trace)
    decreases more
  {
    hide Overtaken;
    if more != [] {
      Appended(s.trace, Accept(more[0].tries, 0));
      assert forall i | 0 <= i < |more| - 1 :: more[1..][i] == more[i + 1];
      PatientPushes(Push(s, max, more[0]), max, more[1..]);
    }
  }

  lemma {:induction false} PatientClear(s: State)
    requires !Overtaken(s.trace)
    ensures !Overtaken(Clear(s).trace)
    decreases s.items
  {
    hide Overtaken;
    if s.items != [] {
      Appended(s.trace, Drop(s.items[0].id));
      PatientClear(Noted(s.(items := s.items[1..]), Drop(s.items[0].id)));
    }
  }

  // Whenever something is queued and there is room, an urgent message breaks the order: it is published
  // before what was there.
  lemma Overtaking(s: State, max: nat, tries: Tries)
    requires Inv(s, max) && 0 < |s.items| < max
    ensures var t := Turn(Push(s, max, Entering(tries, true)), max, Sent, [], true);
            t.trace == s.trace + [Accept(tries, |s.items|), Publish(s.next), Ack(s.next)] && !InOrder(t.trace)
  {
    var accept := Accept(tries, |s.items|);
    var u := s.trace + [accept];
    assert s.trace + [accept, Publish(s.next), Ack(s.next)] == u + [Publish(s.next)] + [Ack(s.next)];
    Appended(s.trace, accept);
    Appended(u, Publish(s.next));
    Appended(u + [Publish(s.next)], Ack(s.next));
    hide InOrder, Done, Accepted, Published, Through;
    var oldest := s.items[0].id;
    assert HasId(s.items, oldest);
    if InOrder(s.trace) { ThroughOnce(s.trace, oldest); }
  }
}
