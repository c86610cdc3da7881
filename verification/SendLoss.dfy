// When messages are lost without a notice.
module SendLoss {
  import opened SendQueue

  // How many messages a step loses without a notice.
  function Lost(s: State, max: nat, step: Step): nat {
    match step
    case Pushing(_) => 0
    case Sends(o, more, noticed) => if LostInSending(s, max, o, more, noticed) then 1 else 0
    case Clearing => |s.items|
  }

  // The message taken out is put back into a queue that others have filled up since, or is done with and
  // the queue of events is full.
  predicate LostInSending(s: State, max: nat, o: Sending, more: seq<Entering>, noticed: bool) {
    s.items != [] &&
    if o == Failed && s.items[0].left > 1 then |s.items| - 1 + |more| >= max else !noticed
  }

  lemma LostIff(s: State, max: nat, o: Sending, more: seq<Entering>, noticed: bool)
    requires |s.items| <= max
    ensures Silent(Turn(s, max, o, more, noticed).trace) ==
            Silent(s.trace) + if LostInSending(s, max, o, more, noticed) then 1 else 0
  {
    if s.items == [] {
      PushAllSilent(s, max, more);
    } else {
      var m := s.items[0];
      var t := s.(items := s.items[1..]);
      var u := if o == Sent || o == Failed then Noted(t, Publish(m.id)) else t;
      SilentAppended(t.trace, Publish(m.id));
      PushAllSilent(u, max, more);
      var v := PushAll(u, max, more);
      SilentAppended(v.trace, Ack(m.id));
      SilentAppended(v.trace, Mute(m.id));
      SilentAppended(v.trace, Drop(m.id));
    }
  }

  // How many messages are gone without a notice.
  function Silent(trace: seq<Entry>): nat {
    if trace == [] then 0
    else
      var e := trace[|trace| - 1];
      Silent(trace[..|trace| - 1]) + if e.Mute? || e.Drop? then 1 else 0
  }

  lemma SilentAppended(trace: seq<Entry>, e: Entry)
    ensures Silent(trace + [e]) == Silent(trace) + if e.Mute? || e.Drop? then 1 else 0
  {
    assert (trace + [e])[..|trace|] == trace;
  }

  lemma {:induction false} PushAllSilent(s: State, max: nat, more: seq<Entering>)
    requires |s.items| <= max
    ensures var t := PushAll(s, max, more);
            && Silent(t.trace) == Silent(s.trace)
            && |t.items| == if |s.items| + |more| < max then |s.items| + |more| else max
    decreases more
  {
    if more != [] {
      SilentAppended(s.trace, Accept(more[0].tries, if more[0].urgent then |s.items| else 0));
      PushAllSilent(Push(s, max, more[0]), max, more[1..]);
    }
  }

  lemma {:induction false} ClearSilent(s: State)
    ensures Silent(Clear(s).trace) == Silent(s.trace) + |s.items|
    decreases s.items
  {
    if s.items != [] {
      SilentAppended(s.trace, Drop(s.items[0].id));
      ClearSilent(Noted(s.(items := s.items[1..]), Drop(s.items[0].id)));
    }
  }

  function LostInRun(s: State, max: nat, steps: seq<Step>): nat
    decreases steps
  {
    if steps == [] then 0 else Lost(s, max, steps[0]) + LostInRun(Next(s, max, steps[0]), max, steps[1..])
  }

  // Over every run, the messages gone without a notice are those that its steps have lost.
  lemma {:induction false} SilentRun(s: State, max: nat, steps: seq<Step>)
    requires Inv(s, max)
    ensures Silent(Run(s, max, steps).trace) == Silent(s.trace) + LostInRun(s, max, steps)
    decreases steps
  {
    hide Holds, Orders;
    if steps != [] {
      match steps[0] {
        case Pushing(x) => SilentAppended(s.trace, Accept(x.tries, if x.urgent then |s.items| else 0));
        case Sends(o, more, noticed) => LostIff(s, max, o, more, noticed);
        case Clearing => ClearSilent(s);
      }
      NextKeeps(s, max, steps[0]);
      SilentRun(Next(s, max, steps[0]), max, steps[1..]);
    }
  }

  predicate Quiet(step: Step) {
    step.Pushing? || (step.Sends? && step.more == [] && step.noticed)
  }

  // With nobody pushing in between, room for every notice and no clearing, no accepted message is lost.
  lemma {:induction false} NothingLost(s: State, max: nat, steps: seq<Step>)
    requires Inv(s, max) && forall step | step in steps :: Quiet(step)
    ensures LostInRun(s, max, steps) == 0
    decreases steps
  {
    hide Holds, Orders;
    if steps != [] {
      assert Quiet(steps[0]) && forall step | step in steps[1..] :: step in steps;
      NextKeeps(s, max, steps[0]);
      NothingLost(Next(s, max, steps[0]), max, steps[1..]);
    }
  }

  // Where nothing was lost, there is exactly one acknowledgement for every accepted message that is not
  // queued, and none for others.
  lemma AckedOnce(max: nat, steps: seq<Step>, id: nat)
    ensures var s := Run(EMPTY, max, steps);
            LostInRun(EMPTY, max, steps) == 0 ==>
              Count(s.trace, Ack(id)) == if id < |Accepted(s.trace)| && !HasId(s.items, id) then 1 else 0
  {
    EmptyHolds(max);
    SilentRun(EMPTY, max, steps);
    EveryMessage(max, steps, id);
    SilentCounted(Run(EMPTY, max, steps).trace, id);
    hide Run, LostInRun, Accepted, HasId;
  }

  lemma {:induction false} SilentCounted(trace: seq<Entry>, id: nat)
    ensures Count(trace, Mute(id)) + Count(trace, Drop(id)) <= Silent(trace)
  {
    if trace != [] { SilentCounted(trace[..|trace| - 1], id); }
  }
}
