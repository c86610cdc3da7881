// The send queue as an object, and what takes messages out of it.
module Sender {
  import opened SendQueue

  datatype Result = Success | QueueEmpty | NeedReconnect | PubError | OtherError

  class Queue {
    var items: seq<Msg>
    var next: nat
    const maxsize: nat
    ghost var trace: seq<Entry>

    ghost function View(): State
      reads this
    {
      State(items, next, trace)
    }

    constructor (maxsize: nat)
      ensures View() == EMPTY && this.maxsize == maxsize
    {
      items, next, trace := [], 0, [];
      this.maxsize := maxsize;
    }

    // push_queue, and push_queue_head for an urgent message
    method Enqueue(x: Entering) returns (ok: bool)
      modifies this
      ensures View() == Push(old(View()), maxsize, x)
      ensures ok <==> old(|items|) < maxsize
    {
      var m := Msg(next, x.tries);
      if x.urgent {
        ghost var before := |items|;
        ok := EnqueueHead(m);
        if ok { trace := trace + [Accept(x.tries, before)]; }
      } else {
        ok := EnqueueTail(m);
        if ok { trace := trace + [Accept(x.tries, 0)]; }
      }
      if ok { next := next + 1; }
    }

    method EnqueueTail(m: Msg) returns (ok: bool)
      modifies this`items
      ensures ok <==> old(|items|) < maxsize
      ensures items == if ok then old(items) + [m] else old(items)
    {
      ok := |items| < maxsize;
      if ok { items := items + [m]; }
    }

    // What other threads push while a message is being published.
    method EnqueueAll(more: seq<Entering>)
      modifies this
      ensures View() == PushAll(old(View()), maxsize, more)
    {
      var i: nat := 0;
      while i < |more|
        invariant i <= |more| && PushAll(View(), maxsize, more[i..]) == PushAll(old(View()), maxsize, more)
      {
        assert more[i..][1..] == more[i + 1..];
        var ok := Enqueue(more[i]);
        i := i + 1;
      }
    }

    method EnqueueHead(m: Msg) returns (ok: bool)
      modifies this`items
      ensures ok <==> old(|items|) < maxsize
      ensures items == if ok then [m] + old(items) else old(items)
    {
      ok := |items| < maxsize;
      if ok { items := [m] + items; }
    }

    // send_message_to_das_v2, and v3 with a sending that is never held back.
    method SendMessage(o: Sending, more: seq<Entering>, noticed: bool) returns (r: Result)
      modifies this
      ensures View() == Turn(old(View()), maxsize, o, more, noticed)
      ensures r == QueueEmpty <==> old(items) == []
      ensures r == NeedReconnect <==> old(items) != [] && o == Failed && old(items)[0].left > 1
      ensures r == Success <==> old(items) != [] && o == Sent
      ensures r == PubError <==> old(items) != [] && o == Failed && old(items)[0].left <= 1
    {
      hide PushAll;
      if items == [] {
        EnqueueAll(more);
        return QueueEmpty;
      }
      var m := items[0];
      items := items[1..];
      if o == Sent || o == Failed { trace := trace + [Publish(m.id)]; }
      EnqueueAll(more);
      if o == Failed && m.left > 1 {
        var ok := EnqueueHead(m.(left := m.left - 1));
        if !ok { trace := trace + [Drop(m.id)]; }
        return NeedReconnect;
      }
      trace := trace + [if noticed then Ack(m.id) else Mute(m.id)];
      r := if o == Sent then Success else if o == Failed then PubError else OtherError;
    }
  }

  // The message at the head has failed and may be tried again, which takes a new connection.
  predicate Reconnects(items: seq<Msg>, o: Sending) {
    items != [] && o == Failed && items[0].left > 1
  }

  // das_message_send: the second queue has its turn only when the first one had nothing to complain of.
  method MessageSend(
    v2: Queue, v3: Queue,
    o2: Sending, more2: seq<Entering>, noticed2: bool, o3: Sending, more3: seq<Entering>, noticed3: bool)
    returns (r: Result)
    requires v2 != v3
    modifies v2, v3
    ensures v2.View() == Turn(old(v2.View()), v2.maxsize, o2, more2, noticed2)
    ensures v3.View() ==
            if old(v2.items) == [] || o2 == Sent then Turn(old(v3.View()), v3.maxsize, o3, more3, noticed3)
            else old(v3.View())
    ensures r == NeedReconnect <==>
            || Reconnects(old(v2.items), o2)
            || ((old(v2.items) == [] || o2 == Sent) && Reconnects(old(v3.items), o3))
    ensures r == Success <==> (old(v2.items) == [] || o2 == Sent) && old(v3.items) != [] && o3 == Sent
    ensures r == QueueEmpty <==> (old(v2.items) == [] || o2 == Sent) && old(v3.items) == []
  {
    hide Turn;
    r := v2.SendMessage(o2, more2, noticed2);
    if r == Success || r == QueueEmpty {
      r := v3.SendMessage(o3, more3, noticed3);
    }
  }
}
