// The MQTT client: packet identifiers, and publishing with an acknowledgement.
module Mqtt {

  const MAX_PACKET_ID: nat := 65535

  type PacketId = n: int | 0 <= n <= 65535

  const SUCCESS: int := 0
  const FAILURE: int := -1
  const PUBLISH: int := 3
  const PUBACK: int := 4
  const PUBREC: int := 5
  const PUBCOMP: int := 7

  // ----- packet identifiers -----

  function NextId(id: PacketId): PacketId {
    if id == MAX_PACKET_ID then 1 else id + 1
  }

  // The k-th identifier handed out when id was the last.
  function IdAfter(id: PacketId, k: nat): PacketId {
    if k == 0 then id else NextId(IdAfter(id, k - 1))
  }

  lemma {:induction false} IdAfterIs(id: PacketId, k: nat)
    requires id >= 1
    ensures IdAfter(id, k) == (id - 1 + k) % 65535 + 1
  {
    if k > 0 {
      IdAfterIs(id, k - 1);
      Successor(id - 1 + k - 1);
    }
  }

  lemma Successor(n: nat)
    ensures (n + 1) % 65535 == if n % 65535 == 65534 then 0 else n % 65535 + 1
  {
    var q, r := n / 65535, n % 65535;
    assert n == q * 65535 + r;
    if r == 65534 {
      assert n + 1 == (q + 1) * 65535;
    } else {
      assert n + 1 == q * 65535 + (r + 1);
    }
  }

  // Identifiers are never zero, and two of them are the same only 65535 apart.
  lemma IdsRepeat(id: PacketId, i: nat, j: nat)
    requires id >= 1 && i < j
    ensures IdAfter(id, i) != 0
    ensures IdAfter(id, i) == IdAfter(id, j) <==> (j - i) % 65535 == 0
  {
    IdAfterIs(id, i);
    IdAfterIs(id, j);
    SameRemainder(id - 1 + i, id - 1 + j);
  }

  lemma SameRemainder(a: nat, b: nat)
    requires a < b
    ensures a % 65535 == b % 65535 <==> (b - a) % 65535 == 0
  {
    var p, q := a / 65535, b / 65535;
    assert a == p * 65535 + a % 65535 && b == q * 65535 + b % 65535;
    assert b - a == (q - p) * 65535 + (b % 65535 - a % 65535);
  }

  // ----- what the peer and the line do -----

  datatype Line = Fine | BadAtRead | BadLater

  // One packet read, or no packet (kind -1): the state of the line after it, whether it can be decoded,
  // the identifier in it, and whether the answer it may call for can be sent.
  datatype Packet = Packet(kind: int, line: Line, decodes: bool, id: PacketId, replies: bool)

  predicate IsPacket(p: Packet) {
    -1 <= p.kind <= 15
  }

  // A code kept in an unsigned short on its way.
  function AsUnsigned(kind: int): int {
    if kind < 0 then kind + 65536 else kind
  }

  function CycleCode(p: Packet): int {
    if p.line == BadAtRead then AsUnsigned(p.kind)
    else if p.kind == PUBLISH && p.decodes && !p.replies then FAILURE
    else if p.kind == PUBREC && !(p.decodes && p.replies) then FAILURE
    else AsUnsigned(p.kind)
  }

  // cycle
  method Cycle(p: Packet) returns (rc: int)
    requires IsPacket(p)
    ensures rc == CycleCode(p)
  {
    var packetType := if p.kind == -1 then 65535 else p.kind;
    rc := SUCCESS;
    if p.line != BadAtRead {
      if packetType == PUBLISH {
        if p.decodes && !p.replies { rc := FAILURE; }
      } else if packetType == PUBREC {
        if !p.decodes { rc := FAILURE; } else if !p.replies { rc := FAILURE; }
      }
    }
    if rc == SUCCESS { rc := packetType; }
  }

  // ----- waiting -----

  // The packets read before the timer runs out, one wait after the other. last is what a wait that
  // runs out returns: the code of the last packet it saw, or FAILURE.
  function Await(ps: seq<Packet>, want: int, id: PacketId, last: int): int {
    if ps == [] then last
    else if CycleCode(ps[0]) == want then
      if ps[0].decodes && ps[0].id == id then SUCCESS else Await(ps[1..], want, id, FAILURE)
    else if ps[0].line != Fine then FAILURE
    else Await(ps[1..], want, id, CycleCode(ps[0]))
  }

  // waitfor, from packet i on
  method WaitFor(ps: seq<Packet>, i: nat, want: int, ghost id: PacketId) returns (rc: int, j: nat)
    requires i <= |ps| && want > 0 && forall k | 0 <= k < |ps| :: IsPacket(ps[k])
    ensures i <= j <= |ps|
    ensures rc == want ==> i < j && CycleCode(ps[j - 1]) == want
    ensures rc != want ==> Await(ps[i..], want, id, FAILURE) == rc
    ensures rc == want ==>
              Await(ps[i..], want, id, FAILURE) ==
              if ps[j - 1].decodes && ps[j - 1].id == id then SUCCESS else Await(ps[j..], want, id, FAILURE)
  {
    rc, j := FAILURE, i;
    while j < |ps|
      invariant i <= j <= |ps| && rc != want
      invariant Await(ps[i..], want, id, FAILURE) == Await(ps[j..], want, id, rc)
      decreases |ps| - j
    {
      assert ps[j..][0] == ps[j] && ps[j..][1..] == ps[j + 1..];
      var p := ps[j];
      rc := Cycle(p);
      j := j + 1;
      if rc == want { return; }
      if p.line != Fine {
        rc := FAILURE;
        return;
      }
    }
  }

  class Client {
    var nextPacketId: PacketId
    var isconnected: bool

    constructor ()
      ensures nextPacketId == 1 && !isconnected
    {
      nextPacketId, isconnected := 1, false;
    }

    method GetNextPacketId() returns (id: PacketId)
      modifies this`nextPacketId
      ensures id == nextPacketId == NextId(old(nextPacketId))
    {
      nextPacketId := if nextPacketId == MAX_PACKET_ID then 1 else nextPacketId + 1;
      id := nextPacketId;
    }

    // MQTTPublish; ps is what is read after the message was sent and before the timer runs out.
    method Publish(qos: int, serialized: bool, sent: bool, ps: seq<Packet>) returns (rc: int, id: PacketId)
      requires 0 <= qos <= 2 && forall k | 0 <= k < |ps| :: IsPacket(ps[k])
      modifies this`nextPacketId
      ensures nextPacketId == if isconnected && qos > 0 then NextId(old(nextPacketId)) else old(nextPacketId)
      ensures qos > 0 && isconnected ==> id == nextPacketId
      ensures !(isconnected && serialized && sent) ==> rc == FAILURE
      ensures isconnected && serialized && sent ==>
                rc == if qos == 0 then SUCCESS else Await(ps, if qos == 1 then PUBACK else PUBCOMP, id, FAILURE)
    {
      id := 0;
      if !isconnected { return FAILURE, id; }
      if qos > 0 { id := GetNextPacketId(); }
      if !serialized || !sent { return FAILURE, id; }
      rc := SUCCESS;
      if qos > 0 { rc := WaitForAck(if qos == 1 then PUBACK else PUBCOMP, id, ps); }
    }
  }

  method WaitForAck(want: int, id: PacketId, ps: seq<Packet>) returns (rc: int)
    requires want > 0 && forall k | 0 <= k < |ps| :: IsPacket(ps[k])
    ensures rc == Await(ps, want, id, FAILURE)
  {
    var i;
    rc, i := WaitFor(ps, 0, want, id);
    assert ps[0..] == ps;
    while rc == want
      invariant 0 <= i <= |ps|
      invariant rc == want ==> i > 0 && CycleCode(ps[i - 1]) == want
      invariant rc == want ==>
                  Await(ps, want, id, FAILURE) ==
                  if ps[i - 1].decodes && ps[i - 1].id == id then SUCCESS else Await(ps[i..], want, id, FAILURE)
      invariant rc != want ==> rc == Await(ps, want, id, FAILURE)
      decreases |ps| - i, rc == want
    {
      if ps[i - 1].decodes && ps[i - 1].id == id { return SUCCESS; }
      rc, i := WaitFor(ps, i, want, id);
    }
  }

  // ----- what success means -----

  predicate IsAck(p: Packet, want: int, id: PacketId) {
    p.kind == want && p.decodes && p.id == id
  }

  // A packet after which waiting goes on.
  predicate GoesOn(p: Packet, want: int, id: PacketId) {
    !IsAck(p, want, id) && (p.kind == want || p.line == Fine)
  }

  ghost predicate AckedAt(ps: seq<Packet>, want: int, id: PacketId, i: int) {
    0 <= i < |ps| && IsAck(ps[i], want, id) && forall k | 0 <= k < i :: GoesOn(ps[k], want, id)
  }

  // Publishing with an acknowledgement succeeds exactly when that acknowledgement, with the identifier
  // of this very message, was read since, or when the timer ran out right behind a packet of the
  // reserved type 0, which reads as success.
  lemma {:induction false} SuccessIff(ps: seq<Packet>, want: int, id: PacketId, last: int)
    requires (want == PUBACK || want == PUBCOMP) && last != SUCCESS
    requires forall k | 0 <= k < |ps| :: IsPacket(ps[k])
    ensures Await(ps, want, id, last) == SUCCESS <==>
            || (exists i :: AckedAt(ps, want, id, i))
            || (ps != [] && ps[|ps| - 1].kind == 0 && forall k | 0 <= k < |ps| :: GoesOn(ps[k], want, id))
  {
    if ps != [] {
      var p, rest := ps[0], ps[1..];
      Code(p, want);
      if IsAck(p, want, id) {
        assert AckedAt(ps, want, id, 0);
      } else if GoesOn(p, want, id) {
        Shifted(ps, want, id);
        if rest != [] { AnyLast(rest, want, id, if p.kind == want then FAILURE else CycleCode(p), last); }
        SuccessIff(rest, want, id, last);
      } else {
        assert forall i :: AckedAt(ps, want, id, i) ==> GoesOn(ps[0], want, id) || i == 0;
      }
    }
  }

  lemma Code(p: Packet, want: int)
    requires IsPacket(p) && (want == PUBACK || want == PUBCOMP)
    ensures CycleCode(p) == want <==> p.kind == want
    ensures CycleCode(p) == SUCCESS <==> p.kind == 0
  {
  }

  // Only an empty wait returns what it was given.
  lemma AnyLast(ps: seq<Packet>, want: int, id: PacketId, a: int, b: int)
    requires ps != []
    ensures Await(ps, want, id, a) == Await(ps, want, id, b)
  {
  }

  lemma Shifted(ps: seq<Packet>, want: int, id: PacketId)
    requires ps != [] && GoesOn(ps[0], want, id)
    ensures (exists i :: AckedAt(ps, want, id, i)) <==> exists i :: AckedAt(ps[1..], want, id, i)
    ensures (forall k | 0 <= k < |ps| :: GoesOn(ps[k], want, id)) <==>
            forall k | 0 <= k < |ps[1..]| :: GoesOn(ps[1..][k], want, id)
  {
    var rest := ps[1..];
    forall i | AckedAt(ps, want, id, i) ensures AckedAt(rest, want, id, i - 1) {
      forall k | 0 <= k < i - 1 ensures GoesOn(rest[k], want, id) { assert rest[k] == ps[k + 1]; }
    }
    forall i | AckedAt(rest, want, id, i) ensures AckedAt(ps, want, id, i + 1) {
      forall k | 0 <= k < i + 1 ensures GoesOn(ps[k], want, id) { if k > 0 { assert ps[k] == rest[k - 1]; } }
    }
    forall k | 0 <= k < |rest| ensures rest[k] == ps[k + 1] {}
    if forall k | 0 <= k < |rest| :: GoesOn(rest[k], want, id) {
      forall k | 0 <= k < |ps| ensures GoesOn(ps[k], want, id) { if k > 0 { assert ps[k] == rest[k - 1]; } }
    }
  }

  // Against a peer that sends no packet of type 0, success means that this message was acknowledged.
  lemma SuccessMeansAck(ps: seq<Packet>, want: int, id: PacketId) returns (i: nat)
    requires (want == PUBACK || want == PUBCOMP) && forall k | 0 <= k < |ps| :: IsPacket(ps[k]) && ps[k].kind != 0
    requires Await(ps, want, id, FAILURE) == SUCCESS
    ensures i < |ps| && ps[i].kind == want && ps[i].decodes && ps[i].id == id
  {
    SuccessIff(ps, want, id, FAILURE);
    i :| AckedAt(ps, want, id, i);
  }

  // The other way to succeed: no acknowledgement at all.
  lemma ReservedPacketReadsAsSuccess(id: PacketId)
    ensures Await([Packet(0, Fine, false, 0, true)], PUBACK, id, FAILURE) == SUCCESS
  {
    var ps := [Packet(0, Fine, false, 0, true)];
    assert ps[1..] == [];
  }
}
