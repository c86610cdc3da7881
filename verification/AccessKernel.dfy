// The kernel object, its DAS socket and MQTT client. What the platform, the servers and the clock do
// is handed to each call.
module AccessKernel {
  import opened Bytes
  import opened Access

  // ----- the socket layer, as seen by the platform -----

  datatype Socket = NoSocketYet | Open(id: nat)
  datatype NetCall = Create(id: nat) | Connect(id: nat) | Disconnect(id: nat) | Destroy(id: nat)

  // A history of calls in which every socket is created while there is none, used only while it is
  // there, and destroyed before the next; it leaves socket, the last of n created ones.
  predicate Orderly(net: seq<NetCall>, socket: Socket, n: nat) {
    if net == [] then socket == NoSocketYet && n == 0
    else
      var before := net[..|net| - 1];
      match net[|net| - 1]
      case Create(i) => n == i + 1 && socket == Open(i) && Orderly(before, NoSocketYet, i)
      case Connect(i) => socket == Open(i) && Orderly(before, socket, n)
      case Disconnect(i) => socket == Open(i) && Orderly(before, socket, n)
      case Destroy(i) => socket == NoSocketYet && Orderly(before, Open(i), n)
  }

  function Count(net: seq<NetCall>, c: NetCall): nat {
    if net == [] then 0 else Count(net[..|net| - 1], c) + if net[|net| - 1] == c then 1 else 0
  }

  lemma OrderlyNext(net: seq<NetCall>, socket: Socket, n: nat, c: NetCall, socket': Socket, n': nat)
    requires Orderly(net, socket, n)
    requires match c
             case Create(i) => socket == NoSocketYet && i == n && socket' == Open(i) && n' == n + 1
             case Destroy(i) => socket == Open(i) && socket' == NoSocketYet && n' == n
             case Connect(i) => socket == Open(i) && socket' == socket && n' == n
             case Disconnect(i) => socket == Open(i) && socket' == socket && n' == n
    ensures Orderly(net + [c], socket', n')
  {
    assert (net + [c])[..|net|] == net;
  }

  lemma {:induction false} OpenIsLast(net: seq<NetCall>, socket: Socket, n: nat)
    requires Orderly(net, socket, n) && socket.Open?
    ensures n == socket.id + 1
  {
    if !net[|net| - 1].Create? { OpenIsLast(net[..|net| - 1], socket, n); }
  }

  // Every socket ever created is destroyed exactly once, but for the one still open, never.
  lemma {:induction false} DestroyedOnce(net: seq<NetCall>, socket: Socket, n: nat, i: nat)
    requires Orderly(net, socket, n)
    ensures Count(net, Create(i)) == if i < n then 1 else 0
    ensures Count(net, Destroy(i)) == if i < n && socket != Open(i) then 1 else 0
  {
    if net != [] {
      var before := net[..|net| - 1];
      match net[|net| - 1]
      case Create(j) => DestroyedOnce(before, NoSocketYet, j, i);
      case Destroy(j) =>
        OpenIsLast(before, Open(j), n);
        DestroyedOnce(before, Open(j), n, i);
      case Connect(j) => DestroyedOnce(before, socket, n, i);
      case Disconnect(j) => DestroyedOnce(before, socket, n, i);
    }
  }

  // ----- what the outside does during a call -----

  // A CONNACK code, or FAILURE.
  type Code = n: int | -1 <= n <= 255

  datatype LogIn = LogIn(created: bool, connect: Error, prepared: bool, code: Code, cmds: seq<Command>)
  datatype Sub = Sub(ok: bool, cmds: seq<Command>)
  datatype Answer = Answer(error: Error, devId: bool, masterKey: bool)

  datatype Outside = Outside(
    expired: bool, upper: Answer, lower: Answer,
    unsub: seq<Command>, login: LogIn, sub: Sub, again: LogIn, resub: Sub,
    inbox: seq<Command>, netError: bool, silent: bool, sent: seq<Command>, sendFailed: bool)

  // ----- what a turn comes to -----

  function LoginError(o: LogIn, devId: bool): (e: Error)
    ensures e == Succ <==> o.created && o.connect == Succ && devId && o.prepared && o.code == 0
    ensures forall k: byte :: e == Mqtt(k) <==>
              o.created && o.connect == Succ && devId && o.prepared && o.code == k && k > 0
    ensures e != NeedReconnect && e != ForceOffline && e != NotSubscribed
  {
    if !o.created then NoSocket
    else if o.connect == HostUnknown then HostUnknown
    else if o.connect != Succ then NotConnected
    else if !devId then ParamInvalid
    else if !o.prepared then NotSerialized
    else if o.code == 0 then Succ
    else if o.code == -1 then MqttConnect
    else Mqtt(o.code)
  }

  // The commands read while waiting for the CONNACK, when the log-in gets that far.
  function LoginDelivers(o: LogIn, devId: bool): seq<Command> {
    if o.created && o.connect == Succ && devId && o.prepared then o.cmds else []
  }

  function JoinError(o: LogIn, sub: Sub, devId: bool): (e: Error)
    ensures e != NeedReconnect && e != ForceOffline
  {
    if LoginError(o, devId) == Succ && !sub.ok then NotSubscribed else LoginError(o, devId)
  }

  function JoinDelivers(o: LogIn, sub: Sub, devId: bool): seq<Command> {
    LoginDelivers(o, devId) + if LoginError(o, devId) == Succ then sub.cmds else []
  }

  function RegError(o: Outside, devId: bool): (e: Error)
    ensures e != NeedReconnect && e != ForceOffline
  {
    var e := JoinError(o.login, o.sub, devId);
    if e == SESSION_EXISTS then JoinError(o.again, o.resub, devId) else e
  }

  function RegDelivers(o: Outside, devId: bool, connected: bool): seq<Command> {
    (if connected then o.unsub else []) + JoinDelivers(o.login, o.sub, devId) +
    if JoinError(o.login, o.sub, devId) == SESSION_EXISTS then JoinDelivers(o.again, o.resub, devId) else []
  }

  // A log-in, and then the subscriptions.
  predicate Joins(o: LogIn, sub: Sub, devId: bool) {
    o.created && o.connect == Succ && devId && o.prepared && o.code == 0 && sub.ok
  }

  // The DAS answers a log-in with the code for a session it still has.
  predicate StillThere(o: LogIn, devId: bool) {
    o.created && o.connect == Succ && devId && o.prepared && o.code == 12
  }

  // A registration succeeds exactly when the new session or, where the DAS still has the old one, the old one
  // is joined; only then, and not for any other failure, is the old one tried.
  lemma RegIff(o: Outside, devId: bool, connected: bool)
    ensures RegError(o, devId) == Succ <==>
            Joins(o.login, o.sub, devId) || (StillThere(o.login, devId) && Joins(o.again, o.resub, devId))
    ensures RegError(o, devId) == NotSubscribed <==>
            var last, sub := if StillThere(o.login, devId) then o.again else o.login,
              if StillThere(o.login, devId) then o.resub else o.sub;
            LoginError(last, devId) == Succ && !sub.ok
    ensures !StillThere(o.login, devId) ==>
              RegDelivers(o, devId, connected)
              == (if connected then o.unsub else []) + JoinDelivers(o.login, o.sub, devId)
  {
    hide LoginError, LoginDelivers;
    var cmds := (if connected then o.unsub else []) + JoinDelivers(o.login, o.sub, devId);
    assert cmds + [] == cmds;
  }

  function WorkError(o: Outside): Error {
    if o.netError || o.silent || o.sendFailed then NeedReconnect else Succ
  }

  function WorkDelivers(o: Outside): seq<Command> {
    o.inbox + if o.netError || o.silent then [] else o.sent
  }

  // What is left of an answer of the LBS when refused credentials are cleared.
  function Cleared(a: Answer): Answer {
    a.(devId := a.devId && a.error != DevIdInconformity, masterKey := a.masterKey && a.error != MasterKeyInvalid)
  }

  function LbsAnswer(o: Outside): Answer {
    if o.upper.error == SignCheck then Cleared(o.lower) else Cleared(o.upper)
  }

  // The answer that counts is the first one, or the second where the first rejects the signature; it clears
  // just the credential it refuses.
  lemma LbsIff(o: Outside)
    ensures LbsAnswer(o).error == Succ <==>
            o.upper.error == Succ || (o.upper.error == SignCheck && o.lower.error == Succ)
    ensures LbsAnswer(o).error == SignCheck <==> o.upper.error == SignCheck && o.lower.error == SignCheck
    ensures o.upper.error != SignCheck ==>
              && (LbsAnswer(o).devId <==> o.upper.devId && o.upper.error != DevIdInconformity)
              && (LbsAnswer(o).masterKey <==> o.upper.masterKey && o.upper.error != MasterKeyInvalid)
    ensures o.upper.error == SignCheck ==>
              && (LbsAnswer(o).devId <==> o.lower.devId && o.lower.error != DevIdInconformity)
              && (LbsAnswer(o).masterKey <==> o.lower.masterKey && o.lower.error != MasterKeyInvalid)
  {
  }

  function LbsPauses(s: State, secretDuration: nat, expired: bool): bool {
    if s.entr == AuthcodeInvalid then !expired || s.lbs > secretDuration else s.lbs > 0 && !expired
  }

  // The outcome of a turn taken in state s, on a DAS connection or without one.
  function Faced(s: State, connected: bool, secretDuration: nat, o: Outside): Outcome {
    if s.risk then Waited
    else match s.cnt
      case Unredirected =>
        var a := LbsAnswer(o);
        if LbsPauses(s, secretDuration, o.expired) then Waited else Tried(a.error, [], a.devId, a.masterKey)
      case Redirected =>
        if s.das > 0 && !o.expired then Waited
        else Tried(RegError(o, s.devId), RegDelivers(o, s.devId, connected), s.devId, s.masterKey)
      case Registered => Tried(WorkError(o), WorkDelivers(o), s.devId, s.masterKey)
      case Broken =>
        if s.das > 0 && !o.expired then Waited
        else Tried(LoginError(o.login, s.devId), LoginDelivers(o.login, s.devId), s.devId, s.masterKey)
      case FastReg => Waited
      case FastRegV3 => Waited
  }

  // A turn waits exactly under access control, or when an attempt has failed before and the time set for that
  // many failures has not run out.
  lemma WaitsIff(s: State, connected: bool, secretDuration: nat, o: Outside)
    requires Linked(s)
    ensures Faced(s, connected, secretDuration, o).Waited? <==>
            || s.risk
            || (s.cnt == Unredirected && s.lbs > 0 && !o.expired)
            || ((s.cnt == Redirected || s.cnt == Broken) && Streak(s.log) > 0 && !o.expired)
  {
    hide Legal, Up, Found, Streak, RegError, RegDelivers, LbsAnswer, WorkError, WorkDelivers, LoginError, LoginDelivers;
  }

  datatype Request =
    | DoInit(ok: bool, server: bytes, devId: bool, masterKey: bool)
    | DoFini | DoStart | DoYield(o: Outside)
    | DoStop(o: Outside, queueEmpty: bool, unsub: seq<Command>)
    | DoSetNetOption(name: int, fits: bool)

  class Kernel {
    var my: Life
    var cnt: Cloud
    var entr: Entrance
    var lbs: nat
    var das: nat
    var risk: bool
    var devId: bool
    var masterKey: bool
    var server: bytes
    var secretDuration: nat
    var socket: Socket
    var isconnected: bool
    ghost var log: seq<Note>
    ghost var net: seq<NetCall>
    var created: nat  // sockets the platform has handed out

    ghost function View(): State
      reads this
    {
      State(my, cnt, entr, lbs, das, risk, devId, masterKey, server, log)
    }

    ghost predicate Wired()
      reads this
    {
      Orderly(net, socket, created) && (isconnected <==> socket.Open?)
    }

    ghost predicate Valid()
      reads this
    {
      && Inv(View()) && Wired()
      && (cnt == Registered ==> isconnected)
      && (my != Started ==> !isconnected)
    }

    constructor ()
      ensures View() == BLANK && Valid()
    {
      my, cnt, entr, lbs, das, risk := Idle0, Unredirected, Normal, 0, 0, false;
      devId, masterKey, server, secretDuration := false, false, [], 0;
      socket, isconnected := NoSocketYet, false;
      log, net, created := [], [], 0;
    }

    // ----- MQTTNet.c -----

    // A socket may only be made when there is none: its handle would be lost.
    method NetConnect(made: bool, result: Error) returns (e: Error)
      requires Wired() && socket == NoSocketYet && !isconnected
      modifies this`socket, this`net, this`created
      ensures e == if !made then NoSocket else if result == Succ || result == HostUnknown then result else NotConnected
      ensures Orderly(net, socket, created) && (socket.Open? <==> e == Succ)
    {
      hide Orderly;
      if !made { return NoSocket; }
      OrderlyNext(net, socket, created, Create(created), Open(created), created + 1);
      socket, net, created := Open(created), net + [Create(created)], created + 1;
      OrderlyNext(net, socket, created, Connect(socket.id), socket, created);
      net := net + [Connect(socket.id)];
      e := if result == Succ || result == HostUnknown then result else NotConnected;
      if e != Succ {
        NetDisconnect();
        NetFini();
      }
    }

    method NetDisconnect()
      requires Orderly(net, socket, created)
      modifies this`net
      ensures Orderly(net, socket, created)
    {
      hide Orderly;
      if socket.Open? {
        OrderlyNext(net, socket, created, Disconnect(socket.id), socket, created);
        net := net + [Disconnect(socket.id)];
      }
    }

    method NetFini()
      requires Orderly(net, socket, created)
      modifies this`net, this`socket
      ensures Orderly(net, socket, created) && socket == NoSocketYet
    {
      hide Orderly;
      if socket.Open? {
        OrderlyNext(net, socket, created, Destroy(socket.id), NoSocketYet, created);
        net, socket := net + [Destroy(socket.id)], NoSocketYet;
      }
    }

    // ----- access_domain_bus.c -----

    method ObeyOne(c: Command)
      modifies this`server, this`masterKey, this`entr, this`cnt, this`risk
      ensures View() == Obey(old(View()), c)
    {
      match c
      case Redirect(name) =>
        if name != server {
          server, masterKey := name, false;
          entr, cnt := SwitchingOver, Unredirected;
        }
      case Malformed =>
      case Offline => risk := true;
    }

    // A wait for a packet hands every command read on the way to its handler.
    method Wait(cmds: seq<Command>)
      modifies this`server, this`masterKey, this`entr, this`cnt, this`risk
      ensures View() == ObeyAll(old(View()), cmds)
    {
      var i: nat := 0;
      while i < |cmds|
        invariant i <= |cmds| && ObeyAll(View(), cmds[i..]) == ObeyAll(old(View()), cmds)
      {
        assert cmds[i..][1..] == cmds[i + 1..];
        ObeyOne(cmds[i]);
        i := i + 1;
      }
    }

    // ----- das_transport.c -----

    // das_mqttlogin2das with MQTTConnect in it.
    method Login(o: LogIn) returns (e: Error)
      requires Wired() && socket == NoSocketYet
      modifies this`socket, this`net, this`created, this`isconnected
      modifies this`server, this`masterKey, this`entr, this`cnt, this`risk
      ensures e == LoginError(o, devId)
      ensures Wired() && (isconnected <==> e == Succ)
      ensures View() == ObeyAll(old(View()), LoginDelivers(o, devId))
    {
      hide Orderly, Obey;
      e := NetConnect(o.created, o.connect);
      if e == Succ {
        if !devId {
          e := ParamInvalid;
        } else if !o.prepared {
          e := NotSerialized;
        } else {
          Wait(o.cmds);
          if o.code == 0 {
            isconnected := true;
          } else {
            e := if o.code == -1 then MqttConnect else Mqtt(o.code);
          }
        }
      }
      if e != Succ {
        NetDisconnect();
        NetFini();
      }
    }

    method Logout()
      requires Wired()
      modifies this`socket, this`net, this`isconnected
      ensures Wired() && !isconnected
    {
      hide Orderly;
      isconnected := false;
      NetDisconnect();
      NetFini();
    }

    // Subscribing to the topics of the device; a failure logs out again.
    method Subscribe(o: Sub) returns (e: Error)
      requires Wired() && isconnected
      modifies this`socket, this`net, this`isconnected
      modifies this`server, this`masterKey, this`entr, this`cnt, this`risk
      ensures Wired() && (isconnected <==> e == Succ) && e == if o.ok then Succ else NotSubscribed
      ensures View() == ObeyAll(old(View()), o.cmds)
    {
      hide Orderly, Obey;
      Wait(o.cmds);
      e := Succ;
      if !o.ok {
        e := NotSubscribed;
        Logout();
      }
    }

    // das_reg, and das_light_reg_v2, which differ in what the log-in says.
    method LoginAndSubscribe(o: LogIn, sub: Sub) returns (e: Error)
      requires Wired() && socket == NoSocketYet
      modifies this`socket, this`net, this`created, this`isconnected
      modifies this`server, this`masterKey, this`entr, this`cnt, this`risk
      ensures e == JoinError(o, sub, devId)
      ensures Wired() && (isconnected <==> e == Succ)
      ensures View() == ObeyAll(old(View()), JoinDelivers(o, sub, devId))
    {
      hide Orderly, Obey, ObeyAll, LoginError, LoginDelivers;
      ghost var start := View();
      e := Login(o);
      ghost var cmds := LoginDelivers(o, devId);
      assert cmds + [] == cmds;
      if e == Succ {
        e := Subscribe(sub);
        ObeyConcat(start, cmds, sub.cmds);
      }
    }

    // The two unsubscribe calls wait for an answer only while connected.
    method Unreg(unsub: seq<Command>)
      requires Wired()
      modifies this`socket, this`net, this`isconnected
      modifies this`server, this`masterKey, this`entr, this`cnt, this`risk
      ensures Wired() && !isconnected
      ensures View() == ObeyAll(old(View()), if old(isconnected) then unsub else [])
    {
      hide Orderly, Obey;
      if isconnected { Wait(unsub); }
      Logout();
    }

    method LightReg(o: LogIn) returns (e: Error)
      requires Wired()
      modifies this`socket, this`net, this`created, this`isconnected
      modifies this`server, this`masterKey, this`entr, this`cnt, this`risk
      ensures e == LoginError(o, devId)
      ensures Wired() && (isconnected <==> e == Succ)
      ensures View() == ObeyAll(old(View()), LoginDelivers(o, devId))
    {
      hide Orderly, Obey, ObeyAll, LoginError, LoginDelivers;
      Logout();
      e := Login(o);
    }

    // das_yield: packets in, then one message out, unless the line is dead or has been silent too long.
    method Work(o: Outside) returns (e: Error)
      modifies this`server, this`masterKey, this`entr, this`cnt, this`risk
      ensures e == WorkError(o)
      ensures View() == ObeyAll(old(View()), WorkDelivers(o))
    {
      hide Obey, ObeyAll;
      ghost var start := View();
      Wait(o.inbox);
      assert o.inbox + [] == o.inbox;
      if o.netError || o.silent { return NeedReconnect; }
      Wait(o.sent);
      ObeyConcat(start, o.inbox, o.sent);
      e := if o.sendFailed then NeedReconnect else Succ;
    }

    // ----- ezdev_sdk_kernel_access.c -----

    // The digest is tried in upper case, and once more in lower case when the LBS rejects the signature.
    // Refused credentials are cleared.
    method LbsRedirect(upper: bool, first: Answer, second: Answer) returns (e: Error)
      modifies this`devId, this`masterKey
      ensures Answer(e, devId, masterKey) == Cleared(if upper && first.error == SignCheck then second else first)
      decreases upper
    {
      devId, masterKey, e := first.devId, first.masterKey, first.error;
      if e == DevIdInconformity { devId := false; }
      if e == MasterKeyInvalid { masterKey := false; }
      if e == SignCheck && upper {
        e := LbsRedirect(false, second, second);
      }
    }

    method LbsDo(o: Outside) returns (e: Error, ghost out: Outcome)
      requires cnt == Unredirected && !risk
      modifies this`devId, this`masterKey, this`cnt, this`lbs, this`das, this`log
      ensures out == Faced(old(View()), isconnected, secretDuration, o)
      ensures e == if out.Waited? then Succ else out.error
      ensures cnt != Registered
      ensures View() == if out.Waited? then old(View()) else LbsTurn(old(View()), out.error, out.devId, out.masterKey)
    {
      hide LbsTurn;
      ghost var start := View();
      if entr == AuthcodeInvalid {
        if !o.expired || lbs > secretDuration { return Succ, Waited; }
      } else if lbs > 0 && !o.expired {
        return Succ, Waited;
      }
      e := LbsRedirect(true, o.upper, o.lower);
      out := Tried(e, [], devId, masterKey);
      LbsDone(e);
      LbsTurnKeys(start, e, devId, masterKey);
    }

    method LbsDone(e: Error)
      modifies this`cnt, this`lbs, this`das, this`log
      ensures View() == LbsTurn(old(View()), e, devId, masterKey)
      ensures cnt == Registered ==> old(cnt) == Registered
    {
      log := log + [Lbs(e == Succ)];
      if e == Succ {
        cnt, lbs, das := Redirected, 0, 0;
      } else if e == NotConnected || e == HostUnknown {
        lbs := 1;
      } else {
        lbs := lbs + 1;
        if lbs >= MAX_LBS { lbs := MAX_LBS; }
      }
    }

    // The whole registration: off the old session, on to the new one, and into the old one after all
    // when the DAS says it still has it.
    method RegAll(o: Outside) returns (e: Error)
      requires Wired()
      modifies this`socket, this`net, this`created, this`isconnected
      modifies this`server, this`masterKey, this`entr, this`cnt, this`risk
      ensures e == RegError(o, devId)
      ensures Wired() && (isconnected <==> e == Succ)
      ensures View() == ObeyAll(old(View()), RegDelivers(o, devId, old(isconnected)))
    {
      hide Orderly, Obey, ObeyAll, JoinError, JoinDelivers;
      ghost var start := View();
      ghost var cmds := if isconnected then o.unsub else [];
      Unreg(o.unsub);
      e := LoginAndSubscribe(o.login, o.sub);
      ObeyConcat(start, cmds, JoinDelivers(o.login, o.sub, devId));
      cmds := cmds + JoinDelivers(o.login, o.sub, devId);
      assert cmds + [] == cmds;
      if e == SESSION_EXISTS {
        e := LoginAndSubscribe(o.again, o.resub);
        ObeyConcat(start, cmds, JoinDelivers(o.again, o.resub, devId));
      }
    }

    method RegDo(o: Outside) returns (e: Error, ghost out: Outcome)
      requires Wired() && cnt == Redirected && !risk
      modifies this
      ensures out == Faced(old(View()), old(isconnected), secretDuration, o) && secretDuration == old(secretDuration)
      ensures e == if out.Waited? then Succ else out.error
      ensures View() == if out.Waited? then old(View()) else RegTurn(ObeyAll(old(View()), out.cmds), out.error)
      ensures Wired() && (out.Tried? ==> (isconnected <==> e == Succ))
      ensures cnt == Registered ==> out.Tried? && e == Succ
    {
      hide Orderly, Obey, ObeyAll, RegTurn, RetryTurn, RegError, RegDelivers;
      ghost var start := View();
      out := Faced(start, isconnected, secretDuration, o);
      if das > 0 && !o.expired { return Succ, out; }
      e := RegAll(o);
      ObeyFrame(start, out.cmds);
      RegDone(e);
    }

    method RegDone(e: Error)
      modifies this`cnt, this`lbs, this`das, this`entr, this`log
      ensures View() == RegTurn(old(View()), e)
      ensures cnt == Registered ==> e == Succ || old(cnt) == Registered
    {
      if e == Succ {
        cnt, lbs, das := Registered, 0, 0;
        if entr == SwitchingOver {
          log := log + [Switchover];
          entr := Normal;
        } else {
          log := log + [Online];
        }
      } else {
        log := log + [DasFailed];
        das := das + 1;
        if das - 1 >= MAX_REG {
          cnt, lbs, das := Unredirected, 0, 0;
        }
      }
    }

    method WorkDo(o: Outside) returns (e: Error, ghost out: Outcome)
      requires cnt == Registered && !risk
      modifies this`server, this`masterKey, this`entr, this`cnt, this`risk
      ensures out == Faced(old(View()), isconnected, secretDuration, o) && out.Tried? && e == out.error
      ensures View() == WorkTurn(ObeyAll(old(View()), out.cmds), out.error)
    {
      hide Obey, ObeyAll, WorkError, WorkDelivers;
      out := Faced(View(), isconnected, secretDuration, o);
      e := Work(o);
      if e == NeedReconnect { cnt := Broken; }
    }

    method RetryDo(o: Outside) returns (e: Error, ghost out: Outcome)
      requires Wired() && cnt == Broken && !risk
      modifies this
      ensures out == Faced(old(View()), old(isconnected), secretDuration, o) && secretDuration == old(secretDuration)
      ensures e == if out.Waited? then Succ else out.error
      ensures View() == if out.Waited? then old(View()) else RetryTurn(ObeyAll(old(View()), out.cmds), out.error)
      ensures Wired() && (out.Tried? ==> (isconnected <==> e == Succ))
      ensures cnt == Registered ==> out.Tried? && e == Succ
    {
      hide Orderly, Obey, ObeyAll, RegTurn, RetryTurn, LoginError, LoginDelivers;
      ghost var start := View();
      out := Faced(start, isconnected, secretDuration, o);
      if das > 0 && !o.expired { return Succ, out; }
      e := LightReg(o.login);
      ObeyFrame(start, out.cmds);
      RetryDone(e);
    }

    method RetryDone(e: Error)
      modifies this`cnt, this`lbs, this`das, this`log
      ensures View() == RetryTurn(old(View()), e)
      ensures cnt == Registered ==> e == Succ || old(cnt) == Registered
    {
      if e == Succ {
        cnt, lbs, das := Registered, 0, 0;
        log := log + [Reconnected];
      } else {
        log := log + [DasFailed];
        das := das + 1;
        if das - 1 >= MAX_RETRY {
          log := log + [Broke];
          cnt, lbs, das := Unredirected, 0, 0;
        }
      }
    }

    // cnt_state_yield. The two fast registration states have handlers of their own in the source; no
    // call ever enters them. A redirect command read on the way sends the device back to the LBS exactly
    // when the turn does not end in the result that overwrites it.
    method YieldOnce(o: Outside) returns (e: Error, ghost out: Outcome)
      requires Linked(View()) && Wired() && (cnt == Registered ==> isconnected)
      modifies this
      ensures out == Faced(old(View()), old(isconnected), old(secretDuration), o)
      ensures Wired() && (cnt == Registered ==> isconnected)
      ensures View() == Turn(old(View()), out) && my == old(my)
      ensures e == if old(risk) then ForceOffline else if out.Waited? then Succ else out.error
      ensures old(cnt) != Unredirected && out.Tried? && Redirects(old(View()), out.cmds) ==>
                (cnt == Unredirected <==> !Overwrites(old(cnt), e))
    {
      hide Orderly, Obey, ObeyAll, LbsTurn, RegTurn, RetryTurn, Legal, Up, Found, Streak;
      hide LbsAnswer, LbsPauses, RegError, RegDelivers, WorkError, WorkDelivers, LoginError, LoginDelivers;
      hide Redirects, Overwrites;
      ghost var start := View();
      ghost var duration := secretDuration;
      if risk { return ForceOffline, Waited; }
      match cnt {
        case Unredirected => e, out := LbsDo(o);
        case Redirected => e, out := RegDo(o);
        case Registered => e, out := WorkDo(o);
        case Broken => e, out := RetryDo(o);
        case FastReg => assert false;
        case FastRegV3 => assert false;
      }
      End(e);
      TurnKeeps(start, out);
      if start.cnt != Unredirected && out.Tried? && Redirects(start, out.cmds) { RedirectHeeded(start, out); }
    }

    // ----- ezdev_sdk_kernel.c -----

    method Init(ok: bool, name: bytes, hasId: bool, hasKey: bool) returns (done: bool)
      requires Valid()
      modifies this
      ensures Valid() && View() == Next(old(View()), Call.Init(ok, name, hasId, hasKey))
      ensures done <==> (old(my) == Idle0 || old(my) == Idle2) && ok
    {
      hide Orderly, Legal, Up, Found, Streak;
      NextKeeps(View(), Call.Init(ok, name, hasId, hasKey));
      if my != Idle0 && my != Idle2 { return false; }
      Clear();
      if !ok { return false; }
      server, devId, masterKey := name, hasId, hasKey;
      socket, isconnected := NoSocketYet, false;
      my := Idle;
      done := true;
    }

    // The kernel structure set to zero; the socket and the client lie outside it.
    method Clear()
      modifies this`my, this`cnt, this`entr, this`lbs, this`das, this`risk
      modifies this`devId, this`masterKey, this`server, this`secretDuration
      ensures View() == BLANK.(log := log)
    {
      my, cnt, entr, lbs, das, risk := Idle0, Unredirected, Normal, 0, 0, false;
      devId, masterKey, server, secretDuration := false, false, [], 0;
    }

    method Fini() returns (done: bool)
      requires Valid()
      modifies this
      ensures Valid() && View() == Next(old(View()), Call.Fini)
      ensures done <==> old(my) == Idle || old(my) == Stopped
      ensures done ==> socket == NoSocketYet
    {
      hide Orderly, Legal, Up, Found, Streak;
      NextKeeps(View(), Call.Fini);
      if my != Idle && my != Stopped { return false; }
      NetFini();
      Clear();
      done := true;
    }

    method Start() returns (done: bool)
      requires Valid()
      modifies this`my
      ensures Valid() && View() == Next(old(View()), Call.Start)
      ensures done <==> old(my) == Idle || old(my) == Stopped
    {
      hide Orderly, Legal, Up, Found, Streak;
      NextKeeps(View(), Call.Start);
      done := my == Idle || my == Stopped;
      if done { my := Started; }
    }

    method Yield(o: Outside) returns (done: bool, ghost out: Outcome)
      requires Valid()
      modifies this
      ensures Valid() && View() == Next(old(View()), Call.Yield(out))
      ensures old(my) == Started ==> out == Faced(old(View()), old(isconnected), old(secretDuration), o)
      ensures done <==> old(my) == Started && !old(risk) && (out.Tried? ==> out.error == Succ)
    {
      hide Orderly, Legal, Up, Found, Streak, Turn, Faced;
      if my != Started { return false, Waited; }
      ghost var start := View();
      var e;
      e, out := YieldOnce(o);
      TurnKeeps(start, out);
      done := e == Succ;
    }

    // While registered, stopping gives the queue another turn to send the offline message. The count of
    // rounds meant to end the loop ends it in the first one.
    method Drain(o: Outside, queueEmpty: bool) returns (ghost out: Outcome)
      requires Linked(View()) && Wired() && (cnt == Registered ==> isconnected) && !risk
      modifies this
      ensures Wired() && (cnt == Registered ==> isconnected)
      ensures View() == (if old(cnt) == Registered then Turn(old(View()), out) else old(View())) && my == old(my)
      ensures old(cnt) == Registered ==> out == Faced(old(View()), old(isconnected), old(secretDuration), o)
    {
      hide Orderly, Legal, Up, Found, Streak, Turn, Linked, Faced;
      ghost var met := Faced(View(), isconnected, secretDuration, o);
      out := Waited;
      var rounds: nat := 0;
      var go := true;
      while go && cnt == Registered
        invariant Wired() && (cnt == Registered ==> isconnected) && my == old(my)
        invariant go ==> rounds == 0 && View() == old(View())
        invariant go ==> met == Faced(View(), isconnected, secretDuration, o)
        invariant !go ==> old(cnt) == Registered && View() == Turn(old(View()), out) && out == met
        decreases go
      {
        var e;
        e, out := YieldOnce(o);
        go := false;
        if e == Succ && !queueEmpty {
          go := rounds >= 3;
          rounds := rounds + 1;
        }
      }
    }

    method Stop(o: Outside, queueEmpty: bool, unsub: seq<Command>)
      returns (done: bool, ghost last: Outcome, ghost cmds: seq<Command>)
      requires Valid()
      modifies this
      ensures Valid() && View() == Next(old(View()), Call.Stop(last, cmds))
      ensures done <==> old(my) == Started && !old(risk)
      ensures done ==> my == Stopped && socket == NoSocketYet
      ensures cmds == unsub || cmds == []
      ensures done && old(cnt) == Registered ==>
                last == Faced(old(View()).(my := Stopped), old(isconnected), old(secretDuration), o)
    {
      hide Orderly, Legal, Up, Found, Streak, Turn, ObeyAll, Faced;
      if my != Started || risk { return false, Waited, []; }
      ghost var start := View();
      my := Stopped;
      last := Drain(o, queueEmpty);
      cmds := if isconnected then unsub else [];
      Unreg(unsub);
      cnt := Unredirected;
      NextKeeps(start, Call.Stop(last, cmds));
      done := true;
    }

    // Option 1 is the network interface to bind to, whose name must fit.
    method SetNetOption(name: int, fits: bool) returns (ok: bool)
      requires Valid()
      modifies this`cnt
      ensures ok <==> name == 3 || (name == 1 && fits)
      ensures Valid() && View() == if name == 3 then Next(old(View()), Call.Break) else old(View())
    {
      hide Orderly, Legal, Up, Found, Streak;
      NextKeeps(View(), Call.Break);
      if name == 3 && cnt == Registered { cnt := Broken; }
      ok := if name == 1 then fits else name == 3;
    }

    // The part of a turn that looks at the result code only.
    method End(e: Error)
      requires Wired()
      modifies this`risk, this`cnt, this`lbs, this`das, this`log
      ensures View() == Epilogue(old(View()), e)
      ensures cnt == Registered ==> old(cnt) == Registered
    {
      if e == BLACKLIST {
        risk := true;
      } else if e == SESSION_LOST {
        log := log + [Broke];
        cnt, lbs, das := Unredirected, 0, 0;
      }
    }
  }

  // Any requests in any order, with any behaviour of the servers, the network and the clock.
  method Drive(k: Kernel, requests: seq<Request>) returns (ghost calls: seq<Call>)
    requires k.Valid()
    modifies k
    ensures k.Valid() && k.View() == Run(old(k.View()), calls)
  {
    hide Next, Orderly, Inv;
    calls := [];
    var i: nat := 0;
    while i < |requests|
      invariant i <= |requests| && k.Valid() && k.View() == Run(old(k.View()), calls)
    {
      ghost var call := Serve(k, requests[i]);
      RunConcat(old(k.View()), calls, call);
      calls := calls + call;
      i := i + 1;
    }
  }

  // A device from its first moment on: while it is registered its counters are zero and its one socket
  // is open and connected; every other socket it ever had was destroyed, once.
  method Session(requests: seq<Request>) returns (k: Kernel, ghost calls: seq<Call>)
    ensures fresh(k) && k.Valid() && k.View() == Run(BLANK, calls)
    ensures k.cnt == Registered ==> k.lbs == 0 && k.das == 0 && k.socket.Open? && k.isconnected
    ensures forall i: nat :: Count(k.net, Create(i)) == if i < k.created then 1 else 0
    ensures forall i: nat :: Count(k.net, Destroy(i)) == if i < k.created && k.socket != Open(i) then 1 else 0
  {
    hide Orderly, Count, Run;
    k := new Kernel();
    calls := Drive(k, requests);
    Counters(calls);
    forall i: nat
      ensures Count(k.net, Create(i)) == if i < k.created then 1 else 0
      ensures Count(k.net, Destroy(i)) == if i < k.created && k.socket != Open(i) then 1 else 0
    {
      DestroyedOnce(k.net, k.socket, k.created, i);
    }
  }

  method Serve(k: Kernel, r: Request) returns (ghost calls: seq<Call>)
    requires k.Valid()
    modifies k
    ensures k.Valid() && k.View() == Run(old(k.View()), calls)
  {
    hide Next, Orderly, Inv;
    ghost var last, cmds, done;
    match r
    case DoInit(ok, server, devId, masterKey) =>
      done := k.Init(ok, server, devId, masterKey);
      calls := [Call.Init(ok, server, devId, masterKey)];
    case DoFini =>
      done := k.Fini();
      calls := [Call.Fini];
    case DoStart =>
      done := k.Start();
      calls := [Call.Start];
    case DoYield(o) =>
      done, last := k.Yield(o);
      calls := [Call.Yield(last)];
    case DoStop(o, queueEmpty, unsub) =>
      done, last, cmds := k.Stop(o, queueEmpty, unsub);
      calls := [Call.Stop(last, cmds)];
    case DoSetNetOption(name, fits) =>
      done := k.SetNetOption(name, fits);
      calls := if name == 3 then [Call.Break] else [];
  }

  lemma {:induction false} RunConcat(s: State, a: seq<Call>, b: seq<Call>)
    ensures Run(s, a + b) == Run(Run(s, a), b)
    decreases a
  {
    if a == [] {
      assert a + b == b;
    } else {
      assert (a + b)[1..] == a[1..] + b;
      RunConcat(Next(s, a[0]), a[1..], b);
    }
  }

  lemma LbsTurnKeys(s: State, e: Error, devId: bool, masterKey: bool)
    ensures LbsTurn(s.(devId := devId, masterKey := masterKey), e, devId, masterKey) == LbsTurn(s, e, devId, masterKey)
  {
  }

  lemma {:induction false} ObeyConcat(s: State, a: seq<Command>, b: seq<Command>)
    ensures ObeyAll(s, a + b) == ObeyAll(ObeyAll(s, a), b)
    decreases a
  {
    if a == [] {
      assert a + b == b;
    } else {
      assert (a + b)[1..] == a[1..] + b;
      ObeyConcat(Obey(s, a[0]), a[1..], b);
    }
  }
}
