// The connection state of the kernel as one value, and what one call does to it: life cycle, cloud
// state, retry counters, and a log of what a caller or the servers get to see.
module Access {
  import opened Bytes

  datatype Life = Idle0 | Idle | Started | Stopped | Idle2
  datatype Cloud = Unredirected | Redirected | Registered | Broken | FastReg | FastRegV3
  datatype Entrance = Normal | SwitchingOver | AuthcodeInvalid

  datatype Error =
    | Succ | HostUnknown | NoSocket | NotConnected | ParamInvalid | NotSerialized
    | MqttConnect | Mqtt(code: byte) | NotSubscribed | NeedReconnect | ForceOffline
    | DevIdInconformity | MasterKeyInvalid | SignCheck | Other

  // CONNACK codes past those of the standard, offset as the kernel reports them.
  const BLACKLIST := Mqtt(10)
  const SESSION_LOST := Mqtt(11)
  const SESSION_EXISTS := Mqtt(12)

  const MAX_LBS: nat := 60
  const MAX_REG: nat := 5
  const MAX_RETRY: nat := 3

  // What happens, in order: a redirect asked of the LBS, a failed DAS log-in, and the four events.
  datatype Note = Lbs(ok: bool) | DasFailed | Online | Switchover | Reconnected | Broke

  datatype State = State(
    my: Life, cnt: Cloud, entr: Entrance, lbs: nat, das: nat, risk: bool,
    devId: bool, masterKey: bool, server: bytes, log: seq<Note>)

  // A command of the access domain, delivered inside any wait for a DAS packet.
  datatype Command = Redirect(name: bytes) | Malformed | Offline

  // What a turn of the kernel met: a timer that has not run out, or an attempt with its result code,
  // the commands delivered meanwhile and the credentials held afterwards.
  datatype Outcome = Waited | Tried(error: Error, cmds: seq<Command>, devId: bool, masterKey: bool)

  datatype Call =
    | Init(ok: bool, server: bytes, devId: bool, masterKey: bool)
    | Fini | Start | Yield(turn: Outcome) | Stop(last: Outcome, cmds: seq<Command>) | Break

  // ----- commands -----

  function Obey(s: State, c: Command): State {
    match c
    case Redirect(name) =>
      if name == s.server then s
      else s.(server := name, masterKey := false, entr := SwitchingOver, cnt := Unredirected)
    case Malformed => s
    case Offline => s.(risk := true)
  }

  function ObeyAll(s: State, cmds: seq<Command>): State
    decreases cmds
  {
    if cmds == [] then s else ObeyAll(Obey(s, cmds[0]), cmds[1..])
  }

  // ----- one turn -----

  function Logged(s: State, n: Note): State {
    s.(log := s.log + [n])
  }

  function Away(s: State): State {
    s.(cnt := Unredirected, lbs := 0, das := 0)
  }

  function LbsTurn(s: State, error: Error, devId: bool, masterKey: bool): State {
    var t := Logged(s.(devId := devId, masterKey := masterKey), Lbs(error == Succ));
    if error == Succ then t.(cnt := Redirected, lbs := 0, das := 0)
    else if error == NotConnected || error == HostUnknown then t.(lbs := 1)
    else t.(lbs := if t.lbs + 1 >= MAX_LBS then MAX_LBS else t.lbs + 1)
  }

  function RegTurn(s: State, error: Error): State {
    if error != Succ then
      if s.das >= MAX_REG then Away(Logged(s, DasFailed)) else Logged(s, DasFailed).(das := s.das + 1)
    else if s.entr == SwitchingOver then
      Logged(s.(cnt := Registered, lbs := 0, das := 0, entr := Normal), Switchover)
    else
      Logged(s.(cnt := Registered, lbs := 0, das := 0), Online)
  }

  function WorkTurn(s: State, error: Error): State {
    if error == NeedReconnect then s.(cnt := Broken) else s
  }

  function RetryTurn(s: State, error: Error): State {
    if error == Succ then Logged(s.(cnt := Registered, lbs := 0, das := 0), Reconnected)
    else if s.das >= MAX_RETRY then Away(Logged(Logged(s, DasFailed), Broke))
    else Logged(s, DasFailed).(das := s.das + 1)
  }

  function Epilogue(s: State, error: Error): State {
    if error == BLACKLIST then s.(risk := true)
    else if error == SESSION_LOST then Away(Logged(s, Broke))
    else s
  }

  function Turn(s: State, o: Outcome): State {
    if s.risk || o.Waited? then s
    else
      var t := ObeyAll(s, o.cmds);
      var u := match s.cnt
        case Unredirected => LbsTurn(s, o.error, o.devId, o.masterKey)
        case Redirected => RegTurn(t, o.error)
        case Registered => WorkTurn(t, o.error)
        case Broken => RetryTurn(t, o.error)
        case FastReg => s
        case FastRegV3 => s;
      Epilogue(u, o.error)
  }

  // ----- one call -----

  const BLANK := State(Idle0, Unredirected, Normal, 0, 0, false, false, false, [], [])

  function Next(s: State, c: Call): State {
    match c
    case Init(ok, server, devId, masterKey) =>
      if s.my != Idle0 && s.my != Idle2 then s
      else if !ok then BLANK.(log := s.log)
      else BLANK.(log := s.log, my := Idle, server := server, devId := devId, masterKey := masterKey)
    case Fini => if s.my != Idle && s.my != Stopped then s else BLANK.(log := s.log)
    case Start => if s.my != Idle && s.my != Stopped then s else s.(my := Started)
    case Yield(turn) => if s.my != Started then s else Turn(s, turn)
    case Stop(last, cmds) =>
      if s.my != Started || s.risk then s
      else
        var t := s.(my := Stopped);
        var u := if t.cnt == Registered then Turn(t, last) else t;
        ObeyAll(u, cmds).(cnt := Unredirected)
    case Break => if s.cnt == Registered then s.(cnt := Broken) else s
  }

  function Run(s: State, calls: seq<Call>): State
    decreases calls
  {
    if calls == [] then s else Run(Next(s, calls[0]), calls[1..])
  }

  // ----- reading the log -----

  // Of the events online, switchover and break, the last is not a break.
  predicate Up(log: seq<Note>) {
    if log == [] then false
    else match log[|log| - 1]
      case Online => true
      case Switchover => true
      case Broke => false
      case _ => Up(log[..|log| - 1])
  }

  // Since the last success of the LBS there was no registration.
  predicate Found(log: seq<Note>) {
    if log == [] then false
    else match log[|log| - 1]
      case Lbs(ok) => ok || Found(log[..|log| - 1])
      case DasFailed => Found(log[..|log| - 1])
      case Broke => Found(log[..|log| - 1])
      case _ => false
  }

  // DAS failures since the last success of the LBS or of a registration.
  function Streak(log: seq<Note>): nat {
    if log == [] then 0
    else match log[|log| - 1]
      case DasFailed => Streak(log[..|log| - 1]) + 1
      case Lbs(ok) => if ok then 0 else Streak(log[..|log| - 1])
      case Broke => Streak(log[..|log| - 1])
      case _ => 0
  }

  function Cap(log: seq<Note>): nat {
    if Found(log) then MAX_REG + 1 else MAX_RETRY + 1
  }

  // What may come next after log.
  predicate Allowed(log: seq<Note>, n: Note) {
    match n
    case Online => Found(log)
    case Switchover => Found(log)
    case Reconnected => Up(log)
    case DasFailed => Streak(log) < Cap(log)
    case _ => true
  }

  predicate Legal(log: seq<Note>) {
    log == [] || (Legal(log[..|log| - 1]) && Allowed(log[..|log| - 1], log[|log| - 1]))
  }

  // ----- what every call keeps -----

  predicate Inv(s: State) {
    Linked(s) && (s.my != Started ==> s.cnt == Unredirected)
  }

  predicate Linked(s: State) {
    && Legal(s.log)
    && s.entr != AuthcodeInvalid && s.my != Idle2
    && s.lbs <= MAX_LBS && (s.lbs > 0 ==> s.cnt == Unredirected)
    && match s.cnt
       case Unredirected => s.das <= MAX_REG
       case Redirected => s.das == Streak(s.log) <= MAX_REG && Found(s.log)
       case Registered => s.das == Streak(s.log) == 0 && Up(s.log) && !Found(s.log)
       case Broken => s.das == Streak(s.log) <= MAX_RETRY && Up(s.log) && !Found(s.log)
       case FastReg => false
       case FastRegV3 => false
  }

  // A state with the commands obeyed, before the turn's own effect: the cloud state may already be
  // reset, everything else is as it was.
  lemma {:induction false} ObeyFrame(s: State, cmds: seq<Command>)
    ensures var t := ObeyAll(s, cmds);
            && t.my == s.my && t.lbs == s.lbs && t.das == s.das && t.log == s.log && t.devId == s.devId
            && (t.cnt == s.cnt || t.cnt == Unredirected)
            && (t.entr == s.entr || t.entr == SwitchingOver)
            && (s.risk ==> t.risk)
    decreases cmds
  {
    if cmds != [] { ObeyFrame(Obey(s, cmds[0]), cmds[1..]); }
  }

  lemma Appended(log: seq<Note>, n: Note)
    ensures Legal(log + [n]) <==> Legal(log) && Allowed(log, n)
    ensures Up(log + [n]) <==> n.Online? || n.Switchover? || (!n.Broke? && Up(log))
    ensures Found(log + [n]) <==> (n.Lbs? && n.ok) || ((n.Lbs? || n.DasFailed? || n.Broke?) && Found(log))
    ensures Streak(log + [n]) ==
            if n.DasFailed? then Streak(log) + 1
            else if (n.Lbs? && !n.ok) || n.Broke? then Streak(log) else 0
  {
    assert (log + [n])[..|log|] == log;
  }

  lemma LbsKeeps(s: State, error: Error, devId: bool, masterKey: bool)
    requires Linked(s) && s.cnt == Unredirected
    ensures Linked(LbsTurn(s, error, devId, masterKey)) && LbsTurn(s, error, devId, masterKey).my == s.my
  {
    Appended(s.log, Lbs(error == Succ));
    hide Legal, Up, Found, Streak;
  }

  // s is the state before the commands of the turn, t the one after them.
  predicate Obeyed(s: State, t: State) {
    && t.my == s.my && t.lbs == s.lbs && t.das == s.das && t.log == s.log
    && (t.cnt == s.cnt || t.cnt == Unredirected)
    && (t.entr == s.entr || t.entr == SwitchingOver)
  }

  lemma RegKeeps(s: State, t: State, error: Error)
    requires Linked(s) && s.cnt == Redirected && Obeyed(s, t)
    ensures Linked(RegTurn(t, error)) && RegTurn(t, error).my == s.my
  {
    Appended(t.log, DasFailed);
    Appended(t.log, Online);
    Appended(t.log, Switchover);
    hide Legal, Up, Found, Streak;
  }

  lemma RetryKeeps(s: State, t: State, error: Error)
    requires Linked(s) && s.cnt == Broken && Obeyed(s, t)
    ensures Linked(RetryTurn(t, error)) && RetryTurn(t, error).my == s.my
  {
    Appended(t.log, DasFailed);
    Appended(t.log + [DasFailed], Broke);
    Appended(t.log, Reconnected);
    hide Legal, Up, Found, Streak;
  }

  lemma EpilogueKeeps(s: State, error: Error)
    requires Linked(s)
    ensures Linked(Epilogue(s, error)) && Epilogue(s, error).my == s.my
  {
    Appended(s.log, Broke);
    hide Legal, Up, Found, Streak;
  }

  lemma TurnKeeps(s: State, o: Outcome)
    requires Linked(s)
    ensures Linked(Turn(s, o)) && Turn(s, o).my == s.my
  {
    hide Legal, Up, Found, Streak, LbsTurn, RegTurn, RetryTurn, Epilogue, ObeyAll;
    if !s.risk && o.Tried? {
      var t := ObeyAll(s, o.cmds);
      ObeyFrame(s, o.cmds);
      if s.cnt == Unredirected {
        LbsKeeps(s, o.error, o.devId, o.masterKey);
        EpilogueKeeps(LbsTurn(s, o.error, o.devId, o.masterKey), o.error);
      } else if s.cnt == Redirected {
        RegKeeps(s, t, o.error);
        EpilogueKeeps(RegTurn(t, o.error), o.error);
      } else if s.cnt == Registered {
        EpilogueKeeps(WorkTurn(t, o.error), o.error);
      } else {
        RetryKeeps(s, t, o.error);
        EpilogueKeeps(RetryTurn(t, o.error), o.error);
      }
    }
  }

  lemma NextKeeps(s: State, c: Call)
    requires Inv(s)
    ensures Inv(Next(s, c))
  {
    hide Legal, Up, Found, Streak, Turn;
    if c.Yield? && s.my == Started {
      TurnKeeps(s, c.turn);
    } else if c.Stop? && s.my == Started && !s.risk {
      var t := s.(my := Stopped);
      TurnKeeps(t, c.last);
      var u := if t.cnt == Registered then Turn(t, c.last) else t;
      ObeyFrame(u, c.cmds);
    }
  }

  // Whatever is called in whatever order, and whatever the servers answer.
  lemma {:induction false} RunKeeps(s: State, calls: seq<Call>)
    requires Inv(s)
    ensures Inv(Run(s, calls))
    decreases calls
  {
    if calls != [] {
      NextKeeps(s, calls[0]);
      RunKeeps(Next(s, calls[0]), calls[1..]);
    }
  }

  // ----- what that means for a whole run -----

  lemma Counters(calls: seq<Call>)
    ensures var s := Run(BLANK, calls);
            && (s.cnt == Registered ==> s.lbs == 0 && s.das == 0)
            && (s.cnt == Redirected ==> s.das <= MAX_REG)
            && (s.cnt == Broken ==> s.das <= MAX_RETRY)
            && s.lbs <= MAX_LBS && (s.lbs > 0 ==> s.cnt == Unredirected)
            && s.cnt != FastReg && s.cnt != FastRegV3 && s.entr != AuthcodeInvalid
  {
    RunKeeps(BLANK, calls);
  }

  predicate Success(n: Note) {
    n == Lbs(true) || n == Online || n == Switchover || n == Reconnected
  }

  predicate IsUp(n: Note) {
    n == Online || n == Switchover
  }

  // From i on, the log holds only failures: of the DAS, of the LBS, and breaks.
  predicate FailsFrom(log: seq<Note>, i: nat) {
    i <= |log| && forall k | i <= k < |log| :: !Success(log[k])
  }

  function DasFailures(log: seq<Note>): nat {
    if log == [] then 0
    else DasFailures(log[..|log| - 1]) + if log[|log| - 1] == DasFailed then 1 else 0
  }

  // In every run, between one success and the next the DAS is tried in vain at most six times, at
  // most four when the success was a registration.
  lemma FailuresBounded(calls: seq<Call>, i: nat, j: nat)
    requires i <= j <= |Run(BLANK, calls).log| && FailsFrom(Run(BLANK, calls).log[..j], i)
    ensures var log := Run(BLANK, calls).log;
            && DasFailures(log[i..j]) <= MAX_REG + 1
            && (i > 0 && Success(log[i - 1]) && log[i - 1] != Lbs(true) ==> DasFailures(log[i..j]) <= MAX_RETRY + 1)
  {
    var log := Run(BLANK, calls).log;
    RunKeeps(BLANK, calls);
    LegalPrefix(log, j);
    StreakCounts(log[..j], i);
    StreakCapped(log[..j]);
    assert log[..j][i..] == log[i..j];
    if i > 0 && Success(log[i - 1]) && log[i - 1] != Lbs(true) {
      NotFound(log[..j], i);
    }
  }

  lemma {:induction false} LegalPrefix(log: seq<Note>, j: nat)
    requires Legal(log) && j <= |log|
    ensures Legal(log[..j])
  {
    if j < |log| {
      LegalPrefix(log[..|log| - 1], j);
      assert log[..|log| - 1][..j] == log[..j];
    } else {
      assert log[..j] == log;
    }
  }

  lemma {:induction false} StreakCounts(log: seq<Note>, i: nat)
    requires FailsFrom(log, i)
    ensures DasFailures(log[i..]) <= Streak(log)
  {
    if i < |log| {
      var n := |log| - 1;
      StreakCounts(log[..n], i);
      assert log[i..][..n - i] == log[..n][i..] && log[i..][n - i] == log[n];
    }
  }

  lemma {:induction false} StreakCapped(log: seq<Note>)
    requires Legal(log)
    ensures Streak(log) <= Cap(log)
  {
    if log != [] { StreakCapped(log[..|log| - 1]); }
  }

  lemma {:induction false} NotFound(log: seq<Note>, i: nat)
    requires 0 < i && FailsFrom(log, i) && Success(log[i - 1]) && log[i - 1] != Lbs(true)
    ensures !Found(log)
  {
    if i < |log| { NotFound(log[..|log| - 1], i); }
  }

  // In every run, a reconnection is announced after a break only with an online or a switchover
  // between the two.
  lemma ReconnectNeedsUp(calls: seq<Call>, i: nat, j: nat)
    requires i < j < |Run(BLANK, calls).log|
    requires Run(BLANK, calls).log[i] == Broke && Run(BLANK, calls).log[j] == Reconnected
    ensures exists k :: i < k < j && IsUp(Run(BLANK, calls).log[k])
  {
    var log := Run(BLANK, calls).log;
    RunKeeps(BLANK, calls);
    LegalPrefix(log, j + 1);
    assert log[..j + 1][..j] == log[..j];
    var k := UpSince(log[..j], i);
  }

  lemma {:induction false} UpSince(log: seq<Note>, i: nat) returns (k: nat)
    requires Up(log) && i < |log| && log[i] == Broke
    ensures i < k < |log| && IsUp(log[k])
  {
    var n := |log| - 1;
    if IsUp(log[n]) { k := n; } else { k := UpSince(log[..n], i); }
  }

  // In every run, each online or switchover follows a success of the LBS of its own: none is used
  // for two registrations, or for a registration after a reconnection.
  lemma UpNeedsRedirect(calls: seq<Call>, j: nat) returns (i: nat)
    requires j < |Run(BLANK, calls).log| && IsUp(Run(BLANK, calls).log[j])
    ensures var log := Run(BLANK, calls).log;
            && i < j && log[i] == Lbs(true)
            && forall k | i < k < j :: !IsUp(log[k]) && log[k] != Reconnected
  {
    var log := Run(BLANK, calls).log;
    RunKeeps(BLANK, calls);
    LegalPrefix(log, j + 1);
    assert log[..j + 1][..j] == log[..j];
    i := FoundSince(log[..j]);
  }

  lemma {:induction false} FoundSince(log: seq<Note>) returns (i: nat)
    requires Found(log)
    ensures i < |log| && log[i] == Lbs(true)
    ensures forall k | i < k < |log| :: !IsUp(log[k]) && log[k] != Reconnected
  {
    var n := |log| - 1;
    if log[n] == Lbs(true) { i := n; } else { i := FoundSince(log[..n]); }
  }

  // A started device under access control stays so for good: nothing is sent to a server or announced
  // any more, and neither stop nor fini nor init gets it out.
  lemma {:induction false} RiskIsForGood(s: State, calls: seq<Call>)
    requires s.my == Started && s.risk
    ensures var t := Run(s, calls); t == s || (s.cnt == Registered && t == s.(cnt := Broken))
    decreases calls
  {
    if calls != [] { RiskIsForGood(Next(s, calls[0]), calls[1..]); }
  }

  // ----- redirect commands -----

  // Among the commands is one that names another server.
  ghost predicate Redirects(s: State, cmds: seq<Command>) {
    exists i :: 0 <= i < |cmds| && cmds[i].Redirect? && cmds[i].name != s.server
  }

  // It resets the cloud state until the result of the turn is in.
  lemma {:induction false} RedirectObeyed(s: State, cmds: seq<Command>)
    ensures ObeyAll(s, cmds).cnt == if Redirects(s, cmds) then Unredirected else s.cnt
    decreases cmds
  {
    if cmds != [] {
      var t := Obey(s, cmds[0]);
      RedirectObeyed(t, cmds[1..]);
      if cmds[0].Redirect? && cmds[0].name != s.server {
        ObeyFrame(t, cmds[1..]);
      } else {
        assert forall i | 0 <= i < |cmds| - 1 :: cmds[1..][i] == cmds[i + 1];
        if Redirects(s, cmds) {
          var i :| 0 <= i < |cmds| && cmds[i].Redirect? && cmds[i].name != s.server;
          assert cmds[1..][i - 1] == cmds[i];
        }
      }
    }
  }

  // The result code that overwrites what a command of the same turn has set.
  predicate Overwrites(cnt: Cloud, error: Error) {
    if cnt == Registered then error == NeedReconnect else error == Succ
  }

  // In every state with a DAS, a command that names another server sends the device back to the LBS
  // exactly when the turn it arrives in does not end in the one result that overwrites it: a
  // successful log-in, or a connection found broken.
  lemma RedirectHeeded(s: State, o: Outcome)
    requires Linked(s) && !s.risk && s.cnt != Unredirected && o.Tried? && Redirects(s, o.cmds)
    ensures Turn(s, o).cnt == Unredirected <==> !Overwrites(s.cnt, o.error)
  {
    hide Legal, Up, Found, Streak, Redirects;
    ObeyFrame(s, o.cmds);
    RedirectObeyed(s, o.cmds);
  }

  // The three ways to lose one. The device stays with the DAS it has, and as it has taken over the name
  // of the new server, the same command has no effect when it is repeated.
  lemma RedirectLost(s: State, name: bytes)
    requires Linked(s) && !s.risk && name != s.server
    ensures var t := Turn(s, Tried(Succ, [Redirect(name)], s.devId, s.masterKey));
            s.cnt == Redirected ==>
              t.cnt == Registered && t.log == s.log + [Switchover] && Obey(t, Redirect(name)) == t
    ensures var t := Turn(s, Tried(NeedReconnect, [Redirect(name)], s.devId, s.masterKey));
            s.cnt == Registered ==>
              t.cnt == Broken && t.log == s.log && Obey(t, Redirect(name)) == t
    ensures var t := Turn(s, Tried(Succ, [Redirect(name)], s.devId, s.masterKey));
            s.cnt == Broken ==>
              t.cnt == Registered && t.entr == SwitchingOver && t.log == s.log + [Reconnected]
              && Obey(t, Redirect(name)) == t
  {
    hide Legal, Up, Found, Streak;
    assert ObeyAll(s, [Redirect(name)]) == Obey(s, Redirect(name));
  }
}
