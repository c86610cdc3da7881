// What a turn comes to, exactly: where the device goes, what is announced, and how long it goes on trying.
module AccessTurns {
  import opened Access
  import opened Bytes

  // ----- one turn -----

  lemma {:induction false} EntranceObeyed(s: State, cmds: seq<Command>)
    ensures ObeyAll(s, cmds).entr == if Redirects(s, cmds) then SwitchingOver else s.entr
    decreases cmds
  {
    if cmds != [] {
      var t := Obey(s, cmds[0]);
      EntranceObeyed(t, cmds[1..]);
      FirstCommand(s, cmds);
      if cmds[0].Redirect? && cmds[0].name != s.server { ObeyFrame(t, cmds[1..]); }
    }
  }

  lemma FirstCommand(s: State, cmds: seq<Command>)
    requires cmds != []
    ensures Redirects(s, cmds) <==> (cmds[0].Redirect? && cmds[0].name != s.server) || Redirects(s, cmds[1..])
  {
    assert forall i | 0 <= i < |cmds| - 1 :: cmds[1..][i] == cmds[i + 1];
    if Redirects(s, cmds) {
      var i :| 0 <= i < |cmds| && cmds[i].Redirect? && cmds[i].name != s.server;
      if i > 0 { assert cmds[1..][i - 1] == cmds[i]; }
    }
    if Redirects(s, cmds[1..]) {
      var i :| 0 <= i < |cmds| - 1 && cmds[1..][i].Redirect? && cmds[1..][i].name != s.server;
      assert cmds[i + 1] == cmds[1..][i];
    }
  }

  lemma {:induction false} RiskObeyed(s: State, cmds: seq<Command>)
    ensures ObeyAll(s, cmds).risk <==> s.risk || Offline in cmds
    ensures !Redirects(s, cmds) ==> ObeyAll(s, cmds).server == s.server
    decreases cmds
  {
    if cmds != [] {
      RiskObeyed(Obey(s, cmds[0]), cmds[1..]);
      FirstCommand(s, cmds);
    }
  }

  predicate SameHolder(s: State, t: State) {
    t.server == s.server && t.devId == s.devId && t.masterKey == s.masterKey
  }

  lemma LbsKept(s: State, error: Error, devId: bool, masterKey: bool)
    ensures var t := LbsTurn(s, error, devId, masterKey);
            t.risk == s.risk && t.entr == s.entr && SameHolder(s.(devId := devId, masterKey := masterKey), t)
  {
  }

  lemma RegKept(s: State, error: Error)
    ensures var t := RegTurn(s, error);
            && t.risk == s.risk && SameHolder(s, t)
            && t.entr == if error == Succ && s.entr == SwitchingOver then Normal else s.entr
  {
  }

  lemma WorkKept(s: State, error: Error)
    ensures WorkTurn(s, error).risk == s.risk && WorkTurn(s, error).entr == s.entr && SameHolder(s, WorkTurn(s, error))
  {
  }

  lemma RetryKept(s: State, error: Error)
    ensures RetryTurn(s, error).risk == s.risk && RetryTurn(s, error).entr == s.entr
    ensures SameHolder(s, RetryTurn(s, error))
  {
  }

  lemma EpilogueKept(s: State, error: Error)
    ensures Epilogue(s, error).risk <==> s.risk || error == BLACKLIST
    ensures Epilogue(s, error).entr == s.entr && SameHolder(s, Epilogue(s, error))
  {
  }

  // The fields of a turn that the log and the cloud state do not hold.
  lemma TurnKept(s: State, o: Outcome)
    requires Linked(s) && !s.risk && o.Tried?
    ensures var t := Turn(s, o);
            var u := ObeyAll(s, o.cmds);
            if s.cnt == Unredirected then
              && (t.risk <==> o.error == BLACKLIST) && t.server == s.server && t.entr == s.entr
              && t.devId == o.devId && t.masterKey == o.masterKey
            else
              && (t.risk <==> u.risk || o.error == BLACKLIST) && t.server == u.server
              && t.devId == u.devId && t.masterKey == u.masterKey
              && t.entr == if s.cnt == Redirected && o.error == Succ && u.entr == SwitchingOver then Normal else u.entr
  {
    hide Legal, Up, Found, Streak, LbsTurn, RegTurn, WorkTurn, RetryTurn, Epilogue, ObeyAll;
    var u := ObeyAll(s, o.cmds);
    if s.cnt == Unredirected {
      LbsKept(s, o.error, o.devId, o.masterKey);
      EpilogueKept(LbsTurn(s, o.error, o.devId, o.masterKey), o.error);
    } else if s.cnt == Redirected {
      RegKept(u, o.error);
      EpilogueKept(RegTurn(u, o.error), o.error);
    } else if s.cnt == Registered {
      WorkKept(u, o.error);
      EpilogueKept(WorkTurn(u, o.error), o.error);
    } else {
      RetryKept(u, o.error);
      EpilogueKept(RetryTurn(u, o.error), o.error);
    }
  }

  // Failures of the DAS in a row after which one more makes the device give up.
  function Patience(cnt: Cloud): nat {
    if cnt == Redirected then 5 else 3
  }

  // Where a turn leads, in terms of its result, the commands read in it and the failures in the log.
  lemma CloudIff(s: State, o: Outcome)
    requires Linked(s) && !s.risk && o.Tried?
    ensures var t := Turn(s, o);
            var back := o.error == SESSION_LOST || Redirects(s, o.cmds);
            && (s.cnt == Unredirected ==> t.cnt == if o.error == Succ then Redirected else Unredirected)
            && (s.cnt == Registered ==>
                  t.cnt == if o.error == NeedReconnect then Broken else if back then Unredirected else Registered)
            && (s.cnt == Redirected || s.cnt == Broken ==>
                  t.cnt == if o.error == Succ then Registered
                           else if back || Streak(s.log) >= Patience(s.cnt) then Unredirected
                           else s.cnt)
  {
    hide Legal, Up, Found, Streak, Redirects, ObeyAll;
    ObeyFrame(s, o.cmds);
    RedirectObeyed(s, o.cmds);
  }

  function Lost(error: Error): seq<Note> {
    if error == SESSION_LOST then [Broke] else []
  }

  // What a turn adds to the log: the attempt it made, and a break when a broken device gives up or the
  // session is lost.
  lemma LogIff(s: State, o: Outcome)
    requires Linked(s) && !s.risk && o.Tried?
    ensures var t := Turn(s, o);
            && (s.cnt == Unredirected ==> t.log == s.log + ([Lbs(o.error == Succ)] + Lost(o.error)))
            && (s.cnt == Registered ==> t.log == s.log + Lost(o.error))
            && (s.cnt == Redirected ==>
                  t.log == s.log +
                    if o.error != Succ then [DasFailed] + Lost(o.error)
                    else [if s.entr == SwitchingOver || Redirects(s, o.cmds) then Switchover else Online])
            && (s.cnt == Broken ==>
                  t.log == s.log + if o.error == Succ then [Reconnected]
                                   else [DasFailed] + (if Streak(s.log) >= 3 then [Broke] else []) + Lost(o.error))
  {
    hide Legal, Up, Found, Streak, Redirects, LbsTurn, RegTurn, RetryTurn, Epilogue, ObeyAll;
    var t := ObeyAll(s, o.cmds);
    ObeyFrame(s, o.cmds);
    EntranceObeyed(s, o.cmds);
    if s.cnt == Unredirected {
      LbsLog(s, o);
      EpilogueLog(LbsTurn(s, o.error, o.devId, o.masterKey), o.error);
    } else if s.cnt == Redirected {
      RegLog(t, o.error);
      EpilogueLog(RegTurn(t, o.error), o.error);
      assert o.error == Succ ==> RegTurn(t, o.error).log + [] == RegTurn(t, o.error).log;
      assert s.log + [DasFailed] + Lost(o.error) == s.log + ([DasFailed] + Lost(o.error));
    } else if s.cnt == Registered {
      EpilogueLog(WorkTurn(t, o.error), o.error);
    } else {
      RetryLog(t, o.error);
      EpilogueLog(RetryTurn(t, o.error), o.error);
      var broke := if t.das >= 3 then [Broke] else [];
      assert o.error == Succ ==> RetryTurn(t, o.error).log + [] == RetryTurn(t, o.error).log;
      assert s.log + ([DasFailed] + broke) + Lost(o.error) == s.log + ([DasFailed] + broke + Lost(o.error));
    }
  }

  lemma EpilogueLog(s: State, error: Error)
    ensures Epilogue(s, error).log == s.log + Lost(error)
  {
  }

  lemma LbsLog(s: State, o: Outcome)
    requires o.Tried?
    ensures var u := LbsTurn(s, o.error, o.devId, o.masterKey).log;
            u == s.log + [Lbs(o.error == Succ)] && u + Lost(o.error) == s.log + ([Lbs(o.error == Succ)] + Lost(o.error))
  {
  }

  lemma RegLog(s: State, error: Error)
    ensures RegTurn(s, error).log ==
            s.log + [if error != Succ then DasFailed else if s.entr == SwitchingOver then Switchover else Online]
  {
  }

  lemma RetryLog(s: State, error: Error)
    ensures RetryTurn(s, error).log ==
            s.log + if error == Succ then [Reconnected] else [DasFailed] + if s.das >= 3 then [Broke] else []
  {
    assert s.log + [DasFailed] + [Broke] == s.log + ([DasFailed] + [Broke]);
  }

  // Access control sets in exactly on a blacklisted log-in or an offline command.
  lemma RiskIff(s: State, o: Outcome)
    requires Linked(s) && !s.risk && o.Tried?
    ensures Turn(s, o).risk <==> o.error == BLACKLIST || (s.cnt != Unredirected && Offline in o.cmds)
  {
    hide Linked, Turn, ObeyAll;
    TurnKept(s, o);
    RiskObeyed(s, o.cmds);
  }

  // The last command with a name says which server the device is with; leaving one costs the master key.
  lemma {:induction false} ServerObeyed(s: State, cmds: seq<Command>)
    ensures var t := ObeyAll(s, cmds);
            && t.server == LastName(s.server, cmds)
            && (t.masterKey <==> s.masterKey && !Redirects(s, cmds)) && t.devId == s.devId
    decreases cmds
  {
    if cmds != [] {
      FirstCommand(s, cmds);
      LastNameTail(s.server, cmds);
      ServerObeyed(Obey(s, cmds[0]), cmds[1..]);
    }
  }

  function LastName(name: bytes, cmds: seq<Command>): bytes {
    if cmds == [] then name
    else if cmds[|cmds| - 1].Redirect? then cmds[|cmds| - 1].name
    else LastName(name, cmds[..|cmds| - 1])
  }

  lemma {:induction false} LastNameTail(name: bytes, cmds: seq<Command>)
    requires cmds != []
    ensures LastName(name, cmds) == LastName(if cmds[0].Redirect? then cmds[0].name else name, cmds[1..])
  {
    var n := |cmds| - 1;
    if n > 0 && !cmds[n].Redirect? {
      LastNameTail(name, cmds[..n]);
      assert cmds[..n][1..] == cmds[1..][..n - 1];
    }
  }

  // The credentials are those the LBS has left, and stay until a command names another server.
  lemma KeysIff(s: State, o: Outcome)
    requires Linked(s) && !s.risk && o.Tried?
    ensures var t := Turn(s, o);
            if s.cnt == Unredirected then t.devId == o.devId && t.masterKey == o.masterKey
            else t.devId == s.devId && (t.masterKey <==> s.masterKey && !Redirects(s, o.cmds))
  {
    hide Turn, ObeyAll, Linked;
    TurnKept(s, o);
    ServerObeyed(s, o.cmds);
  }

  // The life of the kernel: one that is new can be initialised, one that is not running started or finished,
  // and a running one stopped unless it is under access control. Nothing else changes it.
  lemma LifeIff(s: State, c: Call)
    requires Inv(s)
    ensures var t := Next(s, c);
            t.my == match c
              case Init(ok, _, _, _) => if s.my == Idle0 && ok then Idle else s.my
              case Fini => if s.my == Idle || s.my == Stopped then Idle0 else s.my
              case Start => if s.my == Idle || s.my == Stopped then Started else s.my
              case Stop(_, _) => if s.my == Started && !s.risk then Stopped else s.my
              case Yield(_) => s.my
              case Break => s.my
    ensures c.Fini? && (s.my == Idle || s.my == Stopped) ==> Next(s, c) == BLANK.(log := s.log)
    ensures c.Init? && s.my == Idle0 && c.ok ==>
              Next(s, c) == BLANK.(
                log := s.log, my := Idle, server := c.server, devId := c.devId, masterKey := c.masterKey)
  {
    hide Legal, Up, Found, Streak, Turn, ObeyAll;
    if c.Yield? && s.my == Started { TurnKeeps(s, c.turn); }
    if c.Stop? && s.my == Started && !s.risk {
      var t := s.(my := Stopped);
      TurnKeeps(t, c.last);
      ObeyFrame(if t.cnt == Registered then Turn(t, c.last) else t, c.cmds);
    }
  }

  // ----- going on trying -----

  // A turn that waits, or whose attempt fails without anything that ends the trying by itself.
  ghost predicate Fails(s: State, o: Outcome) {
    o.Tried? ==>
      && o.error != Succ && o.error != SESSION_LOST && o.error != BLACKLIST
      && !Redirects(s, o.cmds) && Offline !in o.cmds
  }

  function Yields(turns: seq<Outcome>): seq<Call> {
    if turns == [] then [] else [Call.Yield(turns[0])] + Yields(turns[1..])
  }

  function Attempts(turns: seq<Outcome>): nat {
    if turns == [] then 0 else (if turns[0].Tried? then 1 else 0) + Attempts(turns[1..])
  }

  // However long the servers fail it, a device goes on trying to register until the sixth failure since the
  // LBS named the DAS, and to reconnect until the fourth since it was registered; then it goes back to the LBS.
  lemma {:induction false} Perseveres(s: State, turns: seq<Outcome>)
    requires Linked(s) && s.my == Started && !s.risk && (s.cnt == Redirected || s.cnt == Broken)
    requires forall i | 0 <= i < |turns| :: Fails(s, turns[i])
    ensures Run(s, Yields(turns)).cnt ==
            if Streak(s.log) + Attempts(turns) <= Patience(s.cnt) then s.cnt else Unredirected
    decreases turns
  {
    if turns != [] {
      var o, rest := turns[0], turns[1..];
      var t := Turn(s, o);
      assert Yields(turns)[0] == Call.Yield(o) && Yields(turns)[1..] == Yields(rest);
      assert Fails(s, o);
      forall i | 0 <= i < |rest| ensures Fails(s, rest[i]) { assert rest[i] == turns[i + 1]; }
      if o.Waited? {
        Perseveres(s, rest);
      } else {
        TurnKeeps(s, o);
        CloudIff(s, o);
        RiskIff(s, o);
        Failed(s, o);
        hide Turn, Fails, Linked, Streak;
        forall i | 0 <= i < |rest| ensures Fails(t, rest[i]) { SameServer(s, t, rest[i]); }
        if t.cnt == s.cnt { Perseveres(t, rest); } else { StaysAway(t, rest); }
      }
    }
  }

  lemma Failed(s: State, o: Outcome)
    requires Linked(s) && !s.risk && o.Tried? && Fails(s, o) && s.cnt != Registered
    ensures Turn(s, o).server == s.server && Turn(s, o).my == s.my
    ensures s.cnt != Unredirected && Turn(s, o).cnt == s.cnt ==> Streak(Turn(s, o).log) == Streak(s.log) + 1
  {
    hide Legal, Up, Found, Streak, Redirects;
    RiskObeyed(s, o.cmds);
    ObeyFrame(s, o.cmds);
    Appended(s.log, DasFailed);
  }

  lemma SameServer(s: State, t: State, o: Outcome)
    requires t.server == s.server && Fails(s, o)
    ensures Fails(t, o)
  {
  }

  // It never gives up on the LBS, and paces itself by the number of failures, up to 60; a failed connection
  // counts as the first.
  lemma {:induction false} StaysAway(s: State, turns: seq<Outcome>)
    requires Linked(s) && s.my == Started && !s.risk && s.cnt == Unredirected
    requires forall i | 0 <= i < |turns| :: Fails(s, turns[i])
    ensures Run(s, Yields(turns)).cnt == Unredirected
    ensures (forall i | 0 <= i < |turns| :: Connects(turns[i])) ==>
              Run(s, Yields(turns)).lbs == if s.lbs + Attempts(turns) < 60 then s.lbs + Attempts(turns) else 60
    ensures turns != [] && turns[|turns| - 1].Tried? && !Connects(turns[|turns| - 1]) ==>
              Run(s, Yields(turns)).lbs == 1
    decreases turns
  {
    if turns != [] {
      var o, rest := turns[0], turns[1..];
      var t := Turn(s, o);
      assert Yields(turns)[0] == Call.Yield(o) && Yields(turns)[1..] == Yields(rest);
      assert Fails(s, o);
      forall i | 0 <= i < |rest| ensures Fails(s, rest[i]) { assert rest[i] == turns[i + 1]; }
      assert forall i | 0 <= i < |rest| :: rest[i] == turns[i + 1];
      if o.Waited? {
        StaysAway(s, rest);
      } else {
        TurnKeeps(s, o);
        CloudIff(s, o);
        RiskIff(s, o);
        Failed(s, o);
        Paced(s, o);
        hide Turn, Fails, Linked, Streak;
        forall i | 0 <= i < |rest| ensures Fails(t, rest[i]) { SameServer(s, t, rest[i]); }
        StaysAway(t, rest);
      }
    }
  }

  // The LBS was reached.
  predicate Connects(o: Outcome) {
    o.Tried? ==> o.error != NotConnected && o.error != HostUnknown
  }

  lemma Paced(s: State, o: Outcome)
    requires Linked(s) && !s.risk && s.cnt == Unredirected && o.Tried? && Fails(s, o)
    ensures Turn(s, o).lbs == if !Connects(o) then 1 else if s.lbs + 1 < 60 then s.lbs + 1 else 60
  {
    hide Legal, Up, Found, Streak, Redirects, ObeyAll;
  }

  // ----- online or switchover -----

  // The commands a call obeys in state s.
  function Heard(s: State, c: Call): seq<Command> {
    match c
    case Yield(o) => if s.my == Started && !s.risk && o.Tried? && s.cnt != Unredirected then o.cmds else []
    case Stop(last, cmds) =>
      if s.my != Started || s.risk then []
      else (if s.cnt == Registered && last.Tried? then last.cmds else []) + cmds
    case _ => []
  }

  // The call announces a registration, or zeroes the kernel structure.
  predicate Settles(s: State, c: Call) {
    match c
    case Init(_, _, _, _) => s.my == Idle0 || s.my == Idle2
    case Fini => s.my == Idle || s.my == Stopped
    case _ => var log := Next(s, c).log; |log| > |s.log| && IsUp(log[|s.log|])
  }

  // Call i obeys a command that names another server, and no registration was announced since.
  ghost predicate MovedAt(calls: seq<Call>, i: nat) {
    && i < |calls| && Redirects(Run(BLANK, calls[..i]), Heard(Run(BLANK, calls[..i]), calls[i]))
    && forall j | i <= j < |calls| :: !Settles(Run(BLANK, calls[..j]), calls[j])
  }

  ghost predicate Moved(calls: seq<Call>) {
    exists i: nat :: MovedAt(calls, i)
  }

  // In every run, a registration is announced as a switchover exactly when a command that names another
  // server was obeyed since the last announced registration, in this turn or before, and as online otherwise.
  lemma SwitchoverIff(calls: seq<Call>, o: Outcome)
    requires var s := Run(BLANK, calls);
             s.my == Started && !s.risk && s.cnt == Redirected && o.Tried? && o.error == Succ
    ensures var s := Run(BLANK, calls);
            Next(s, Call.Yield(o)).log == s.log + [if Moved(calls) || Redirects(s, o.cmds) then Switchover else Online]
  {
    hide Moved, Redirects, Turn;
    RunKeeps(BLANK, calls);
    EntranceIff(calls);
    LogIff(Run(BLANK, calls), o);
  }

  lemma {:induction false} EntranceIff(calls: seq<Call>)
    ensures Run(BLANK, calls).entr == SwitchingOver <==> Moved(calls)
    ensures Inv(Run(BLANK, calls))
    decreases |calls|
  {
    RunKeeps(BLANK, calls);
    if calls != [] {
      var n := |calls| - 1;
      var before := calls[..n];
      EntranceIff(before);
      RunSnoc(BLANK, calls);
      NextEntrance(Run(BLANK, before), calls[n]);
      MovedSnoc(calls);
    }
  }

  lemma {:induction false} RunSnoc(s: State, calls: seq<Call>)
    requires calls != []
    ensures Run(s, calls) == Next(Run(s, calls[..|calls| - 1]), calls[|calls| - 1])
    decreases calls
  {
    hide Next;
    var n := |calls| - 1;
    if n > 0 {
      RunSnoc(Next(s, calls[0]), calls[1..]);
      assert calls[1..][..n - 1] == calls[..n][1..];
    }
  }

  lemma MovedSnoc(calls: seq<Call>)
    requires calls != []
    ensures var n := |calls| - 1;
            var s := Run(BLANK, calls[..n]);
            Moved(calls) <==> !Settles(s, calls[n]) && (Moved(calls[..n]) || Redirects(s, Heard(s, calls[n])))
  {
    hide Redirects, Heard, Settles, Run;
    var n := |calls| - 1;
    var before := calls[..n];
    forall i | 0 <= i < n ensures before[..i] == calls[..i] {}
    if Moved(calls) {
      var i: nat :| MovedAt(calls, i);
      if i < n { assert MovedAt(before, i); }
    }
    if !Settles(Run(BLANK, before), calls[n]) {
      if Redirects(Run(BLANK, before), Heard(Run(BLANK, before), calls[n])) {
        assert MovedAt(calls, n);
      } else if Moved(before) {
        var i: nat :| MovedAt(before, i);
        assert MovedAt(calls, i);
      }
    }
  }

  // One call: a command sets the entrance, an announced registration and zeroing clear it.
  lemma NextEntrance(s: State, c: Call)
    requires Inv(s)
    ensures Next(s, c).entr == SwitchingOver <==>
            !Settles(s, c) && (s.entr == SwitchingOver || Redirects(s, Heard(s, c)))
  {
    hide Legal, Up, Found, Streak, Redirects;
    NothingHeard(s);
    match c
    case Yield(o) =>
      if s.my == Started && !s.risk && o.Tried? {
        LogIff(s, o);
        TurnEntrance(s, o);
      }
    case Stop(last, cmds) => StopEntrance(s, last, cmds);
    case _ =>
  }

  lemma NothingHeard(s: State)
    ensures !Redirects(s, [])
  {
  }

  lemma TurnEntrance(s: State, o: Outcome)
    requires Linked(s) && !s.risk && o.Tried?
    ensures Turn(s, o).entr ==
            if s.cnt == Redirected && o.error == Succ then Normal
            else if s.cnt != Unredirected && Redirects(s, o.cmds) then SwitchingOver
            else s.entr
  {
    hide Legal, Up, Found, Streak, Redirects, ObeyAll, Turn;
    TurnKept(s, o);
    EntranceObeyed(s, o.cmds);
  }

  lemma {:induction false} RedirectsConcat(s: State, a: seq<Command>, b: seq<Command>)
    ensures Redirects(s, a + b) <==> Redirects(s, a) || Redirects(s, b)
    decreases a
  {
    hide Redirects;
    if a == [] {
      NothingHeard(s);
      assert a + b == b;
    } else {
      RedirectsConcat(s, a[1..], b);
      assert (a + b)[1..] == a[1..] + b;
      FirstCommand(s, a + b);
      FirstCommand(s, a);
    }
  }

  lemma StopEntrance(s: State, last: Outcome, cmds: seq<Command>)
    requires Inv(s)
    ensures Next(s, Stop(last, cmds)).entr ==
            if Redirects(s, Heard(s, Stop(last, cmds))) then SwitchingOver else s.entr
    ensures !Settles(s, Stop(last, cmds))
  {
    hide Legal, Up, Found, Streak, Redirects, ObeyAll, Turn;
    if s.my != Started || s.risk {
      NothingHeard(s);
    } else {
      var t := s.(my := Stopped);
      var u := if t.cnt == Registered then Turn(t, last) else t;
      EntranceObeyed(u, cmds);
      ObeyFrame(u, cmds);
      if t.cnt == Registered && last.Tried? {
        TurnEntrance(t, last);
        LogIff(t, last);
        WorkServer(t, last);
        RedirectsConcat(s, last.cmds, cmds);
        SameName(s, t, last.cmds);
        if !Redirects(s, last.cmds) { SameName(s, u, cmds); }
      } else {
        if last.Waited? { WaitedTurn(t, last); }
        assert [] + cmds == cmds;
        SameName(s, u, cmds);
      }
    }
  }

  lemma WaitedTurn(s: State, o: Outcome)
    requires o.Waited?
    ensures Turn(s, o) == s
  {
  }

  lemma WorkServer(s: State, o: Outcome)
    requires s.cnt == Registered && !s.risk && o.Tried?
    ensures !Redirects(s, o.cmds) ==> Turn(s, o).server == s.server
  {
    hide Redirects;
    RiskObeyed(s, o.cmds);
  }

  lemma SameName(s: State, t: State, cmds: seq<Command>)
    requires s.server == t.server
    ensures Redirects(s, cmds) <==> Redirects(t, cmds)
  {
  }
}
